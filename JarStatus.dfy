/** The per-jar `Status` record of omero/verify_jars.py and its one-line
    rendering (`Status.__str__`). */
module JarStatus {
  import opened Wrappers
  import opened PyStr

  /** The six fields of a Status that the parser sets. */
  datatype Field = Verified | Warning | UnknownCert | NoTimestamp | NoManifest | ExpireSoon

  /** One jar's status. Every flag starts as `None` (Python's `None`) and is set at
      most once to `Some(b)` while the jarsigner output is parsed. */
  datatype Status = Status(
    jarname: string,
    verified: Option<bool>,
    warning: Option<bool>,
    unknowncert: Option<bool>,
    notimestamp: Option<bool>,
    nomanifest: Option<bool>,
    expiresoon: Option<bool>)
  {
    function Get(f: Field): Option<bool> {
      match f
      case Verified => verified
      case Warning => warning
      case UnknownCert => unknowncert
      case NoTimestamp => notimestamp
      case NoManifest => nomanifest
      case ExpireSoon => expiresoon
    }

    /** Assigns one field; the name and every other field are left as they were. */
    function Set(f: Field, v: bool): (t: Status)
      ensures t.jarname == jarname
      ensures t.Get(f) == Some(v)
      ensures forall g :: g != f ==> t.Get(g) == Get(g)
    {
      match f
      case Verified => this.(verified := Some(v))
      case Warning => this.(warning := Some(v))
      case UnknownCert => this.(unknowncert := Some(v))
      case NoTimestamp => this.(notimestamp := Some(v))
      case NoManifest => this.(nomanifest := Some(v))
      case ExpireSoon => this.(expiresoon := Some(v))
    }
  }

  /** `Status(jarname)`: the name, and every field unset. */
  function NewStatus(jarname: string): (s: Status)
    ensures s.jarname == jarname
    ensures forall f :: s.Get(f) == None
  {
    Status(jarname, None, None, None, None, None, None)
  }

  /** Python truthiness of a tri-state flag: `None` and `False` are both false. */
  predicate Truthy(o: Option<bool>) {
    o == Some(true)
  }

  /** The optional words of the rendering, in the order they are appended. */
  const FlagOrder: seq<Field> := [Warning, UnknownCert, NoTimestamp, NoManifest, ExpireSoon]

  /** The text appended for a truthy flag, with its separating space. */
  function FlagWord(f: Field): string
    requires f != Verified
  {
    match f
    case Warning => " warning"
    case UnknownCert => " unknown-cert"
    case NoTimestamp => " no-timestamp"
    case NoManifest => " no-manifest"
    case ExpireSoon => " expire-soon"
  }

  /** The words of the flags among `fs` that are truthy, in the order of `fs`. */
  function Words(s: Status, fs: seq<Field>): string
    requires Verified !in fs
  {
    if fs == [] then ""
    else (if Truthy(s.Get(fs[0])) then FlagWord(fs[0]) else "") + Words(s, fs[1..])
  }

  function Verdict(s: Status): string {
    if Truthy(s.verified) then "Signed" else "Unsigned"
  }

  /** What `str(s)` gives: the name, Signed or Unsigned, then the word of every
      truthy flag in FlagOrder. */
  function Render(s: Status): string {
    s.jarname + " " + Verdict(s) + Words(s, FlagOrder)
  }

  /** `Status.__str__`, building the string by appending as the source does. */
  method Str(s: Status) returns (r: string)
    ensures r == Render(s)
  {
    r := s.jarname + " " + (if Truthy(s.verified) then "Signed" else "Unsigned");
    ghost var head := r;
    if Truthy(s.warning) {
      r := r + " warning";
    }
    assert r == head + Word(s, Warning);
    if Truthy(s.unknowncert) {
      r := r + " unknown-cert";
    }
    assert r == head + Word(s, Warning) + Word(s, UnknownCert);
    if Truthy(s.notimestamp) {
      r := r + " no-timestamp";
    }
    assert r == head + Word(s, Warning) + Word(s, UnknownCert) + Word(s, NoTimestamp);
    if Truthy(s.nomanifest) {
      r := r + " no-manifest";
    }
    assert r == head + Word(s, Warning) + Word(s, UnknownCert) + Word(s, NoTimestamp) + Word(s, NoManifest);
    if Truthy(s.expiresoon) {
      r := r + " expire-soon";
    }
    assert r == head + Word(s, Warning) + Word(s, UnknownCert) + Word(s, NoTimestamp) + Word(s, NoManifest) + Word(s, ExpireSoon);
    WordsInOrder(s);
    RenderParts(s, head);
  }

  /** Render(s), cut after the verdict and after each flag word. */
  lemma RenderParts(s: Status, head: string)
    requires head == s.jarname + " " + Verdict(s)
    requires Words(s, FlagOrder) ==
      "" + Word(s, Warning) + Word(s, UnknownCert) + Word(s, NoTimestamp) + Word(s, NoManifest) + Word(s, ExpireSoon)
    ensures Render(s) ==
      head + Word(s, Warning) + Word(s, UnknownCert) + Word(s, NoTimestamp) + Word(s, NoManifest) + Word(s, ExpireSoon)
  {
    var a, b, c, d, e := Word(s, Warning), Word(s, UnknownCert), Word(s, NoTimestamp), Word(s, NoManifest), Word(s, ExpireSoon);
    assert "" + a == a;
    AppendAssoc(head, "" + a, b);
    AppendAssoc(head, "" + a + b, c);
    AppendAssoc(head, "" + a + b + c, d);
    AppendAssoc(head, "" + a + b + c + d, e);
  }

  function Word(s: Status, f: Field): string
    requires f != Verified
  {
    if Truthy(s.Get(f)) then FlagWord(f) else ""
  }

  lemma WordsCons(s: Status, fs: seq<Field>)
    requires Verified !in fs && fs != []
    ensures Words(s, fs) == Word(s, fs[0]) + Words(s, fs[1..])
  {
  }

  lemma WordsInOrder(s: Status)
    ensures Words(s, FlagOrder) ==
      "" + Word(s, Warning) + Word(s, UnknownCert) + Word(s, NoTimestamp) + Word(s, NoManifest) + Word(s, ExpireSoon)
  {
    var f1 := [UnknownCert, NoTimestamp, NoManifest, ExpireSoon];
    var f2 := [NoTimestamp, NoManifest, ExpireSoon];
    var f3 := [NoManifest, ExpireSoon];
    var f4 := [ExpireSoon];
    assert FlagOrder[1..] == f1 && f1[1..] == f2 && f2[1..] == f3 && f3[1..] == f4 && f4[1..] == [];
    var a, b, c, d, e := Word(s, Warning), Word(s, UnknownCert), Word(s, NoTimestamp), Word(s, NoManifest), Word(s, ExpireSoon);
    WordsCons(s, f4);
    assert Words(s, f4) == e + "";
    WordsCons(s, f3);
    WordsCons(s, f2);
    WordsCons(s, f1);
    WordsCons(s, FlagOrder);
    assert Words(s, FlagOrder) == a + (b + (c + (d + (e + ""))));
    Concat5(a, b, c, d, e);
  }

  lemma Concat5(a: string, b: string, c: string, d: string, e: string)
    ensures a + (b + (c + (d + (e + "")))) == "" + a + b + c + d + e
  {
  }

  /** A status with no truthy flag renders as its name and verdict alone. */
  lemma RenderUnflagged(s: Status)
    requires forall f :: f != Verified ==> !Truthy(s.Get(f))
    ensures Render(s) == s.jarname + " " + Verdict(s)
  {
    WordsInOrder(s);
    assert Word(s, Warning) == "" && Word(s, UnknownCert) == "" && Word(s, NoTimestamp) == "";
    assert Word(s, NoManifest) == "" && Word(s, ExpireSoon) == "";
    assert Words(s, FlagOrder) == "";
  }

  // Reading a rendering back: what a line of `-v` output tells its reader.

  /** What a rendered line shows: whether the jar is Signed, and which flag words appear. */
  datatype Shown = Shown(signed: bool, flags: set<Field>)

  /** What `s` shows once rendered: `None` and `False` look the same. */
  function Visible(s: Status): Shown {
    Shown(Truthy(s.verified), ShownAmong(s, FlagOrder))
  }

  /** Reads the flag words of `fs`, in that order, each at most once. */
  function ReadWords(text: string, fs: seq<Field>): Option<set<Field>>
    requires Verified !in fs
  {
    if fs == [] then
      if text == "" then Some({}) else None
    else
      var w := FlagWord(fs[0]);
      if StartsWith(text, w) then
        var more :- ReadWords(text[|w|..], fs[1..]);
        Some({fs[0]} + more)
      else
        ReadWords(text, fs[1..])
  }

  /** Reads the line printed for the jar called `name`. */
  function ReadRendering(name: string, text: string): Option<Shown> {
    var rest :- Skip(text, name + " ");
    if StartsWith(rest, "Signed") then
      var flags :- ReadWords(rest[6..], FlagOrder);
      Some(Shown(true, flags))
    else if StartsWith(rest, "Unsigned") then
      var flags :- ReadWords(rest[8..], FlagOrder);
      Some(Shown(false, flags))
    else
      None
  }

  /** Two different flag words never start alike, so reading the words in order is
      unambiguous. */
  lemma WordsDiffer(f: Field, g: Field, t: string)
    requires f != Verified && g != Verified && f != g
    ensures !StartsWith(FlagWord(g) + t, FlagWord(f))
  {
    var a := FlagWord(g) + t;
    var b := FlagWord(f);
    if a[1] != b[1] {
      DifferAt(a, b, 1);
    } else {
      DifferAt(a, b, 4);
    }
  }

  lemma {:induction false} WordsStart(s: Status, fs: seq<Field>)
    requires Verified !in fs
    ensures Words(s, fs) == [] || exists i :: 0 <= i < |fs| && Words(s, fs) == FlagWord(fs[i]) + Words(s, fs[i + 1..])
  {
    if fs != [] && !Truthy(s.Get(fs[0])) {
      WordsStart(s, fs[1..]);
      assert "" + Words(s, fs[1..]) == Words(s, fs[1..]);
      if Words(s, fs[1..]) != [] {
        var i :| 0 <= i < |fs[1..]| && Words(s, fs[1..]) == FlagWord(fs[1..][i]) + Words(s, fs[1..][i + 1..]);
        assert fs[1..][i] == fs[i + 1] && fs[1..][i + 1..] == fs[i + 2..];
      }
    }
  }

  predicate Distinct(fs: seq<Field>) {
    forall i, j :: 0 <= i < j < |fs| ==> fs[i] != fs[j]
  }

  /** The truthy flags among `fs`. */
  function ShownAmong(s: Status, fs: seq<Field>): set<Field> {
    set f | f in fs && Truthy(s.Get(f))
  }

  lemma ShownAmongCons(s: Status, fs: seq<Field>)
    requires fs != []
    ensures ShownAmong(s, fs) == (if Truthy(s.Get(fs[0])) then {fs[0]} else {}) + ShownAmong(s, fs[1..])
  {
    assert forall f :: f in fs <==> f == fs[0] || f in fs[1..] by {
      assert fs == [fs[0]] + fs[1..];
    }
  }

  lemma DistinctTail(fs: seq<Field>)
    requires fs != [] && Distinct(fs)
    ensures Distinct(fs[1..]) && fs[0] !in fs[1..]
  {
    var rest := fs[1..];
    forall i, j | 0 <= i < j < |rest| ensures rest[i] != rest[j] {
      assert rest[i] == fs[i + 1] && rest[j] == fs[j + 1];
    }
    forall i | 0 <= i < |rest| ensures rest[i] != fs[0] {
      assert rest[i] == fs[i + 1];
    }
  }

  /** The words of the flags after the first never start with the first flag's word. */
  lemma WordsAfterFirst(s: Status, fs: seq<Field>)
    requires Verified !in fs && fs != [] && Distinct(fs)
    ensures !StartsWith(Words(s, fs[1..]), FlagWord(fs[0]))
  {
    var rest := fs[1..];
    DistinctTail(fs);
    WordsStart(s, rest);
    if Words(s, rest) != [] {
      var i :| 0 <= i < |rest| && Words(s, rest) == FlagWord(rest[i]) + Words(s, rest[i + 1..]);
      WordsDiffer(fs[0], rest[i], Words(s, rest[i + 1..]));
    }
  }

  lemma {:induction false} ReadWordsOfWords(s: Status, fs: seq<Field>)
    requires Verified !in fs && Distinct(fs)
    ensures ReadWords(Words(s, fs), fs) == Some(ShownAmong(s, fs))
  {
    if fs == [] {
      assert ShownAmong(s, fs) == {};
    } else {
      var w := FlagWord(fs[0]);
      var tail := Words(s, fs[1..]);
      DistinctTail(fs);
      ReadWordsOfWords(s, fs[1..]);
      ShownAmongCons(s, fs);
      WordsCons(s, fs);
      if Truthy(s.Get(fs[0])) {
        SkipLiteral(w, tail);
        assert Words(s, fs) == w + tail;
        assert ReadWords(w + tail, fs) == Some({fs[0]} + ShownAmong(s, fs[1..]));
      } else {
        WordsAfterFirst(s, fs);
        assert Words(s, fs) == tail;
        assert ReadWords(tail, fs) == ReadWords(tail, fs[1..]);
        assert ShownAmong(s, fs) == ShownAmong(s, fs[1..]);
      }
    }
  }

  /** The rendering is faithful: reading a status's line back, knowing its name,
      recovers Signed/Unsigned and exactly the truthy flags. */
  lemma RenderReadsBack(s: Status)
    ensures ReadRendering(s.jarname, Render(s)) == Some(Visible(s))
  {
    var tail := Words(s, FlagOrder);
    assert Render(s) == (s.jarname + " ") + (Verdict(s) + tail);
    SkipLiteral(s.jarname + " ", Verdict(s) + tail);
    ReadWordsOfWords(s, FlagOrder);
    if Truthy(s.verified) {
      SkipLiteral("Signed", tail);
    } else {
      SkipLiteral("Unsigned", tail);
      assert ("Unsigned" + tail)[0] == 'U';
    }
  }

  /** An unset verdict renders like a negative one: both print Unsigned. */
  lemma UnsetRendersUnsigned(s: Status)
    requires s.verified == None
    ensures Render(s) == Render(s.(verified := Some(false)))
    ensures Render(s) == s.jarname + " Unsigned" + Words(s, FlagOrder)
  {
    WordsIgnoreVerdict(s, FlagOrder, Some(false));
  }

  /** The flag words do not depend on the verdict. */
  lemma {:induction false} WordsIgnoreVerdict(s: Status, fs: seq<Field>, v: Option<bool>)
    requires Verified !in fs
    ensures Words(s.(verified := v), fs) == Words(s, fs)
  {
    if fs != [] {
      WordsIgnoreVerdict(s, fs[1..], v);
    }
  }
}
