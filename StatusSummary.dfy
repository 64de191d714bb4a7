/** `summarise_statuses` of omero/verify_jars.py: counting the truthy flags over
    all jars and formatting the one-line summary. */
module StatusSummary {
  import opened Wrappers
  import opened PyStr
  import opened JarStatus

  /** How many of `ss` have field `f` truthy, counted from the front as the
      source's loop does. */
  function Count(ss: seq<Status>, f: Field): (n: nat)
    ensures n <= |ss|
  {
    if ss == [] then 0
    else Count(ss[..|ss| - 1], f) + (if Truthy(ss[|ss| - 1].Get(f)) then 1 else 0)
  }

  /** The seven numbers of the summary line. */
  datatype Counts = Counts(
    signed: nat,
    total: nat,
    warning: nat,
    unknowncert: nat,
    notimestamp: nat,
    nomanifest: nat,
    expiresoon: nat)

  /** The counts for a list of statuses: `total` is its length, and every other
      counter is at most the total. */
  function Tally(ss: seq<Status>): (c: Counts)
    ensures c.total == |ss|
    ensures c.signed <= c.total && c.warning <= c.total && c.unknowncert <= c.total
    ensures c.notimestamp <= c.total && c.nomanifest <= c.total && c.expiresoon <= c.total
  {
    Counts(Count(ss, Verified), |ss|, Count(ss, Warning), Count(ss, UnknownCert),
           Count(ss, NoTimestamp), Count(ss, NoManifest), Count(ss, ExpireSoon))
  }

  /** The source's format string, '%d/%d signed %d warn %d unknown-cert %d
      not-timestamped %d no-manifest %d expire-soon', applied to `c`. */
  function SummaryLine(c: Counts): string {
    Decimal(c.signed) + ("/" +
    (Decimal(c.total) + (" signed " +
    (Decimal(c.warning) + (" warn " +
    (Decimal(c.unknowncert) + (" unknown-cert " +
    (Decimal(c.notimestamp) + (" not-timestamped " +
    (Decimal(c.nomanifest) + (" no-manifest " +
    (Decimal(c.expiresoon) + " expire-soon"))))))))))))
  }

  /** `summarise_statuses`: six counters incremented in one pass, then formatted. */
  method SummariseStatuses(statuses: seq<Status>) returns (r: string)
    ensures r == SummaryLine(Tally(statuses))
  {
    var signed, warning, unknowncert, notimestamp, nomanifest, expiresoon := 0, 0, 0, 0, 0, 0;
    var total := |statuses|;
    for i := 0 to |statuses|
      invariant signed == Count(statuses[..i], Verified)
      invariant warning == Count(statuses[..i], Warning)
      invariant unknowncert == Count(statuses[..i], UnknownCert)
      invariant notimestamp == Count(statuses[..i], NoTimestamp)
      invariant nomanifest == Count(statuses[..i], NoManifest)
      invariant expiresoon == Count(statuses[..i], ExpireSoon)
    {
      var s := statuses[i];
      assert statuses[..i + 1][..i] == statuses[..i] && statuses[..i + 1][i] == s;
      if Truthy(s.verified) {
        signed := signed + 1;
      }
      if Truthy(s.warning) {
        warning := warning + 1;
      }
      if Truthy(s.unknowncert) {
        unknowncert := unknowncert + 1;
      }
      if Truthy(s.notimestamp) {
        notimestamp := notimestamp + 1;
      }
      if Truthy(s.nomanifest) {
        nomanifest := nomanifest + 1;
      }
      if Truthy(s.expiresoon) {
        expiresoon := expiresoon + 1;
      }
    }
    assert statuses[..|statuses|] == statuses;
    r := SummaryLine(Counts(signed, total, warning, unknowncert, notimestamp, nomanifest, expiresoon));
  }

  // What a counter means, independently of the loop.

  /** The positions of `ss` whose field `f` is truthy. */
  function Holders(ss: seq<Status>, f: Field): set<nat> {
    set i: nat | i < |ss| && Truthy(ss[i].Get(f))
  }

  /** Each counter is the number of statuses whose field is True. */
  lemma {:induction false} CountIsNumberOfHolders(ss: seq<Status>, f: Field)
    ensures Count(ss, f) == |Holders(ss, f)|
  {
    if ss != [] {
      var n := |ss| - 1;
      var front := ss[..n];
      CountIsNumberOfHolders(front, f);
      if Truthy(ss[n].Get(f)) {
        assert Holders(ss, f) == Holders(front, f) + {n};
        assert n !in Holders(front, f);
      } else {
        assert Holders(ss, f) == Holders(front, f);
      }
    }
  }

  lemma {:induction false} CountAppend(xs: seq<Status>, ys: seq<Status>, f: Field)
    decreases |ys|
    ensures Count(xs + ys, f) == Count(xs, f) + Count(ys, f)
  {
    if ys == [] {
      assert xs + ys == xs;
    } else {
      var n := |ys| - 1;
      assert (xs + ys)[..|xs + ys| - 1] == xs + ys[..n];
      assert (xs + ys)[|xs + ys| - 1] == ys[n];
      CountAppend(xs, ys[..n], f);
    }
  }

  lemma CountOne(s: Status, f: Field)
    ensures Count([s], f) == if Truthy(s.Get(f)) then 1 else 0
  {
    assert [s][..0] == [];
  }

  /** The counters do not depend on the order of the statuses. */
  lemma {:induction false} CountPermutation(ss: seq<Status>, tt: seq<Status>, f: Field)
    decreases |ss|
    requires multiset(ss) == multiset(tt)
    ensures Count(ss, f) == Count(tt, f)
  {
    if ss != [] {
      var n := |ss| - 1;
      var x := ss[n];
      assert ss == ss[..n] + [x];
      assert x in multiset(tt);
      var i :| 0 <= i < |tt| && tt[i] == x;
      var rest := tt[..i] + tt[i + 1..];
      assert tt == tt[..i] + [x] + tt[i + 1..];
      assert multiset(tt) == multiset(tt[..i]) + multiset{x} + multiset(tt[i + 1..]);
      assert multiset(ss) == multiset(ss[..n]) + multiset{x};
      assert multiset(rest) == multiset(tt[..i]) + multiset(tt[i + 1..]);
      assert multiset(ss[..n]) == multiset(ss) - multiset{x};
      assert multiset(rest) == multiset(tt) - multiset{x};
      CountPermutation(ss[..n], rest, f);
      CountAppend(ss[..n], [x], f);
      CountAppend(tt[..i] + [x], tt[i + 1..], f);
      CountAppend(tt[..i], [x], f);
      CountAppend(tt[..i], tt[i + 1..], f);
      CountOne(x, f);
    }
  }

  /** The summary does not depend on the order in which the jars were found. */
  lemma SummaryOrderIndependent(ss: seq<Status>, tt: seq<Status>)
    requires multiset(ss) == multiset(tt)
    ensures Tally(ss) == Tally(tt)
    ensures SummaryLine(Tally(ss)) == SummaryLine(Tally(tt))
  {
    assert |ss| == |multiset(ss)| == |multiset(tt)| == |tt|;
    CountPermutation(ss, tt, Verified);
    CountPermutation(ss, tt, Warning);
    CountPermutation(ss, tt, UnknownCert);
    CountPermutation(ss, tt, NoTimestamp);
    CountPermutation(ss, tt, NoManifest);
    CountPermutation(ss, tt, ExpireSoon);
  }

  // Reading a summary line back.

  /** Reads a number followed by the literal `lit`. */
  function ReadField(text: string, lit: string): Option<Reading> {
    var n :- ReadNat(text);
    var rest :- Skip(n.rest, lit);
    Some(Reading(n.value, rest))
  }

  /** Reads a line of the summary's format back into its seven numbers. */
  function ReadSummary(text: string): Option<Counts> {
    var a :- ReadField(text, "/");
    var b :- ReadField(a.rest, " signed ");
    var c :- ReadField(b.rest, " warn ");
    var d :- ReadField(c.rest, " unknown-cert ");
    var e :- ReadField(d.rest, " not-timestamped ");
    var f :- ReadField(e.rest, " no-manifest ");
    var g :- ReadField(f.rest, " expire-soon");
    if g.rest == "" then Some(Counts(a.value, b.value, c.value, d.value, e.value, f.value, g.value))
    else None
  }

  lemma ReadFieldOf(n: nat, lit: string, t: string)
    requires lit != [] && !IsDigit(lit[0])
    ensures ReadField(Decimal(n) + (lit + t), lit) == Some(Reading(n, t))
  {
    ReadDecimal(n, lit + t);
    SkipLiteral(lit, t);
  }

  /** The summary line is unambiguous: reading it back gives the seven numbers. */
  lemma SummaryReadsBack(c: Counts)
    ensures ReadSummary(SummaryLine(c)) == Some(c)
  {
    var t6 := "";
    var t5 := Decimal(c.expiresoon) + (" expire-soon" + t6);
    var t4 := Decimal(c.nomanifest) + (" no-manifest " + t5);
    var t3 := Decimal(c.notimestamp) + (" not-timestamped " + t4);
    var t2 := Decimal(c.unknowncert) + (" unknown-cert " + t3);
    var t1 := Decimal(c.warning) + (" warn " + t2);
    var t0 := Decimal(c.total) + (" signed " + t1);
    assert " expire-soon" + t6 == " expire-soon";
    assert SummaryLine(c) == Decimal(c.signed) + ("/" + t0);
    ReadFieldOf(c.signed, "/", t0);
    ReadFieldOf(c.total, " signed ", t1);
    ReadFieldOf(c.warning, " warn ", t2);
    ReadFieldOf(c.unknowncert, " unknown-cert ", t3);
    ReadFieldOf(c.notimestamp, " not-timestamped ", t4);
    ReadFieldOf(c.nomanifest, " no-manifest ", t5);
    ReadFieldOf(c.expiresoon, " expire-soon", t6);
  }

  /** Different counts never give the same summary line. */
  lemma SummaryLineInjective(c: Counts, d: Counts)
    requires SummaryLine(c) == SummaryLine(d)
    ensures c == d
  {
    SummaryReadsBack(c);
    SummaryReadsBack(d);
  }

  function Hit(s: Status, f: Field): nat {
    if Truthy(s.Get(f)) then 1 else 0
  }

  lemma CountFive(ss: seq<Status>, f: Field)
    requires |ss| == 5
    ensures Count(ss, f) == Hit(ss[0], f) + Hit(ss[1], f) + Hit(ss[2], f) + Hit(ss[3], f) + Hit(ss[4], f)
  {
    assert ss[..4][..3] == ss[..3] && ss[..3][..2] == ss[..2] && ss[..2][..1] == ss[..1] && ss[..1][..0] == [];
    assert Count(ss[..1], f) == Hit(ss[0], f);
    assert Count(ss[..2], f) == Count(ss[..1], f) + Hit(ss[1], f);
    assert Count(ss[..3], f) == Count(ss[..2], f) + Hit(ss[2], f);
    assert Count(ss[..4], f) == Count(ss[..3], f) + Hit(ss[3], f);
    assert Count(ss, f) == Count(ss[..4], f) + Hit(ss[4], f);
  }

  /** Five jars: two verified and clean, one unsigned, one verified with a
      warning, one verified with an unknown certificate chain. */
  lemma FiveJarSummary(ss: seq<Status>)
    requires |ss| == 5
    requires ss[0] == NewStatus("a.jar").Set(Verified, true)
    requires ss[1] == NewStatus("b.jar").Set(Verified, true)
    requires ss[2] == NewStatus("c.jar").Set(Verified, false)
    requires ss[3] == NewStatus("d.jar").Set(Verified, true).Set(Warning, true)
    requires ss[4] == NewStatus("e.jar").Set(Verified, true).Set(UnknownCert, true)
    ensures Tally(ss) == Counts(4, 5, 1, 1, 0, 0, 0)
    ensures SummaryLine(Tally(ss)) ==
      "4" + ("/" + ("5" + (" signed " + ("1" + (" warn " + ("1" + (" unknown-cert " +
      ("0" + (" not-timestamped " + ("0" + (" no-manifest " + ("0" + " expire-soon"))))))))))))
  {
    CountFive(ss, Verified);
    CountFive(ss, Warning);
    CountFive(ss, UnknownCert);
    CountFive(ss, NoTimestamp);
    CountFive(ss, NoManifest);
    CountFive(ss, ExpireSoon);
    FiveJarLine();
  }

  lemma FiveJarLine()
    ensures SummaryLine(Counts(4, 5, 1, 1, 0, 0, 0)) ==
      "4" + ("/" + ("5" + (" signed " + ("1" + (" warn " + ("1" + (" unknown-cert " +
      ("0" + (" not-timestamped " + ("0" + (" no-manifest " + ("0" + " expire-soon"))))))))))))
  {
    assert Decimal(0) == "0" && Decimal(1) == "1" && Decimal(4) == "4" && Decimal(5) == "5";
  }
}
