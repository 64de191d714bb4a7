/** `parse_jarsigner_verify` of omero/verify_jars.py: classifying the text that
    `jarsigner -verify` prints, line by line, into a Status. */
module JarsignerParse {
  import opened Wrappers
  import opened PyStr
  import opened JarStatus

  // The diagnostics jarsigner may print, exactly as the source matches them. The
  // long ones are written, as in the source, as concatenations of shorter pieces.
  const JarVerified: string := "jar verified."
  const JarUnsigned: string := "jar is unsigned."
  const WarningLine: string := "Warning:"
  const NoManifestLine: string := "no manifest."
  const ThisJarContains: string := "This jar contains "
  const EntriesWhose: string := "entries whose "
  const UnknownCertPrefix: string :=
    ThisJarContains + EntriesWhose + "certificate chain " + "is not validated."
  const NoTimestampPrefix: string :=
    ThisJarContains + "signatures that does not " + "include a timestamp."
  const ExpireSoonPrefix: string :=
    ThisJarContains + EntriesWhose + "signer certificate will " + "expire within six months."
  const RerunPrefix: string :=
    "Re-run with the -verbose " + "and -certs options for " + "more details."

  /** What one stripped line means to the parser. */
  datatype Diagnostic =
    | Blank                               // skipped
    | Mark(field: Field, value: bool)     // assigns one field
    | Ignored                             // recognised, changes nothing
    | Unrecognised                        // aborts the parse

  /** How a rule compares a line with its pattern: `==` or `startswith`. */
  datatype Matching = Exact | Prefix

  datatype Rule = Rule(pattern: string, how: Matching, effect: Diagnostic)

  /** The diagnostics the parser knows, in the order the source tests them. */
  const Rules: seq<Rule> := [
    Rule(JarVerified, Exact, Mark(Verified, true)),
    Rule(JarUnsigned, Prefix, Mark(Verified, false)),
    Rule(WarningLine, Exact, Mark(Warning, true)),
    Rule(NoManifestLine, Exact, Mark(NoManifest, true)),
    Rule(UnknownCertPrefix, Prefix, Mark(UnknownCert, true)),
    Rule(NoTimestampPrefix, Prefix, Mark(NoTimestamp, true)),
    Rule(ExpireSoonPrefix, Prefix, Mark(ExpireSoon, true)),
    Rule(RerunPrefix, Prefix, Ignored)
  ]

  predicate Matches(r: Rule, line: string) {
    match r.how
    case Exact => line == r.pattern
    case Prefix => StartsWith(line, r.pattern)
  }

  /** The effect of the first of `rules` that matches `line`. */
  function FirstRule(rules: seq<Rule>, line: string): Diagnostic {
    if rules == [] then Unrecognised
    else if Matches(rules[0], line) then rules[0].effect
    else FirstRule(rules[1..], line)
  }

  /** Classifies a stripped line: blank, or the first rule it matches. */
  function Classify(line: string): Diagnostic {
    if line == "" then Blank else FirstRule(Rules, line)
  }

  lemma {:induction false} FirstRuleIs(rules: seq<Rule>, line: string, k: nat)
    requires k < |rules| && Matches(rules[k], line)
    requires forall j :: 0 <= j < k ==> !Matches(rules[j], line)
    ensures FirstRule(rules, line) == rules[k].effect
  {
    if k > 0 {
      assert !Matches(rules[0], line);
      FirstRuleIs(rules[1..], line, k - 1);
    }
  }

  lemma {:induction false} FirstRuleNone(rules: seq<Rule>, line: string)
    requires forall j :: 0 <= j < |rules| ==> !Matches(rules[j], line)
    ensures FirstRule(rules, line) == Unrecognised
  {
    if rules != [] {
      assert !Matches(rules[0], line);
      FirstRuleNone(rules[1..], line);
    }
  }

  lemma MatchedChar(r: Rule, line: string, k: nat)
    requires Matches(r, line) && k < |r.pattern|
    ensures k < |line| && line[k] == r.pattern[k]
  {
    if r.how == Prefix {
      assert line[..|r.pattern|][k] == line[k];
    }
  }

  /** The rule a line can match, told apart by at most three of its characters. */
  function RuleIndex(line: string): nat {
    if |line| <= 32 then
      if line != [] && line[0] == 'j' then (if 4 < |line| && line[4] == 'v' then 0 else 1)
      else if line != [] && line[0] == 'W' then 2
      else if line != [] && line[0] == 'n' then 3
      else 7
    else if line[0] == 'T' then
      if line[18] == 's' then 5 else if line[32] == 'c' then 4 else 6
    else if line[0] == 'j' then (if line[4] == 'v' then 0 else 1)
    else if line[0] == 'R' then 7
    else 8
  }

  lemma MatchIdentifiesRule(line: string, i: nat)
    requires i < |Rules| && Matches(Rules[i], line)
    ensures RuleIndex(line) == i
  {
    var r := Rules[i];
    MatchedChar(r, line, 0);
    if i == 0 {
      MatchedChar(r, line, 4);
    } else if i == 1 {
      MatchedChar(r, line, 4);
    } else if i == 2 {
    } else if i == 3 {
    } else if i == 4 {
      MatchedChar(r, line, 18);
      MatchedChar(r, line, 32);
    } else if i == 5 {
      MatchedChar(r, line, 18);
      MatchedChar(r, line, 32);
    } else if i == 6 {
      MatchedChar(r, line, 18);
      MatchedChar(r, line, 32);
    } else {
      MatchedChar(r, line, 32);
    }
  }

  /** No line matches two rules, so the order in which the source tries them
      does not matter. */
  lemma RulesExclusive(line: string, i: nat, j: nat)
    requires i < |Rules| && j < |Rules|
    requires Matches(Rules[i], line) && Matches(Rules[j], line)
    ensures i == j
  {
    MatchIdentifiesRule(line, i);
    MatchIdentifiesRule(line, j);
  }

  /** A line matching a rule is classified by that rule, wherever it stands in the table. */
  lemma ClassifyByRule(line: string, k: nat)
    requires k < |Rules| && Matches(Rules[k], line)
    ensures Classify(line) == Rules[k].effect
  {
    MatchedChar(Rules[k], line, 0);
    forall j | 0 <= j < k ensures !Matches(Rules[j], line) {
      if Matches(Rules[j], line) {
        RulesExclusive(line, j, k);
      }
    }
    FirstRuleIs(Rules, line, k);
  }

  /** The table, tried in order, is the source's chain of tests. */
  lemma ClassifyInSourceOrder(line: string)
    ensures Classify(line) ==
      if line == "" then Blank
      else if line == JarVerified then Mark(Verified, true)
      else if StartsWith(line, JarUnsigned) then Mark(Verified, false)
      else if line == WarningLine then Mark(Warning, true)
      else if line == NoManifestLine then Mark(NoManifest, true)
      else if StartsWith(line, UnknownCertPrefix) then Mark(UnknownCert, true)
      else if StartsWith(line, NoTimestampPrefix) then Mark(NoTimestamp, true)
      else if StartsWith(line, ExpireSoonPrefix) then Mark(ExpireSoon, true)
      else if StartsWith(line, RerunPrefix) then Ignored
      else Unrecognised
  {
    if line != "" {
      assert Rules[8..] == [];
      FirstRuleFrom(Rules, line, 7);
      FirstRuleFrom(Rules, line, 6);
      FirstRuleFrom(Rules, line, 5);
      FirstRuleFrom(Rules, line, 4);
      FirstRuleFrom(Rules, line, 3);
      FirstRuleFrom(Rules, line, 2);
      FirstRuleFrom(Rules, line, 1);
      FirstRuleFrom(Rules, line, 0);
      assert Rules[0..] == Rules;
    }
  }

  lemma FirstRuleFrom(rules: seq<Rule>, line: string, k: nat)
    requires k < |rules|
    ensures FirstRule(rules[k..], line) ==
      if Matches(rules[k], line) then rules[k].effect else FirstRule(rules[k + 1..], line)
  {
    assert rules[k..][0] == rules[k] && rules[k..][1..] == rules[k + 1..];
  }

  predicate NoRuleMatches(line: string) {
    forall j :: 0 <= j < |Rules| ==> !Matches(Rules[j], line)
  }

  /** A line is unrecognised exactly when it is not blank and matches no rule. */
  lemma UnrecognisedIffNoRule(line: string)
    ensures Classify(line) == Unrecognised <==> line != "" && NoRuleMatches(line)
  {
    if line != "" && NoRuleMatches(line) {
      FirstRuleNone(Rules, line);
    } else if line != "" {
      var k :| 0 <= k < |Rules| && Matches(Rules[k], line);
      ClassifyByRule(line, k);
      assert Rules[k].effect != Unrecognised;
    }
  }

  // The parse itself.

  /** Why the loop stops early: an assignment to a field that is already set
      (the source's `assert s.<field> is None`), or a line no test matches. */
  datatype Fault = DuplicateField(field: Field) | UnrecognisedLine

  /** What a raw output line means once stripped. */
  function Effect(line: string): Diagnostic {
    Classify(Strip(line))
  }

  /** The meaning of every line, in order. */
  function Effects(lines: seq<string>): seq<Diagnostic> {
    seq(|lines|, i requires 0 <= i < |lines| => Effect(lines[i]))
  }

  /** What one classified line does to the status: one turn of the source's loop. */
  function Apply(s: Status, d: Diagnostic): Result<Status, Fault> {
    match d
    case Blank => Success(s)
    case Ignored => Success(s)
    case Unrecognised => Failure(UnrecognisedLine)
    case Mark(f, v) => if s.Get(f) == None then Success(s.Set(f, v)) else Failure(DuplicateField(f))
  }

  /** The loop over the remaining classified lines, from status `s`. */
  function Run(s: Status, ds: seq<Diagnostic>): Result<Status, Fault>
    decreases |ds|
  {
    if ds == [] then Success(s)
    else
      var t :- Apply(s, ds[0]);
      Run(t, ds[1..])
  }

  /** How a parse fails: `Stop(2, 'Unexpected output: for <jarname> <lines>')`, or
      the AssertionError of a field assigned twice. */
  datatype ParseError = Unexpected(jarname: string, lines: seq<string>) | Duplicate(field: Field)

  /** The whole of `parse_jarsigner_verify(jarname, out)`. */
  function Parse(jarname: string, out: string): Result<Status, ParseError> {
    var lines := Split(out, '\n');
    match Run(NewStatus(jarname), Effects(lines))
    case Success(s) => Success(s)
    case Failure(UnrecognisedLine) => Failure(Unexpected(jarname, lines))
    case Failure(DuplicateField(f)) => Failure(Duplicate(f))
  }

  /** One more turn of the loop at position `k`. */
  lemma RunAt(s: Status, ds: seq<Diagnostic>, k: nat)
    requires k < |ds|
    ensures Run(s, ds[k..]) ==
      match Apply(s, ds[k])
      case Success(t) => Run(t, ds[k + 1..])
      case Failure(e) => Failure(e)
  {
    assert ds[k..][0] == ds[k] && ds[k..][1..] == ds[k + 1..];
  }

  /** Where the loop stops on a fault, the whole parse fails with that fault. */
  lemma ParseStopsWith(jarname: string, out: string, s: Status, k: nat, e: Fault)
    requires k < |Split(out, '\n')|
    requires Run(s, Effects(Split(out, '\n'))[k..]) == Run(NewStatus(jarname), Effects(Split(out, '\n')))
    requires Apply(s, Effect(Split(out, '\n')[k])) == Failure(e)
    ensures Parse(jarname, out) ==
      match e
      case UnrecognisedLine => Failure(Unexpected(jarname, Split(out, '\n')))
      case DuplicateField(f) => Failure(Duplicate(f))
  {
    RunAt(s, Effects(Split(out, '\n')), k);
  }

  /** The body of the source's loop for one raw line: strip it, test it against
      each diagnostic in turn, and assign the field it names after checking that
      the field is still unset. */
  method HandleLine(s: Status, raw: string) returns (r: Result<Status, Fault>)
    ensures r == Apply(s, Effect(raw))
  {
    var line := Strip(raw);
    ClassifyInSourceOrder(line);
    if line == "" {
      return Success(s);
    } else if line == JarVerified {
      if s.verified != None {
        return Failure(DuplicateField(Verified));
      }
      return Success(s.(verified := Some(true)));
    } else if StartsWith(line, JarUnsigned) {
      if s.verified != None {
        return Failure(DuplicateField(Verified));
      }
      return Success(s.(verified := Some(false)));
    } else if line == WarningLine {
      if s.warning != None {
        return Failure(DuplicateField(Warning));
      }
      return Success(s.(warning := Some(true)));
    } else if line == NoManifestLine {
      if s.nomanifest != None {
        return Failure(DuplicateField(NoManifest));
      }
      return Success(s.(nomanifest := Some(true)));
    } else if StartsWith(line, UnknownCertPrefix) {
      if s.unknowncert != None {
        return Failure(DuplicateField(UnknownCert));
      }
      return Success(s.(unknowncert := Some(true)));
    } else if StartsWith(line, NoTimestampPrefix) {
      if s.notimestamp != None {
        return Failure(DuplicateField(NoTimestamp));
      }
      return Success(s.(notimestamp := Some(true)));
    } else if StartsWith(line, ExpireSoonPrefix) {
      if s.expiresoon != None {
        return Failure(DuplicateField(ExpireSoon));
      }
      return Success(s.(expiresoon := Some(true)));
    } else if StartsWith(line, RerunPrefix) {
      return Success(s);
    } else {
      return Failure(UnrecognisedLine);
    }
  }

  /** `parse_jarsigner_verify`, as the source runs it: a loop over the lines of
      the output that leaves early on the first fault. */
  method ParseJarsignerVerify(jarname: string, out: string) returns (r: Result<Status, ParseError>)
    ensures r == Parse(jarname, out)
  {
    var s := NewStatus(jarname);
    var lines := Split(out, '\n');
    ghost var ds := Effects(lines);
    for k := 0 to |lines|
      invariant Run(s, ds[k..]) == Run(NewStatus(jarname), ds)
    {
      RunAt(s, ds, k);
      var t := HandleLine(s, lines[k]);
      match t
      case Failure(e) =>
        ParseStopsWith(jarname, out, s, k, e);
        match e {
          case DuplicateField(f) => return Failure(Duplicate(f));
          case UnrecognisedLine => return Failure(Unexpected(jarname, lines));
        }
      case Success(next) =>
        s := next;
    }
    return Success(s);
  }
}
