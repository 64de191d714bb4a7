/** What `parse_jarsigner_verify` accepts and what it returns, stated without
    its loop: a parse succeeds exactly when every line is recognised and no field
    is named twice, and then each field holds the value of the line naming it. */
module ParseFacts {
  import opened Wrappers
  import opened PyStr
  import opened JarStatus
  import opened JarsignerParse

  /** The field a classified line assigns, if any. */
  function Target(d: Diagnostic): Option<Field> {
    match d
    case Mark(f, _) => Some(f)
    case _ => None
  }

  predicate AllRecognised(ds: seq<Diagnostic>) {
    forall i :: 0 <= i < |ds| ==> ds[i] != Unrecognised
  }

  /** How many of the lines assign `f`. */
  function Mentions(ds: seq<Diagnostic>, f: Field): nat {
    if ds == [] then 0
    else (if Target(ds[0]) == Some(f) then 1 else 0) + Mentions(ds[1..], f)
  }

  /** The value the first line assigning `f` gives it, if there is one. */
  function Marked(ds: seq<Diagnostic>, f: Field): Option<bool> {
    if ds == [] then None
    else
      match ds[0]
      case Mark(g, v) => if g == f then Some(v) else Marked(ds[1..], f)
      case _ => Marked(ds[1..], f)
  }

  /** Starting from `s`, no field is assigned more often than it may be: once if
      it is unset, never if it is set. */
  predicate Fits(s: Status, ds: seq<Diagnostic>) {
    forall f :: Mentions(ds, f) <= (if s.Get(f) == None then 1 else 0)
  }

  /** No field is assigned by two lines. */
  predicate NoFieldTwice(ds: seq<Diagnostic>) {
    forall f :: Mentions(ds, f) <= 1
  }

  /** How a set field's count of assignments grows: the status's own value counts as one. */
  function Uses(s: Status, ds: seq<Diagnostic>, f: Field): nat {
    Mentions(ds, f) + (if s.Get(f) == None then 0 else 1)
  }

  lemma {:induction false} UnmentionedUnmarked(ds: seq<Diagnostic>, f: Field)
    requires Mentions(ds, f) == 0
    ensures Marked(ds, f) == None
  {
    if ds != [] {
      UnmentionedUnmarked(ds[1..], f);
    }
  }

  lemma AllRecognisedCons(ds: seq<Diagnostic>)
    requires ds != []
    ensures AllRecognised(ds) <==> ds[0] != Unrecognised && AllRecognised(ds[1..])
  {
    if ds[0] != Unrecognised && AllRecognised(ds[1..]) {
      forall i | 0 <= i < |ds| ensures ds[i] != Unrecognised {
        if i > 0 {
          assert ds[i] == ds[1..][i - 1];
        }
      }
    }
  }

  /** The loop runs to the end exactly when every line is recognised and no
      field is assigned twice (counting a field already set in `s`). */
  lemma {:induction false} RunSucceeds(s: Status, ds: seq<Diagnostic>)
    decreases |ds|
    ensures Run(s, ds).Success? <==> AllRecognised(ds) && Fits(s, ds)
  {
    if ds != [] {
      var rest := ds[1..];
      AllRecognisedCons(ds);
      match ds[0]
      case Blank =>
        RunSucceeds(s, rest);
      case Ignored =>
        RunSucceeds(s, rest);
      case Unrecognised =>
      case Mark(g, v) =>
        if s.Get(g) == None {
          var t := s.Set(g, v);
          RunSucceeds(t, rest);
          assert Fits(s, ds) <==> Fits(t, rest) by {
            if Fits(t, rest) {
              forall f ensures Mentions(ds, f) <= (if s.Get(f) == None then 1 else 0) {
                assert Mentions(rest, f) <= (if t.Get(f) == None then 1 else 0);
              }
            }
            if Fits(s, ds) {
              forall f ensures Mentions(rest, f) <= (if t.Get(f) == None then 1 else 0) {
                assert Mentions(ds, f) <= (if s.Get(f) == None then 1 else 0);
              }
            }
          }
        } else {
          assert Mentions(ds, g) >= 1;
        }
    }
  }

  /** When the loop runs to the end, the name is kept, each field named by a
      line holds that line's value, and every other field keeps its value. */
  lemma {:induction false} RunValue(s: Status, ds: seq<Diagnostic>)
    decreases |ds|
    requires Run(s, ds).Success?
    ensures Run(s, ds).value.jarname == s.jarname
    ensures forall f :: Run(s, ds).value.Get(f) == (if Marked(ds, f).Some? then Marked(ds, f) else s.Get(f))
  {
    if ds != [] {
      var rest := ds[1..];
      match ds[0]
      case Blank =>
        RunValue(s, rest);
      case Ignored =>
        RunValue(s, rest);
      case Mark(g, v) =>
        var t := s.Set(g, v);
        RunValue(t, rest);
        RunSucceeds(t, rest);
        assert Mentions(rest, g) == 0;
        UnmentionedUnmarked(rest, g);
    }
  }

  /** Why the loop stops early: an unrecognised line is there, or the field it
      reports is assigned twice (counting a value it already had). */
  lemma {:induction false} RunFails(s: Status, ds: seq<Diagnostic>)
    decreases |ds|
    ensures Run(s, ds) == Failure(UnrecognisedLine) ==> !AllRecognised(ds)
    ensures forall f :: Run(s, ds) == Failure(DuplicateField(f)) ==> Uses(s, ds, f) >= 2
  {
    if ds != [] {
      var rest := ds[1..];
      AllRecognisedCons(ds);
      match ds[0]
      case Blank =>
        RunFails(s, rest);
      case Ignored =>
        RunFails(s, rest);
      case Unrecognised =>
      case Mark(g, v) =>
        if s.Get(g) == None {
          var t := s.Set(g, v);
          RunFails(t, rest);
          forall f | Run(s, ds) == Failure(DuplicateField(f)) ensures Uses(s, ds, f) >= 2 {
            assert Uses(t, rest, f) >= 2;
          }
        }
    }
  }

  /** Running over two stretches of lines is running over the first, then the second. */
  lemma {:induction false} RunAppend(s: Status, xs: seq<Diagnostic>, ys: seq<Diagnostic>)
    decreases |xs|
    ensures Run(s, xs + ys) ==
      match Run(s, xs)
      case Success(t) => Run(t, ys)
      case Failure(e) => Failure(e)
  {
    if xs == [] {
      assert xs + ys == ys;
    } else {
      assert (xs + ys)[0] == xs[0] && (xs + ys)[1..] == xs[1..] + ys;
      match Apply(s, xs[0])
      case Success(t) => RunAppend(t, xs[1..], ys);
      case Failure(e) =>
    }
  }

  lemma EffectsAppend(xs: seq<string>, ys: seq<string>)
    ensures Effects(xs + ys) == Effects(xs) + Effects(ys)
  {
  }

  // Properties of single lines.

  /** A line that is blank once stripped, or that starts with the Re-run hint,
      changes neither the returned Status nor the fault the loop stops with,
      wherever it stands. */
  lemma InertLine(s: Status, xs: seq<string>, line: string, ys: seq<string>)
    requires AllSpace(line) || StartsWith(Strip(line), RerunPrefix)
    ensures Run(s, Effects(xs + [line] + ys)) == Run(s, Effects(xs + ys))
  {
    if AllSpace(line) {
      StripEmptyIff(line);
    } else {
      ClassifyByRule(Strip(line), 7);
    }
    assert Effect(line) == Blank || Effect(line) == Ignored;
    assert Effects([line]) == [Effect(line)];
    EffectsAppend(xs + [line], ys);
    EffectsAppend(xs, [line]);
    EffectsAppend(xs, ys);
    RunAppend(s, Effects(xs) + [Effect(line)], Effects(ys));
    RunAppend(s, Effects(xs), [Effect(line)]);
    RunAppend(s, Effects(xs), Effects(ys));
    match Run(s, Effects(xs))
    case Success(t) =>
      assert [Effect(line)][1..] == [];
    case Failure(e) =>
  }

  /** Whitespace around a diagnostic does not change what it means. */
  lemma SurroundingSpaceIgnored(p: string, m: string, q: string)
    requires AllSpace(p) && AllSpace(q) && Trimmed(m)
    ensures Effect(p + m + q) == Effect(m) == Classify(m)
  {
    StripOf(p, m, q);
    StripOf([], m, []);
    assert [] + m + [] == m;
  }

  /** A diagnostic line sets exactly its own field to the rule's value and
      leaves the name and every other field as they were; if its field is
      already set, the parse stops with a duplicate. */
  lemma DiagnosticSetsItsField(s: Status, line: string, k: nat)
    requires k < 7 && Matches(Rules[k], Strip(line))
    ensures Rules[k].effect.Mark?
    ensures var f, v := Rules[k].effect.field, Rules[k].effect.value;
      if s.Get(f) == None then
        Apply(s, Effect(line)).Success? &&
        Apply(s, Effect(line)).value.jarname == s.jarname &&
        Apply(s, Effect(line)).value.Get(f) == Some(v) &&
        forall g :: g != f ==> Apply(s, Effect(line)).value.Get(g) == s.Get(g)
      else
        Apply(s, Effect(line)) == Failure(DuplicateField(f))
  {
    ClassifyByRule(Strip(line), k);
  }

  /** A raw line that strips to `jar verified.` sets the verdict to True, and one
      whose stripped text starts with `jar is unsigned.` (whatever follows, such
      as an explanation in parentheses) sets it to False: the same field. */
  lemma VerdictLines(line: string)
    ensures Strip(line) == JarVerified ==> Effect(line) == Mark(Verified, true)
    ensures StartsWith(Strip(line), JarUnsigned) ==> Effect(line) == Mark(Verified, false)
  {
    if Strip(line) == JarVerified {
      ClassifyByRule(Strip(line), 0);
    }
    if StartsWith(Strip(line), JarUnsigned) {
      ClassifyByRule(Strip(line), 1);
    }
  }

  // The same, for the whole parse of an output text.

  /** `parse_jarsigner_verify(jarname, out)` returns a Status exactly when every
      line of `out` is recognised and no field is named by two lines. */
  lemma ParseSucceedsIff(jarname: string, out: string)
    ensures Parse(jarname, out).Success? <==>
      AllRecognised(Effects(Split(out, '\n'))) && NoFieldTwice(Effects(Split(out, '\n')))
  {
    var ds := Effects(Split(out, '\n'));
    RunSucceeds(NewStatus(jarname), ds);
    assert Parse(jarname, out).Success? <==> Run(NewStatus(jarname), ds).Success?;
    if NoFieldTwice(ds) {
      assert Fits(NewStatus(jarname), ds);
    }
    if Fits(NewStatus(jarname), ds) {
      forall f ensures Mentions(ds, f) <= 1 {
        assert Mentions(ds, f) <= (if NewStatus(jarname).Get(f) == None then 1 else 0);
      }
    }
  }

  /** The Status returned holds the name, and for each field the value of the
      line naming it, or `None` when no line does. */
  lemma ParseResult(jarname: string, out: string)
    requires Parse(jarname, out).Success?
    ensures Parse(jarname, out).value.jarname == jarname
    ensures forall f :: Parse(jarname, out).value.Get(f) == Marked(Effects(Split(out, '\n')), f)
  {
    RunValue(NewStatus(jarname), Effects(Split(out, '\n')));
  }

  /** An `Unexpected output` error carries the name and all the lines, and some
      line is unrecognised; a duplicate names a field that two lines assign. */
  lemma ParseFailures(jarname: string, out: string)
    ensures Parse(jarname, out).Failure? && Parse(jarname, out).error.Unexpected? ==>
      Parse(jarname, out).error == Unexpected(jarname, Split(out, '\n')) &&
      !AllRecognised(Effects(Split(out, '\n')))
    ensures Parse(jarname, out).Failure? && Parse(jarname, out).error.Duplicate? ==>
      Mentions(Effects(Split(out, '\n')), Parse(jarname, out).error.field) >= 2
  {
    RunFails(NewStatus(jarname), Effects(Split(out, '\n')));
  }

  /** Output that reports both verdicts is rejected; when every line of it is
      recognised, the rejection is a duplicate assignment. */
  lemma BothVerdictsRejected(jarname: string, out: string)
    requires var ds := Effects(Split(out, '\n'));
      exists i, j :: 0 <= i < j < |ds| && Target(ds[i]) == Some(Verified) && Target(ds[j]) == Some(Verified)
    ensures Parse(jarname, out).Failure?
    ensures AllRecognised(Effects(Split(out, '\n'))) ==> Parse(jarname, out).error.Duplicate?
  {
    var ds := Effects(Split(out, '\n'));
    var i, j :| 0 <= i < j < |ds| && Target(ds[i]) == Some(Verified) && Target(ds[j]) == Some(Verified);
    MentionsTwo(ds, Verified, i, j);
    ParseSucceedsIff(jarname, out);
    ParseFailures(jarname, out);
  }

  lemma {:induction false} MentionsTwo(ds: seq<Diagnostic>, f: Field, i: nat, j: nat)
    decreases |ds|
    requires i < j < |ds| && Target(ds[i]) == Some(f) && Target(ds[j]) == Some(f)
    ensures Mentions(ds, f) >= 2
  {
    if i == 0 {
      MentionsOne(ds[1..], f, j - 1);
    } else {
      MentionsTwo(ds[1..], f, i - 1, j - 1);
    }
  }

  lemma {:induction false} MentionsOne(ds: seq<Diagnostic>, f: Field, j: nat)
    decreases |ds|
    requires j < |ds| && Target(ds[j]) == Some(f)
    ensures Mentions(ds, f) >= 1
  {
    if j > 0 {
      MentionsOne(ds[1..], f, j - 1);
    }
  }

  /** Output made of one diagnostic line and the final newline parses to a
      fresh Status with just that diagnostic's field set. */
  lemma ParseSingleDiagnostic(jarname: string, line: string, f: Field, v: bool)
    requires '\n' !in line && Effect(line) == Mark(f, v)
    ensures Parse(jarname, line + "\n") == Success(NewStatus(jarname).Set(f, v))
  {
    SplitJoin([line, ""], '\n');
    assert Join([line, ""], '\n') == line + "\n";
    StripEmptyIff("");
    var ds := Effects([line, ""]);
    assert ds == [Mark(f, v), Blank];
    assert ds[1..] == [Blank] && ds[1..][1..] == [];
    assert Run(NewStatus(jarname), ds) == Run(NewStatus(jarname).Set(f, v), [Blank]);
  }

  // Worked examples.

  lemma TrimmedLiteral(m: string)
    requires m != [] && !IsSpace(m[0]) && !IsSpace(m[|m| - 1])
    ensures Effect(m) == Classify(m)
  {
    SurroundingSpaceIgnored([], m, []);
    assert [] + m + [] == m;
  }

  /** A jar jarsigner reports as verified renders as `<name> Signed`. */
  lemma VerifiedJarRendersSigned(jarname: string, out: string)
    requires out == JarVerified + "\n"
    ensures Parse(jarname, out) == Success(NewStatus(jarname).Set(Verified, true))
    ensures Render(Parse(jarname, out).value) == jarname + " Signed"
  {
    VerifiedLine();
    ParseSingleDiagnostic(jarname, JarVerified, Verified, true);
    VerdictOnlyRender(jarname, true);
  }

  lemma VerdictOnlyRender(jarname: string, v: bool)
    ensures Render(NewStatus(jarname).Set(Verified, v)) == jarname + (if v then " Signed" else " Unsigned")
  {
    var t := NewStatus(jarname).Set(Verified, v);
    RenderUnflagged(t);
    if v {
      AppendAssoc(jarname, " ", "Signed");
    } else {
      AppendAssoc(jarname, " ", "Unsigned");
    }
  }

  lemma VerifiedLine()
    ensures '\n' !in JarVerified && Effect(JarVerified) == Mark(Verified, true)
  {
    TrimmedLiteral(JarVerified);
    ClassifyByRule(JarVerified, 0);
  }

  lemma UnsignedLine()
    ensures '\n' !in JarUnsigned && Effect(JarUnsigned) == Mark(Verified, false)
  {
    TrimmedLiteral(JarUnsigned);
    ClassifyByRule(JarUnsigned, 1);
  }

  /** A jar jarsigner reports as unsigned renders as `<name> Unsigned`. */
  lemma UnsignedJarRendersUnsigned(jarname: string, out: string)
    requires out == JarUnsigned + "\n"
    ensures Parse(jarname, out) == Success(NewStatus(jarname).Set(Verified, false))
    ensures Render(Parse(jarname, out).value) == jarname + " Unsigned"
  {
    UnsignedLine();
    ParseSingleDiagnostic(jarname, JarUnsigned, Verified, false);
    VerdictOnlyRender(jarname, false);
  }

  /** Output with only `Warning:` leaves the verdict unset; the jar still
      renders as Unsigned, with the warning flag. */
  lemma WarningOnlyLeavesVerdictUnset(jarname: string, out: string)
    requires out == WarningLine + "\n"
    ensures Parse(jarname, out).Success?
    ensures Parse(jarname, out).value.verified == None
    ensures Render(Parse(jarname, out).value) == jarname + " Unsigned warning"
  {
    TrimmedLiteral(WarningLine);
    ClassifyByRule(WarningLine, 2);
    ParseSingleDiagnostic(jarname, WarningLine, Warning, true);
    WarningStatusRender(jarname);
  }

  lemma WarningStatusRender(jarname: string)
    ensures Render(NewStatus(jarname).Set(Warning, true)) == jarname + " Unsigned warning"
  {
    var t := NewStatus(jarname).Set(Warning, true);
    WordsInOrder(t);
    assert Words(t, FlagOrder) == " warning";
    assert Verdict(t) == "Unsigned";
    assert Render(t) == jarname + " " + "Unsigned" + " warning";
    assert " " + "Unsigned" == " Unsigned" && " Unsigned" + " warning" == " Unsigned warning";
    AppendAssoc(jarname, " ", "Unsigned");
    AppendAssoc(jarname, " Unsigned", " warning");
  }

  /** Output reporting a jar both verified and unsigned is rejected as a
      duplicate assignment of the verdict. */
  lemma BothVerdictsExample(jarname: string, out: string)
    requires out == JarVerified + "\n" + JarUnsigned + "\n"
    ensures Parse(jarname, out) == Failure(Duplicate(Verified))
  {
    var lines := [JarVerified, JarUnsigned, ""];
    BothVerdictsLines(out, lines);
    VerifiedLine();
    UnsignedLine();
    var ds := Effects(lines);
    assert ds[0] == Mark(Verified, true) && ds[1] == Mark(Verified, false);
    var s := NewStatus(jarname).Set(Verified, true);
    assert ds[1..][0] == ds[1];
    assert Run(NewStatus(jarname), ds) == Run(s, ds[1..]);
    assert Run(s, ds[1..]) == Failure(DuplicateField(Verified));
  }

  lemma BothVerdictsLines(out: string, lines: seq<string>)
    requires out == JarVerified + "\n" + JarUnsigned + "\n"
    requires lines == [JarVerified, JarUnsigned, ""]
    ensures Split(out, '\n') == lines
  {
    SplitJoin(lines, '\n');
    assert Join(lines[2..], '\n') == "";
    assert Join(lines[1..], '\n') == JarUnsigned + "\n";
    assert Join(lines, '\n') == JarVerified + "\n" + (JarUnsigned + "\n");
    AppendAssoc(JarVerified + "\n", JarUnsigned, "\n");
  }
}
