/**
 * Version-rule matching of generate_diagnostics.py: a release number is the
 * leading `major.minor.patch` of a version string, and a rule such as
 * `">= 8.2.0 < 8.3.0"` is a conjunction of operator conditions on it,
 * compared as (major, minor, patch) tuples; pre-release and build suffixes
 * play no part. This is a simplified subset of the precedence of section 11
 * of Semantic Versioning 2.0.0.
 */
module VersionRules {
  import opened Wrappers
  import opened Text

  /** The `(major, minor, patch)` tuple that parse_version returns. */
  datatype Version = Version(major: nat, minor: nat, patch: nat)

  /** Python's `<` on the tuples: lexicographic on major, then minor, then patch. */
  predicate Less(a: Version, b: Version)
  {
    a.major < b.major ||
    (a.major == b.major && (a.minor < b.minor || (a.minor == b.minor && a.patch < b.patch)))
  }

  /** The dotted text of a version, as a rule or a version file writes it. */
  function VersionText(v: Version): string
  {
    NatToString(v.major) + "." + NatToString(v.minor) + "." + NatToString(v.patch)
  }

  // ---------------------------------------------------------------------
  // parse_version: re.match(r'(\d+)\.(\d+)\.(\d+)', s)

  /** The three digit groups of a match of `(\d+)\.(\d+)\.(\d+)`. */
  datatype Triple = Triple(major: string, minor: string, patch: string) {
    function Matched(): string
    {
      major + "." + minor + "." + patch
    }

    /** The groups read as integers (`map(int, match.groups())`). */
    function Value(): Version
      requires IsTriple(this)
    {
      Version(DigitsValue(major), DigitsValue(minor), DigitsValue(patch))
    }
  }

  predicate IsTriple(t: Triple)
  {
    t.major != [] && AllDigits(t.major) &&
    t.minor != [] && AllDigits(t.minor) &&
    t.patch != [] && AllDigits(t.patch)
  }

  /** `s` begins with some `digits.digits.digits`. */
  ghost predicate BeginsWithTriple(s: string)
  {
    exists t: Triple :: IsTriple(t) && StartsWith(s, t.Matched())
  }

  /** `(\d+)\.` at the start of `s`: the digit group and what follows the dot. */
  function DigitsThenDot(s: string): (r: Option<(string, string)>)
    ensures r.Some? ==> |r.value.0| + 1 + |r.value.1| == |s|
  {
    var g := Run(Digit, s);
    if g == [] || |g| == |s| || s[|g|] != '.' then None
    else Some((g, s[|g| + 1..]))
  }

  /** What DigitsThenDot returns is a non-empty digit group, a dot and the rest of `s`. */
  lemma DigitsThenDotSound(s: string)
    requires DigitsThenDot(s).Some?
    ensures var (g, rest) := DigitsThenDot(s).value;
            g != [] && AllDigits(g) && s == g + "." + rest
  {
    var g := Run(Digit, s);
    RunBounds(Digit, s);
    assert s == s[..|g|] + s[|g|..];
    assert s[|g|..] == "." + s[|g| + 1..];
  }

  /** A non-empty group of digits followed by a dot is taken whole. */
  lemma DigitsThenDotOf(g: string, tail: string)
    requires g != [] && AllDigits(g)
    ensures DigitsThenDot(g + "." + tail) == Some((g, tail))
  {
    var s := g + "." + tail;
    assert s == g + ("." + tail);
    RunOf(Digit, g, "." + tail);
    assert s[|g|] == '.';
    assert s[|g| + 1..] == tail;
  }

  /**
   * The match of `(\d+)\.(\d+)\.(\d+)` anchored at the start of `s`. Each
   * `\d+` is greedy, and giving a digit back can never help, because what
   * follows each of the first two groups must be a `.`: so each group is the
   * longest run of digits at its place.
   */
  function MatchTriple(s: string): (r: Option<Triple>)
    ensures r.Some? ==> |r.value.Matched()| <= |s|
  {
    match DigitsThenDot(s)
    case None => None
    case Some((a, t)) =>
      match DigitsThenDot(t)
      case None => None
      case Some((b, u)) =>
        var c := Run(Digit, u);
        if c == [] then None else Some(Triple(a, b, c))
  }

  /** A match is three digit groups that begin `s`, and no digit follows the third. */
  lemma MatchTripleSound(s: string)
    requires MatchTriple(s).Some?
    ensures var m := MatchTriple(s).value;
            IsTriple(m) && StartsWith(s, m.Matched()) &&
            (|m.Matched()| == |s| || !IsDigit(s[|m.Matched()|]))
  {
    var (a, t) := DigitsThenDot(s).value;
    var (b, u) := DigitsThenDot(t).value;
    var c := Run(Digit, u);
    assert MatchTriple(s).value == Triple(a, b, c);
    DigitsThenDotSound(s);
    DigitsThenDotSound(t);
    RunBounds(Digit, u);
    TripleLayout(s, a, t, b, u, c);
  }

  lemma TripleLayout(s: string, a: string, t: string, b: string, u: string, c: string)
    requires s == a + "." + t && t == b + "." + u && StartsWith(u, c)
    ensures StartsWith(s, a + "." + b + "." + c)
    ensures |a + "." + b + "." + c| < |s| ==> s[|a + "." + b + "." + c|] == u[|c|]
  {
    assert u == c + u[|c|..];
    assert s == a + "." + b + "." + c + u[|c|..];
  }

  /**
   * Whenever `s` is `a.b.c` followed by anything, the pattern matches; when
   * what follows `c` is not a digit, the groups are exactly `a`, `b` and `c`.
   */
  lemma MatchTripleOf(t: Triple, rest: string)
    requires IsTriple(t)
    ensures MatchTriple(t.Matched() + rest).Some?
    ensures rest == [] || !IsDigit(rest[0]) ==> MatchTriple(t.Matched() + rest) == Some(t)
  {
    var u := t.patch + rest;
    var tt := t.minor + "." + u;
    assert t.Matched() + rest == t.major + "." + tt;
    DigitsThenDotOf(t.major, tt);
    DigitsThenDotOf(t.minor, u);
    RunNonEmpty(Digit, t.patch, rest);
    if rest == [] || !IsDigit(rest[0]) {
      RunOf(Digit, t.patch, rest);
    }
  }

  /** The pattern matches exactly the strings that begin with `digits.digits.digits`. */
  lemma MatchTripleIff(s: string)
    ensures MatchTriple(s).Some? <==> BeginsWithTriple(s)
  {
    if BeginsWithTriple(s) {
      var t: Triple :| IsTriple(t) && StartsWith(s, t.Matched());
      var m := |t.Matched()|;
      assert s == t.Matched() + s[m..];
      MatchTripleOf(t, s[m..]);
    }
    if MatchTriple(s).Some? {
      MatchTripleSound(s);
      var m := MatchTriple(s).value;
      assert IsTriple(m) && StartsWith(s, m.Matched());
    }
  }

  /** parse_version: the leading `major.minor.patch` as integers, else (0, 0, 0). */
  function ParseVersion(s: string): (v: Version)
    ensures !BeginsWithTriple(s) ==> v == Version(0, 0, 0)
  {
    MatchTripleIff(s);
    match MatchTriple(s)
    case None => Version(0, 0, 0)
    case Some(t) => MatchTripleSound(s); t.Value()
  }

  /**
   * Any three digit groups followed by a suffix that does not continue
   * the patch number parse as the groups' integer values, leading zeros
   * included.
   */
  lemma ParseVersionOfTriple(t: Triple, rest: string)
    requires IsTriple(t) && (rest == [] || !IsDigit(rest[0]))
    ensures ParseVersion(t.Matched() + rest) == t.Value()
  {
    MatchTripleOf(t, rest);
  }

  /** "8.01.0" parses as (8, 1, 0): `int()` ignores leading zeros. */
  lemma ParseVersionLeadingZero()
    ensures ParseVersion("8.01.0") == Version(8, 1, 0)
  {
    var t := Triple("8", "01", "0");
    assert t.Matched() + "" == "8.01.0";
    ParseVersionOfTriple(t, "");
    assert DigitsValue("01") == 10 * DigitsValue("0") + 1;
  }

  /**
   * The text of a version followed by a suffix that does not continue the
   * patch number parses back to that version: "8.11.1-SNAPSHOT" gives (8, 11, 1).
   */
  lemma ParseVersionText(v: Version, rest: string)
    requires rest == [] || !IsDigit(rest[0])
    ensures ParseVersion(VersionText(v) + rest) == v
  {
    var t := Triple(NatToString(v.major), NatToString(v.minor), NatToString(v.patch));
    assert t.Matched() == VersionText(v);
    MatchTripleOf(t, rest);
    DigitsValueOfNatToString(v.major);
    DigitsValueOfNatToString(v.minor);
    DigitsValueOfNatToString(v.patch);
  }

  /** The text of a version parses back to it. */
  lemma ParseVersionOfText(v: Version)
    ensures ParseVersion(VersionText(v)) == v
  {
    ParseVersionText(v, "");
    assert VersionText(v) + "" == VersionText(v);
  }

  // ---------------------------------------------------------------------
  // re.findall(r'([><=]+)\s*(\d+\.\d+\.\d+)', rule)

  /** A run of operator characters, as `[><=]+` captures it (`=>` and `==` included). */
  predicate IsOperator(op: string)
  {
    op != [] && AllIn(OpChar, op)
  }

  /** One `(operator, version)` pair that findall reports. */
  datatype Condition = Condition(op: string, version: string)

  /**
   * The match of the condition pattern at the start of `s`, with its length.
   * The operator run and the whitespace run are each taken whole: a shorter
   * operator run would leave an operator character where `\s*` or a digit is
   * needed, and a shorter whitespace run a space where a digit is needed.
   */
  function MatchConditionAt(s: string): (r: Option<(Condition, nat)>)
    ensures r.Some? ==> 0 < r.value.1 <= |s|
  {
    var op := Run(OpChar, s);
    if op == [] then None
    else
      var after := s[|op|..];
      var x := after[Span(Space, after)..];
      match MatchTriple(x)
      case None => None
      case Some(t) => Some((Condition(op, t.Matched()), |s| - |x| + |t.Matched()|))
  }

  /** A condition's operator is a run of operator characters. */
  lemma MatchConditionAtOperator(s: string)
    requires MatchConditionAt(s).Some?
    ensures IsOperator(MatchConditionAt(s).value.0.op)
  {
    RunBounds(OpChar, s);
  }

  /** After an operator and one space, the condition's match is the triple's match. */
  lemma MatchConditionAtOf(op: string, x: string, t: Triple)
    requires IsOperator(op)
    requires x != [] && !IsSpace(x[0])
    requires MatchTriple(x) == Some(t)
    ensures MatchConditionAt(op + " " + x) == Some((Condition(op, t.Matched()), |op| + 1 + |t.Matched()|))
  {
    ConditionLayout(op, x);
  }

  /** The pieces MatchConditionAt takes apart in an operator, one space and the rest. */
  lemma ConditionLayout(op: string, x: string)
    requires IsOperator(op)
    requires x != [] && !IsSpace(x[0])
    ensures var s := op + " " + x;
            Run(OpChar, s) == op && s[|op|..] == " " + x && Span(Space, " " + x) == 1 && (" " + x)[1..] == x
  {
    OperatorSpaceLayout(op, x);
    RunOf(OpChar, op, " " + x);
    SpanIs(Space, " " + x, 1);
  }

  lemma OperatorSpaceLayout(op: string, x: string)
    requires x != []
    ensures op + " " + x == op + (" " + x)
    ensures (op + " " + x)[|op|..] == " " + x
    ensures (" " + x)[0] == ' ' && (" " + x)[1] == x[0] && (" " + x)[1..] == x
  {
  }

  /**
   * findall: scanning left to right, each match is reported and scanning
   * resumes after it; where no match starts, scanning moves on by one.
   */
  function FindConditions(s: string): (cs: seq<Condition>)
    ensures |cs| <= |s|
    decreases |s|
  {
    if s == [] then []
    else
      match MatchConditionAt(s)
      case Some((c, n)) => [c] + FindConditions(s[n..])
      case None => FindConditions(s[1..])
  }

  /** Every operator findall reports is a run of operator characters. */
  lemma {:induction false} FindConditionsOperators(s: string)
    ensures OperatorsOnly(FindConditions(s))
    decreases |s|
  {
    if s != [] {
      match MatchConditionAt(s)
      case Some((c, n)) =>
        MatchConditionAtOperator(s);
        FindConditionsOperators(s[n..]);
        OperatorsOnlyCons(c, FindConditions(s[n..]));
      case None =>
        FindConditionsOperators(s[1..]);
    }
  }

  predicate OperatorsOnly(cs: seq<Condition>)
  {
    forall i :: 0 <= i < |cs| ==> IsOperator(cs[i].op)
  }

  lemma OperatorsOnlyCons(c: Condition, cs: seq<Condition>)
    requires IsOperator(c.op) && OperatorsOnly(cs)
    ensures OperatorsOnly([c] + cs)
  {
    assert forall i :: 1 <= i <= |cs| ==> ([c] + cs)[i] == cs[i - 1];
  }

  // ---------------------------------------------------------------------
  // evaluate_version_rule

  /**
   * The five recognised operators; any other operator run constrains
   * nothing. The strict ones fail and the others hold when the versions
   * are equal.
   */
  predicate OpHolds(op: string, v: Version, r: Version)
    ensures v == r ==> (OpHolds(op, v, r) <==> op != ">" && op != "<")
    ensures op != ">=" && op != ">" && op != "<=" && op != "<" && op != "=" ==> OpHolds(op, v, r)
    ensures op == ">=" ==> (OpHolds(op, v, r) <==> Less(r, v) || v == r)
    ensures op == "<=" ==> (OpHolds(op, v, r) <==> Less(v, r) || v == r)
  {
    if op == ">=" then !Less(v, r)
    else if op == ">" then Less(r, v)
    else if op == "<=" then !Less(r, v)
    else if op == "<" then Less(v, r)
    else if op == "=" then v == r
    else true
  }

  predicate Satisfies(v: Version, c: Condition)
  {
    OpHolds(c.op, v, ParseVersion(c.version))
  }

  /** The loop over the conditions: the first one that fails returns False. */
  function AllSatisfied(v: Version, cs: seq<Condition>): (b: bool)
    ensures b <==> forall i :: 0 <= i < |cs| ==> Satisfies(v, cs[i])
  {
    if cs == [] then true
    else if !Satisfies(v, cs[0]) then false
    else AllSatisfied(v, cs[1..])
  }

  /** evaluate_version_rule: every condition of the stripped rule holds, and there is at least one. */
  function EvaluateVersionRule(version: string, rule: string): (b: bool)
    ensures b <==> var cs := FindConditions(Strip(rule));
                   |cs| > 0 && forall i :: 0 <= i < |cs| ==> Satisfies(ParseVersion(version), cs[i])
  {
    var cs := FindConditions(Strip(rule));
    AllSatisfied(ParseVersion(version), cs) && |cs| > 0
  }

  // ---------------------------------------------------------------------
  // What a rule written as "op version op version ..." means

  function ConditionText(op: string, v: Version): string
  {
    op + " " + VersionText(v)
  }

  /** A rule text: the conditions separated by single spaces. */
  function RuleText(cs: seq<(string, Version)>): string
  {
    if cs == [] then ""
    else ConditionText(cs[0].0, cs[0].1) + (if |cs| == 1 then "" else " " + RuleText(cs[1..]))
  }

  /** What findall reports for a rule text: each operator with the text of its version. */
  function ConditionsOf(cs: seq<(string, Version)>): seq<Condition>
  {
    if cs == [] then [] else [Condition(cs[0].0, VersionText(cs[0].1))] + ConditionsOf(cs[1..])
  }

  predicate AllOperators(cs: seq<(string, Version)>)
  {
    forall i :: 0 <= i < |cs| ==> IsOperator(cs[i].0)
  }

  /** A space cannot start a condition, so findall passes over it. */
  lemma FindConditionsSkipSpace(rest: string)
    ensures FindConditions(" " + rest) == FindConditions(rest)
  {
    var s := " " + rest;
    assert Span(OpChar, s) == 0;
    assert s[1..] == rest;
  }

  /** One condition at the front of the text is reported, and scanning resumes right after it. */
  lemma FindConditionsStep(op: string, t: Triple, rest: string)
    requires IsOperator(op) && IsTriple(t)
    requires rest == [] || rest[0] == ' '
    ensures FindConditions(op + " " + t.Matched() + rest) ==
            [Condition(op, t.Matched())] + FindConditions(rest)
  {
    var x := t.Matched() + rest;
    var s := op + " " + x;
    assert op + " " + t.Matched() + rest == s;
    assert x[0] == t.major[0];
    MatchTripleOf(t, rest);
    MatchConditionAtOf(op, x, t);
    assert MatchConditionAt(op + " " + x) == Some((Condition(op, t.Matched()), |op| + 1 + |t.Matched()|));
  }

  /** The digit groups of a version's text. */
  function TripleOf(v: Version): (t: Triple)
    ensures IsTriple(t) && t.Matched() == VersionText(v)
  {
    Triple(NatToString(v.major), NatToString(v.minor), NatToString(v.patch))
  }

  /** findall recovers every condition of a rule text, in order. */
  lemma {:induction false} FindConditionsOfRuleText(cs: seq<(string, Version)>)
    requires AllOperators(cs)
    ensures FindConditions(RuleText(cs)) == ConditionsOf(cs)
  {
    if cs != [] {
      var t := TripleOf(cs[0].1);
      var tail := if |cs| == 1 then "" else " " + RuleText(cs[1..]);
      FindConditionsStep(cs[0].0, t, tail);
      if |cs| > 1 {
        FindConditionsSkipSpace(RuleText(cs[1..]));
        FindConditionsOfRuleText(cs[1..]);
      }
    }
  }

  lemma RuleTextUnstripped(cs: seq<(string, Version)>)
    requires AllOperators(cs)
    ensures Strip(RuleText(cs)) == RuleText(cs)
  {
    if cs != [] {
      var s := RuleText(cs);
      assert s[0] == cs[0].0[0];
      var last := cs[|cs| - 1];
      assert s[|s| - 1] == NatToString(last.1.patch)[|NatToString(last.1.patch)| - 1] by {
        RuleTextLast(cs);
      }
      StripUnchanged(s);
    }
  }

  lemma {:induction false} RuleTextLast(cs: seq<(string, Version)>)
    requires cs != []
    ensures var s := RuleText(cs); var p := NatToString(cs[|cs| - 1].1.patch);
            |s| > 0 && s[|s| - 1] == p[|p| - 1]
  {
    if |cs| > 1 {
      RuleTextLast(cs[1..]);
      assert cs[1..][|cs[1..]| - 1] == cs[|cs| - 1];
    }
  }

  /**
   * A rule written as operator/version pairs holds of a version exactly when
   * there is at least one pair and every pair holds; a pair whose operator
   * is none of the five always holds but still counts as a condition.
   */
  lemma {:induction false} EvaluateRuleText(version: string, cs: seq<(string, Version)>)
    requires AllOperators(cs)
    ensures EvaluateVersionRule(version, RuleText(cs)) <==> |cs| > 0 && AllHold(ParseVersion(version), cs)
  {
    var rule := RuleText(cs);
    assert Strip(rule) == rule by { RuleTextUnstripped(cs); }
    assert FindConditions(rule) == ConditionsOf(cs) by { FindConditionsOfRuleText(cs); }
    ConditionsHold(ParseVersion(version), cs);
  }

  /** Every written pair `(op, w)` has `op` relate `v` to `w`. */
  predicate AllHold(v: Version, cs: seq<(string, Version)>)
  {
    forall i :: 0 <= i < |cs| ==> OpHolds(cs[i].0, v, cs[i].1)
  }

  /** The reported conditions all hold exactly when every written pair holds. */
  lemma ConditionsHold(v: Version, cs: seq<(string, Version)>)
    ensures |ConditionsOf(cs)| == |cs|
    ensures AllSatisfied(v, ConditionsOf(cs)) <==> AllHold(v, cs)
  {
    ConditionsOfAt(cs);
    forall i | 0 <= i < |cs|
      ensures Satisfies(v, ConditionsOf(cs)[i]) == OpHolds(cs[i].0, v, cs[i].1)
    {
      ParseVersionOfText(cs[i].1);
    }
  }

  lemma {:induction false} ConditionsOfAt(cs: seq<(string, Version)>)
    ensures |ConditionsOf(cs)| == |cs|
    ensures forall i :: 0 <= i < |cs| ==> ConditionsOf(cs)[i] == Condition(cs[i].0, VersionText(cs[i].1))
  {
    if cs != [] {
      ConditionsOfAt(cs[1..]);
    }
  }

  /** `">= lo < hi"` accepts exactly the versions in the half-open range [lo, hi). */
  lemma RangeRule(version: string, lo: Version, hi: Version)
    ensures EvaluateVersionRule(version, ">= " + VersionText(lo) + " < " + VersionText(hi)) <==>
            !Less(ParseVersion(version), lo) && Less(ParseVersion(version), hi)
  {
    var cs := [(">=", lo), ("<", hi)];
    RangeRuleText(lo, hi);
    EvaluateRuleText(version, cs);
    RangeConditions(ParseVersion(version), lo, hi);
  }

  lemma RangeRuleText(lo: Version, hi: Version)
    ensures var cs := [(">=", lo), ("<", hi)];
            AllOperators(cs) && RuleText(cs) == ">= " + VersionText(lo) + " < " + VersionText(hi)
  {
    var cs := [(">=", lo), ("<", hi)];
    assert cs[1..] == [("<", hi)];
    assert IsOperator(">=") && IsOperator("<");
  }

  lemma RangeConditions(v: Version, lo: Version, hi: Version)
    ensures AllHold(v, [(">=", lo), ("<", hi)]) <==> !Less(v, lo) && Less(v, hi)
  {
    var cs := [(">=", lo), ("<", hi)];
    assert OpHolds(cs[0].0, v, cs[0].1) == !Less(v, lo);
    assert OpHolds(cs[1].0, v, cs[1].1) == Less(v, hi);
  }

  /** A condition whose operator is none of the five (such as `=>` or `==`) accepts every version. */
  lemma UnknownOperatorRule(version: string, op: string, r: Version)
    requires IsOperator(op)
    requires op !in [">=", ">", "<=", "<", "="]
    ensures EvaluateVersionRule(version, ConditionText(op, r))
  {
    assert RuleText([(op, r)]) == ConditionText(op, r) && AllOperators([(op, r)]);
    assert OpHolds(op, ParseVersion(version), r);
    EvaluateRuleText(version, [(op, r)]);
  }

  /** A text with no operator character has no condition. */
  lemma {:induction false} FindConditionsNoOperator(s: string)
    requires forall i :: 0 <= i < |s| ==> !IsOpChar(s[i])
    ensures FindConditions(s) == []
    decreases |s|
  {
    if s != [] {
      assert Span(OpChar, s) == 0;
      FindConditionsNoOperator(s[1..]);
    }
  }

  /** A rule with no operator character has no conditions, so it matches no version. */
  lemma RuleWithoutConditions(version: string, rule: string)
    requires forall i :: 0 <= i < |rule| ==> !IsOpChar(rule[i])
    ensures !EvaluateVersionRule(version, rule)
  {
    StripSlice(rule);
    FindConditionsNoOperator(Strip(rule));
  }

  // ---------------------------------------------------------------------
  // get_matching_api_endpoint

  /**
   * The API path of the first rule, in mapping order, that the version
   * satisfies; None when it satisfies none.
   */
  function MatchingEndpoint(versions: seq<(string, string)>, esVersion: string): Option<string>
  {
    if versions == [] then None
    else if EvaluateVersionRule(esVersion, versions[0].0) then Some(versions[0].1)
    else MatchingEndpoint(versions[1..], esVersion)
  }

  /** No endpoint is found exactly when no rule holds of the version. */
  lemma {:induction false} MatchingEndpointNone(versions: seq<(string, string)>, esVersion: string)
    ensures MatchingEndpoint(versions, esVersion).None? <==>
            forall i :: 0 <= i < |versions| ==> !EvaluateVersionRule(esVersion, versions[i].0)
  {
    if versions != [] && !EvaluateVersionRule(esVersion, versions[0].0) {
      MatchingEndpointNone(versions[1..], esVersion);
      assert forall i :: 1 <= i < |versions| ==> versions[i] == versions[1..][i - 1];
    }
  }

  /** When rule `i` is the first that holds, its path is the endpoint. */
  lemma {:induction false} MatchingEndpointFirst(versions: seq<(string, string)>, esVersion: string, i: nat)
    requires i < |versions| && EvaluateVersionRule(esVersion, versions[i].0)
    requires forall j :: 0 <= j < i ==> !EvaluateVersionRule(esVersion, versions[j].0)
    ensures MatchingEndpoint(versions, esVersion) == Some(versions[i].1)
  {
    if i > 0 {
      assert !EvaluateVersionRule(esVersion, versions[0].0);
      assert versions[1..][i - 1] == versions[i];
      forall j | 0 <= j < i - 1
        ensures !EvaluateVersionRule(esVersion, versions[1..][j].0)
      {
        assert versions[1..][j] == versions[j + 1];
      }
      MatchingEndpointFirst(versions[1..], esVersion, i - 1);
    }
  }
}
