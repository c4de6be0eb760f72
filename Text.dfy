/**
 * The pieces of Python's `str` behaviour that the three scripts rely on:
 * which characters count as whitespace, line boundaries, digits, and the
 * `strip`, `splitlines`, `"\n".join`, `str(int)` and `int(str)` operations,
 * plus the newline translation every file read in text mode performs.
 */
module Text {

  /** `str.isspace()`; it is also the set that `\s` matches in a `str` pattern. */
  predicate IsSpace(c: char)
  {
    c == ' ' || ('\t' <= c <= '\r') || ('\U{1c}' <= c <= '\U{1f}') ||
    c == '\U{85}' || c == '\U{a0}' || c == '\U{1680}' || ('\U{2000}' <= c <= '\U{200a}') ||
    c == '\U{2028}' || c == '\U{2029}' || c == '\U{202f}' || c == '\U{205f}' || c == '\U{3000}'
  }

  /** The characters at which `str.splitlines()` ends a line (`\r\n` counts once). */
  predicate IsLineBreak(c: char)
  {
    ('\n' <= c <= '\r') || ('\U{1c}' <= c <= '\U{1e}') ||
    c == '\U{85}' || c == '\U{2028}' || c == '\U{2029}'
  }

  lemma LineBreakIsSpace(c: char)
    ensures IsLineBreak(c) ==> IsSpace(c)
  {
  }

  /** Concatenation regroups freely. */
  lemma AppendAssoc<T>(a: seq<T>, b: seq<T>, c: seq<T>)
    ensures a + (b + c) == a + b + c
  {
  }

  /** The ASCII decimal digits. */
  predicate IsDigit(c: char)
  {
    '0' <= c <= '9'
  }


  predicate StartsWith(s: string, prefix: string)
  {
    |prefix| <= |s| && s[..|prefix|] == prefix
  }

  /** The characters of the relational operators, `[><=]`. */
  predicate IsOpChar(c: char)
  {
    c == '>' || c == '<' || c == '='
  }

  /**
   * The character classes that the patterns of the scripts repeat
   * greedily; AnyButNewline is what `.` matches.
   */
  datatype CharClass = Space | NonSpace | Digit | OpChar | AnyButNewline

  predicate InClass(k: CharClass, c: char)
  {
    match k
    case Space => IsSpace(c)
    case NonSpace => !IsSpace(c)
    case Digit => IsDigit(c)
    case OpChar => IsOpChar(c)
    case AnyButNewline => c != '\n'
  }

  /** The length of the longest prefix of `s` whose characters are all in class `k`. */
  function Span(k: CharClass, s: string): (n: nat)
    ensures n <= |s|
  {
    if s == [] || !InClass(k, s[0]) then 0 else 1 + Span(k, s[1..])
  }

  /** Every character of `s` is in class `k`. */
  predicate AllIn(k: CharClass, s: string)
  {
    forall i :: 0 <= i < |s| ==> InClass(k, s[i])
  }

  predicate AllDigits(s: string)
  {
    AllIn(Digit, s)
  }

  /** Every character of the span satisfies `p`, and the one after it does not. */
  lemma {:induction false} SpanBounds(k: CharClass, s: string)
    ensures forall i :: 0 <= i < Span(k, s) ==> InClass(k, s[i])
    ensures Span(k, s) < |s| ==> !InClass(k, s[Span(k, s)])
  {
    if s != [] && InClass(k, s[0]) {
      SpanBounds(k, s[1..]);
      assert forall i :: 1 <= i < Span(k, s) ==> s[i] == s[1..][i - 1];
    }
  }

  /** A run of `p` characters ended by the end of `s` or by a character that fails `p` is the span. */
  lemma {:induction false} SpanIs(k: CharClass, s: string, n: nat)
    requires n <= |s|
    requires forall i :: 0 <= i < n ==> InClass(k, s[i])
    requires n == |s| || !InClass(k, s[n])
    ensures Span(k, s) == n
  {
    if n > 0 {
      assert InClass(k, s[0]);
      forall i | 0 <= i < n - 1 ensures InClass(k, s[1..][i]) {
        assert s[1..][i] == s[i + 1];
      }
      if n < |s| { assert s[1..][n - 1] == s[n]; }
      SpanIs(k, s[1..], n - 1);
    }
  }

  /** The longest run of class `k` at the start of `s`: what a greedy repetition of `k` takes there. */
  function Run(k: CharClass, s: string): (r: string)
    ensures |r| <= |s|
  {
    s[..Span(k, s)]
  }

  /** The run is in class `k`, begins `s`, and the character after it is not in `k`. */
  lemma RunBounds(k: CharClass, s: string)
    ensures var r := Run(k, s);
            AllIn(k, r) && StartsWith(s, r) && (|r| == |s| || !InClass(k, s[|r|]))
  {
    SpanBounds(k, s);
  }

  /** A run of class `k` that the end of the text or a character outside `k` follows is taken whole. */
  lemma RunOf(k: CharClass, g: string, rest: string)
    requires AllIn(k, g)
    requires rest == [] || !InClass(k, rest[0])
    ensures Run(k, g + rest) == g
  {
    var s := g + rest;
    SpanIs(k, s, |g|);
    assert s[..|g|] == g;
  }

  /** The span over a run of class `k` that the end of the text or a character outside `k` follows. */
  lemma SpanOf(k: CharClass, g: string, rest: string)
    requires AllIn(k, g)
    requires rest == [] || !InClass(k, rest[0])
    ensures Span(k, g + rest) == |g|
  {
    SpanIs(k, g + rest, |g|);
  }

  /** A span that ends inside `u` is not changed by what follows `u`. */
  lemma SpanAppend(k: CharClass, u: string, x: string)
    requires Span(k, u) < |u|
    ensures Span(k, u + x) == Span(k, u)
  {
    SpanBounds(k, u);
    SpanIs(k, u + x, Span(k, u));
  }

  lemma RunNonEmpty(k: CharClass, g: string, rest: string)
    requires g != [] && AllIn(k, g)
    ensures Run(k, g + rest) != []
  {
    assert (g + rest)[0] == g[0];
  }

  // ---------------------------------------------------------------------
  // Decimal numbers: str(n) and int(digits)

  function DigitChar(d: nat): (c: char)
    requires d < 10
    ensures IsDigit(c) && c as int - '0' as int == d
  {
    ('0' as int + d) as char
  }

  /** `str(n)` for a non-negative integer. */
  function NatToString(n: nat): (r: string)
    ensures r != [] && AllDigits(r)
  {
    if n < 10 then [DigitChar(n)] else NatToString(n / 10) + [DigitChar(n % 10)]
  }

  /** `int(s)` for a non-empty string of ASCII digits (leading zeros allowed). */
  function DigitsValue(s: string): nat
    requires AllDigits(s)
  {
    if s == [] then 0
    else 10 * DigitsValue(s[..|s| - 1]) + (s[|s| - 1] as int - '0' as int)
  }

  /** `int(str(n)) == n`. */
  lemma {:induction false} DigitsValueOfNatToString(n: nat)
    ensures DigitsValue(NatToString(n)) == n
  {
    var s := NatToString(n);
    if n >= 10 {
      assert s[..|s| - 1] == NatToString(n / 10);
      DigitsValueOfNatToString(n / 10);
    }
  }

  // ---------------------------------------------------------------------
  // str.strip()

  function LStrip(s: string): (r: string)
    ensures |r| <= |s| && r == s[|s| - |r|..]
    ensures forall i :: 0 <= i < |s| - |r| ==> IsSpace(s[i])
    ensures r == [] || !IsSpace(r[0])
  {
    SpanBounds(Space, s);
    s[Span(Space, s)..]
  }

  function RStrip(s: string): (r: string)
    ensures StartsWith(s, r)
    ensures forall i :: |r| <= i < |s| ==> IsSpace(s[i])
    ensures r == [] || !IsSpace(r[|r| - 1])
  {
    if s == [] then []
    else if IsSpace(s[|s| - 1]) then RStrip(s[..|s| - 1])
    else s
  }

  /** `s.strip()`: leading and trailing whitespace removed. */
  function Strip(s: string): (r: string)
    ensures r == [] <==> forall i :: 0 <= i < |s| ==> IsSpace(s[i])
    ensures r != [] ==> !IsSpace(r[0]) && !IsSpace(r[|r| - 1])
  {
    RStrip(LStrip(s))
  }

  /** The strip is the slice of `s` that starts after its leading whitespace. */
  lemma StripSlice(s: string)
    ensures Span(Space, s) + |Strip(s)| <= |s|
    ensures Strip(s) == s[Span(Space, s)..Span(Space, s) + |Strip(s)|]
  {
    var k := Span(Space, s);
    var r := Strip(s);
    assert LStrip(s) == s[k..];
    assert StartsWith(s[k..], r);
    SliceOfSlice(s, k, |r|);
  }

  lemma SliceOfSlice<T>(s: seq<T>, k: nat, n: nat)
    requires k + n <= |s|
    ensures s[k..][..n] == s[k..k + n]
  {
  }

  /** A string that neither starts nor ends with whitespace is its own strip. */
  lemma StripUnchanged(s: string)
    requires s != [] && !IsSpace(s[0]) && !IsSpace(s[|s| - 1])
    ensures Strip(s) == s
  {
    assert Span(Space, s) == 0;
  }

  // ---------------------------------------------------------------------
  // Universal newlines: what reading a file in text mode does to its text

  /** Every `\r\n` and every lone `\r` becomes `\n`. */
  function TranslateNewlines(s: string): (r: string)
    ensures forall i :: 0 <= i < |r| ==> r[i] != '\r'
    ensures (forall i :: 0 <= i < |s| ==> s[i] != '\r') ==> r == s
    ensures |r| <= |s|
  {
    if s == [] then []
    else if s[0] == '\r' then
      ['\n'] + TranslateNewlines(if |s| > 1 && s[1] == '\n' then s[2..] else s[1..])
    else [s[0]] + TranslateNewlines(s[1..])
  }

  // ---------------------------------------------------------------------
  // str.splitlines() and "\n".join(lines)

  /** How many characters the boundary at `i` takes: two for `\r\n`, one otherwise. */
  function BreakWidth(s: string, i: nat): (w: nat)
    requires i < |s|
    ensures 1 <= w && i + w <= |s|
  {
    if s[i] == '\r' && i + 1 < |s| && s[i + 1] == '\n' then 2 else 1
  }

  predicate NoLineBreak(s: string)
  {
    forall i :: 0 <= i < |s| ==> !IsLineBreak(s[i])
  }

  /**
   * `s.splitlines()`: the lines of `s` without their boundaries; a final
   * boundary adds no empty line. A character that is not a boundary joins
   * the first line of what follows it.
   */
  function SplitLines(s: string): (lines: seq<string>)
    ensures forall k :: 0 <= k < |lines| ==> NoLineBreak(lines[k])
    ensures lines == [] <==> s == []
    decreases |s|
  {
    if s == [] then []
    else if IsLineBreak(s[0]) then [""] + SplitLines(s[BreakWidth(s, 0)..])
    else
      var rest := SplitLines(s[1..]);
      if rest == [] then [[s[0]]] else [[s[0]] + rest[0]] + rest[1..]
  }

  /** `"\n".join(lines)`. */
  function JoinLines(lines: seq<string>): string
  {
    if lines == [] then []
    else if |lines| == 1 then lines[0]
    else lines[0] + "\n" + JoinLines(lines[1..])
  }

  /** A non-empty text without line boundaries is one line. */
  lemma {:induction false} SplitLinesOneLine(a: string)
    requires a != [] && NoLineBreak(a)
    ensures SplitLines(a) == [a]
    decreases |a|
  {
    assert !IsLineBreak(a[0]);
    var rest := SplitLines(a[1..]);
    if |a| > 1 {
      SplitLinesOneLine(a[1..]);
      assert rest[1..] == [];
      assert SplitLines(a) == [[a[0]] + rest[0]] + rest[1..];
      assert [a[0]] + rest[0] == a;
    } else {
      assert a[1..] == [] && rest == [];
      assert SplitLines(a) == [[a[0]]];
      assert [a[0]] == a;
    }
  }

  /**
   * Appending `"\n" + x` to a text that does not end at a line boundary adds
   * exactly the lines of `x`: the writer's trailing `\n` never merges lines.
   */
  lemma {:induction false} SplitLinesAppend(a: string, x: string)
    requires a != [] && !IsLineBreak(a[|a| - 1])
    ensures SplitLines(a + "\n" + x) == SplitLines(a) + SplitLines(x)
    decreases |a|
  {
    var s := a + "\n" + x;
    if IsLineBreak(a[0]) {
      var w := BreakWidth(a, 0);
      AppendAfterBreak(a, x);
      SplitLinesAppend(a[w..], x);
      ConsAppend("", SplitLines(a[w..]), SplitLines(x));
    } else if |a| == 1 {
      AppendOneChar(a, x);
    } else {
      assert s[1..] == a[1..] + "\n" + x;
      SplitLinesAppend(a[1..], x);
      SplitLinesCons(a, x);
    }
  }

  /** The step of SplitLinesAppend for a first character that is not a boundary. */
  lemma SplitLinesCons(a: string, x: string)
    requires |a| > 1 && !IsLineBreak(a[0])
    requires SplitLines(a[1..] + "\n" + x) == SplitLines(a[1..]) + SplitLines(x)
    ensures SplitLines(a + "\n" + x) == SplitLines(a) + SplitLines(x)
  {
    var s := a + "\n" + x;
    assert s[0] == a[0] && s[1..] == a[1..] + "\n" + x;
    var ra := SplitLines(a[1..]);
    FirstLineCons(a[0], ra, SplitLines(x));
  }

  lemma ConsAppend<T>(h: T, xs: seq<T>, ys: seq<T>)
    ensures [h] + (xs + ys) == [h] + xs + ys
  {
  }

  lemma FirstLineCons<T>(c: T, ra: seq<seq<T>>, xs: seq<seq<T>>)
    requires ra != []
    ensures [[c] + (ra + xs)[0]] + (ra + xs)[1..] == [[c] + ra[0]] + ra[1..] + xs
  {
    assert (ra + xs)[1..] == ra[1..] + xs;
  }

  /** A boundary at the front of `a` is the same boundary at the front of `a + "\n" + x`. */
  lemma AppendAfterBreak(a: string, x: string)
    requires a != [] && IsLineBreak(a[0]) && !IsLineBreak(a[|a| - 1])
    ensures BreakWidth(a, 0) < |a|
    ensures var s := a + "\n" + x; var w := BreakWidth(a, 0);
            BreakWidth(s, 0) == w && s[w..] == a[w..] + "\n" + x &&
            SplitLines(s) == [""] + SplitLines(a[w..] + "\n" + x) &&
            SplitLines(a) == [""] + SplitLines(a[w..])
  {
    var s := a + "\n" + x;
    var w := BreakWidth(a, 0);
    assert w == 2 ==> IsLineBreak(a[1]);
    assert BreakWidth(s, 0) == w;
    assert s[w..] == a[w..] + "\n" + x;
  }

  /** A single character that is not a boundary, then `"\n" + x`. */
  lemma AppendOneChar(a: string, x: string)
    requires |a| == 1 && !IsLineBreak(a[0])
    ensures SplitLines(a + "\n" + x) == SplitLines(a) + SplitLines(x)
  {
    var s := a + "\n" + x;
    var t := "\n" + x;
    assert s[1..] == t;
    assert BreakWidth(t, 0) == 1 && t[1..] == x;
    var rest := SplitLines(t);
    assert rest == [""] + SplitLines(x);
    assert SplitLines(s) == [[a[0]] + rest[0]] + rest[1..];
    assert rest[1..] == SplitLines(x);
    assert [a[0]] + rest[0] == a;
    assert SplitLines(a) == [a] by { SplitLinesOneLine(a); }
  }

  /** Prepending a non-boundary character extends the first line. */
  lemma JoinLinesPrepend(c: char, lines: seq<string>)
    requires lines != []
    ensures JoinLines([[c] + lines[0]] + lines[1..]) == [c] + JoinLines(lines)
  {
    var r := [[c] + lines[0]] + lines[1..];
    assert r[1..] == lines[1..];
  }

  /** Joining the lines of a text that has no boundary but `\n` and no final `\n` gives it back. */
  lemma {:induction false} JoinSplitLines(s: string)
    requires forall i :: 0 <= i < |s| && IsLineBreak(s[i]) ==> s[i] == '\n'
    requires s == [] || s[|s| - 1] != '\n'
    ensures JoinLines(SplitLines(s)) == s
    decreases |s|
  {
    if s != [] {
      var tail := s[1..];
      if IsLineBreak(s[0]) {
        assert BreakWidth(s, 0) == 1 && tail != [];
        JoinSplitLines(tail);
        assert s == "\n" + tail;
      } else if tail != [] {
        JoinSplitLines(tail);
        JoinLinesPrepend(s[0], SplitLines(tail));
        assert s == [s[0]] + tail;
      }
    }
  }
}
