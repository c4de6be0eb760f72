/**
 * server.py: reading a consolidated file of "# N: GET <path> ..." sections
 * back into a map from paths to parsed payloads. The JSON parser
 * (`json5.loads`, or `json.loads` without json5) is a parameter `loads`
 * that answers None whenever the parser raises.
 */
module RouteLoader {
  import opened Wrappers
  import opened Text

  // ---------------------------------------------------------------------
  // HDR = ^#\s*\d+:\s*GET\s+(\S+)\s+\d+\s*\w*   (re.I, applied with match)
  //
  // The pattern is a sequence of pieces, each a literal or a repetition of
  // one character class. Every repetition in HDR is followed by a piece that
  // cannot start with a character of its class (\s* by a digit or G, \d+ by
  // ':', \s+ by \S, \S+ by \s, \s+ by a digit), so backtracking never
  // shortens one: a scan that lets each repetition take its longest run
  // accepts exactly the lines the pattern matches, with the same group. The
  // tail \s*\w* matches the empty text at least, so it never decides whether
  // a line matches, and it captures nothing: it is left off the pieces.

  /** One piece of a pattern: a literal character, a literal word in any case, `k*`, `k+` or `(k+)`. */
  datatype Piece =
    | Char(c: char)
    | NoCase(word: string)
    | Star(k: CharClass)
    | Plus(k: CharClass)
    | Group(k: CharClass)

  /** ASCII upper-case letters to lower case; every other character unchanged. */
  function Lower(c: char): char
  {
    if 'A' <= c <= 'Z' then (c as int + 32) as char else c
  }

  /** `x` spells the lower-case `word` in any mix of cases. */
  predicate SameNoCase(x: string, word: string)
  {
    |x| == |word| && forall i :: 0 <= i < |x| ==> Lower(x[i]) == word[i]
  }

  /** The classes of the groups of `pat`, in order. */
  function GroupClasses(pat: seq<Piece>): seq<CharClass>
  {
    if pat == [] then []
    else if pat[0].Group? then [pat[0].k] + GroupClasses(pat[1..])
    else GroupClasses(pat[1..])
  }

  /**
   * Matches `pat` at the start of `s`, each repetition taking its longest
   * run; the result is the groups, each a non-empty run of its class.
   */
  function Scan(pat: seq<Piece>, s: string): (r: Option<seq<string>>)
    ensures r.Some? ==> |r.value| == |GroupClasses(pat)|
    ensures r.Some? ==> forall i :: 0 <= i < |r.value| ==>
              r.value[i] != [] && AllIn(GroupClasses(pat)[i], r.value[i])
    decreases |pat|
  {
    if pat == [] then Some([])
    else
      match pat[0]
      case Char(c) => if s != [] && s[0] == c then Scan(pat[1..], s[1..]) else None
      case NoCase(w) => if |w| <= |s| && SameNoCase(s[..|w|], w) then Scan(pat[1..], s[|w|..]) else None
      case Star(k) => Scan(pat[1..], s[Span(k, s)..])
      case Plus(k) => if Span(k, s) == 0 then None else Scan(pat[1..], s[Span(k, s)..])
      case Group(k) =>
        var n := Span(k, s);
        if n == 0 then None
        else
          match Scan(pat[1..], s[n..])
          case None => None
          case Some(groups) =>
            SpanBounds(k, s);
            GroupsCons(k, s[..n], groups, GroupClasses(pat[1..]));
            Some([s[..n]] + groups)
  }

  lemma GroupsCons(k: CharClass, g: string, groups: seq<string>, classes: seq<CharClass>)
    requires g != [] && AllIn(k, g) && |groups| == |classes|
    requires forall i :: 0 <= i < |groups| ==> groups[i] != [] && AllIn(classes[i], groups[i])
    ensures forall i :: 0 <= i < |groups| + 1 ==>
              ([g] + groups)[i] != [] && AllIn(([k] + classes)[i], ([g] + groups)[i])
  {
    forall i | 0 <= i < |groups| + 1
      ensures ([g] + groups)[i] != [] && AllIn(([k] + classes)[i], ([g] + groups)[i])
    {
      if i > 0 {
        assert ([g] + groups)[i] == groups[i - 1] && ([k] + classes)[i] == classes[i - 1];
      }
    }
  }

  /** The pieces of HDR up to its last `\d+`. */
  const Hdr: seq<Piece> :=
    [Char('#'), Star(Space), Plus(Digit), Char(':'), Star(Space), NoCase("get"),
     Plus(Space), Group(NonSpace), Plus(Space), Plus(Digit)]

  /** `HDR.match(line)` and its `group(1)`: a non-empty run of non-space characters. */
  function MatchHeader(line: string): (r: Option<string>)
    ensures r.Some? ==> r.value != [] && AllIn(NonSpace, r.value)
  {
    match Scan(Hdr, line)
    case None => None
    case Some(groups) =>
      assert GroupClasses(Hdr) == [NonSpace];
      Some(groups[0])
  }

  /** A line that matches the header pattern starts with `#`. */
  lemma HeaderStartsWithHash(line: string)
    ensures MatchHeader(line).Some? ==> StartsWith(line, "#")
  {
    if MatchHeader(line).Some? {
      ScanFirstChar(Hdr, line);
      assert line[..1] == "#";
    }
  }

  /** A pattern that starts with a literal character matches only text that starts with it. */
  lemma ScanFirstChar(pat: seq<Piece>, s: string)
    requires pat != [] && pat[0].Char? && Scan(pat, s).Some?
    ensures s != [] && s[0] == pat[0].c
  {
  }

  lemma ScanChar(pat: seq<Piece>, c: char, t: string)
    requires pat != [] && pat[0] == Char(c)
    ensures Scan(pat, [c] + t) == Scan(pat[1..], t)
  {
    assert ([c] + t)[1..] == t;
  }

  lemma ScanNoCase(pat: seq<Piece>, x: string, t: string)
    requires pat != [] && pat[0].NoCase? && SameNoCase(x, pat[0].word)
    ensures Scan(pat, x + t) == Scan(pat[1..], t)
  {
    assert (x + t)[..|x|] == x;
    assert (x + t)[|x|..] == t;
  }

  /** A repetition takes a run of its class that the end or a character outside the class ends. */
  lemma ScanRun(pat: seq<Piece>, g: string, t: string)
    requires pat != [] && (pat[0].Star? || (pat[0].Plus? && g != []))
    requires AllIn(pat[0].k, g) && (t == [] || !InClass(pat[0].k, t[0]))
    ensures Scan(pat, g + t) == Scan(pat[1..], t)
  {
    SpanOf(pat[0].k, g, t);
    assert (g + t)[|g|..] == t;
  }

  /** A group takes such a run and captures it. */
  lemma ScanGroup(pat: seq<Piece>, g: string, t: string)
    requires pat != [] && pat[0].Group? && g != []
    requires AllIn(pat[0].k, g) && (t == [] || !InClass(pat[0].k, t[0]))
    requires Scan(pat[1..], t).Some?
    ensures Scan(pat, g + t) == Some([g] + Scan(pat[1..], t).value)
  {
    SpanOf(pat[0].k, g, t);
    assert (g + t)[|g|..] == t;
    assert (g + t)[..|g|] == g;
  }

  /** A last `k+` needs only one character of its class. */
  lemma ScanLastPlus(pat: seq<Piece>, s: string)
    requires |pat| == 1 && pat[0].Plus? && s != [] && InClass(pat[0].k, s[0])
    ensures Scan(pat, s) == Some([])
  {
  }

  /** Up to `GET`: `#`, the section number and the colon, with the whitespace they allow. */
  lemma HeaderHead(sp0: string, num: string, sp1: string, t5: string)
    requires AllIn(Space, sp0) && AllIn(Space, sp1)
    requires num != [] && AllDigits(num)
    requires t5 != [] && !IsSpace(t5[0])
    ensures Scan(Hdr, ['#'] + (sp0 + (num + ([':'] + (sp1 + t5))))) == Scan(Hdr[5..], t5)
  {
    var t4 := sp1 + t5;
    var t3 := [':'] + t4;
    var t2 := num + t3;
    var t1 := sp0 + t2;
    assert Scan(Hdr[4..], t4) == Scan(Hdr[5..], t5) by {
      ScanRun(Hdr[4..], sp1, t5);
      assert Hdr[4..][1..] == Hdr[5..];
    }
    assert Scan(Hdr[3..], t3) == Scan(Hdr[4..], t4) by {
      ScanChar(Hdr[3..], ':', t4);
      assert Hdr[3..][1..] == Hdr[4..];
    }
    assert Scan(Hdr[2..], t2) == Scan(Hdr[3..], t3) by {
      ScanRun(Hdr[2..], num, t3);
      assert Hdr[2..][1..] == Hdr[3..];
    }
    assert Scan(Hdr[1..], t1) == Scan(Hdr[2..], t2) by {
      assert t2[0] == num[0];
      ScanRun(Hdr[1..], sp0, t2);
      assert Hdr[1..][1..] == Hdr[2..];
    }
    ScanChar(Hdr, '#', t1);
  }

  /** From `GET` on: the word, the path between whitespace, and a status number. */
  lemma HeaderTail(get: string, u: string, p: string, v: string, status: string, rest: string)
    requires SameNoCase(get, "get")
    requires u != [] && AllIn(Space, u) && v != [] && AllIn(Space, v)
    requires p != [] && AllIn(NonSpace, p)
    requires status != [] && AllDigits(status)
    ensures Scan(Hdr[5..], get + (u + (p + (v + (status + rest))))) == Some([p])
  {
    var t9 := status + rest;
    var t8 := v + t9;
    var t7 := p + t8;
    var t6 := u + t7;
    var t5 := get + t6;
    assert Scan(Hdr[9..], t9) == Some([]) by {
      ScanLastPlus(Hdr[9..], t9);
    }
    assert Scan(Hdr[8..], t8) == Some([]) by {
      assert t9[0] == status[0];
      ScanRun(Hdr[8..], v, t9);
      assert Hdr[8..][1..] == Hdr[9..];
    }
    assert Scan(Hdr[7..], t7) == Some([p]) by {
      assert t8[0] == v[0];
      ScanGroup(Hdr[7..], p, t8);
      assert Hdr[7..][1..] == Hdr[8..];
      assert [p] + [] == [p];
    }
    assert Scan(Hdr[6..], t6) == Some([p]) by {
      assert t7[0] == p[0];
      ScanRun(Hdr[6..], u, t7);
      assert Hdr[6..][1..] == Hdr[7..];
    }
    assert Scan(Hdr[5..], t5) == Some([p]) by {
      ScanNoCase(Hdr[5..], get, t6);
      assert Hdr[5..][1..] == Hdr[6..];
    }
  }

  /**
   * A header is matched when its parts are there: `p` is a non-empty run
   * of non-space characters, the number a non-empty run of digits, and `u`
   * and `v` are the non-empty whitespace around the path.
   */
  lemma MatchHeaderOf(sp0: string, num: string, sp1: string, get: string, u: string, p: string,
                      v: string, status: string, rest: string)
    requires AllIn(Space, sp0) && AllIn(Space, sp1)
    requires num != [] && AllDigits(num)
    requires SameNoCase(get, "get")
    requires u != [] && AllIn(Space, u) && v != [] && AllIn(Space, v)
    requires p != [] && AllIn(NonSpace, p)
    requires status != [] && AllDigits(status)
    ensures MatchHeader("#" + sp0 + num + ":" + sp1 + get + u + p + v + status + rest) == Some(p)
  {
    var t5 := get + (u + (p + (v + (status + rest))));
    HeaderTail(get, u, p, v, status, rest);
    assert t5[0] == get[0];
    HeaderHead(sp0, num, sp1, t5);
    HeaderLayout(sp0, num, sp1, get, u, p, v, status, rest);
  }

  lemma HeaderLayout(sp0: string, num: string, sp1: string, get: string, u: string, p: string,
                     v: string, status: string, rest: string)
    ensures "#" + sp0 + num + ":" + sp1 + get + u + p + v + status + rest ==
            ['#'] + (sp0 + (num + ([':'] + (sp1 + (get + (u + (p + (v + (status + rest)))))))))
  {
  }

  /** `cur`: the captured path, with `/` put in front when it lacks one. */
  function NormalisePath(p: string): (r: string)
    ensures StartsWith(r, "/")
    ensures StartsWith(p, "/") ==> r == p
    ensures !StartsWith(p, "/") ==> r == "/" + p
  {
    if StartsWith(p, "/") then p else "/" + p
  }

  // ---------------------------------------------------------------------
  // clean

  /** A comment begins here: `//` or `#`. */
  predicate CommentAt(s: string)
  {
    s != [] && (s[0] == '#' || (|s| >= 2 && s[0] == '/' && s[1] == '/'))
  }

  /**
   * `re.sub(r"//.*?$|#.*?$", "", text, flags=re.M)`: from each comment
   * start, everything up to the next `\n` (or to the end) goes; the `\n`
   * stays. `.` excludes only `\n`, and with re.M `$` matches before every
   * `\n`, so the lazy `.*?` stops exactly there.
   */
  function StripComments(s: string): (r: string)
    ensures |r| <= |s|
    decreases |s|
  {
    if s == [] then []
    else if CommentAt(s) then
      var n := Span(AnyButNewline, s);
      assert n > 0 by {
        assert InClass(AnyButNewline, s[0]);
      }
      StripComments(s[n..])
    else [s[0]] + StripComments(s[1..])
  }

  /** Where the first comment of a line starts, or the line's length. */
  function CommentStart(line: string): (i: nat)
    ensures i <= |line|
  {
    if line == [] || CommentAt(line) then 0 else 1 + CommentStart(line[1..])
  }

  /**
   * On a text without `\n`, the first comment start is the first position
   * where `//` or `#` begins, and every later character is removed.
   */
  lemma {:induction false} CommentStartIs(line: string)
    requires forall i :: 0 <= i < |line| ==> line[i] != '\n'
    ensures forall j :: 0 <= j < CommentStart(line) ==> !CommentAt(line[j..])
    ensures CommentStart(line) < |line| ==> CommentAt(line[CommentStart(line)..])
  {
    if line != [] && !CommentAt(line) {
      CommentStartIs(line[1..]);
      forall j | 0 <= j < CommentStart(line) ensures !CommentAt(line[j..]) {
        if j > 0 {
          assert line[j..] == line[1..][j - 1..];
        }
      }
      assert line[CommentStart(line)..] == line[1..][CommentStart(line[1..])..];
    }
  }

  /** Each line is cut at its first comment; the line break after it is kept. */
  lemma {:induction false} StripCommentsLine(line: string, rest: string)
    requires forall i :: 0 <= i < |line| ==> line[i] != '\n'
    ensures StripComments(line + ("\n" + rest)) == line[..CommentStart(line)] + ("\n" + StripComments(rest))
    decreases |line|
  {
    var t := "\n" + rest;
    var s := line + t;
    if line == [] {
      assert s == t;
      StripCommentsNewline(rest);
    } else if CommentAt(line) {
      CommentAtPrefix(line, t);
      assert AllIn(AnyButNewline, line);
      SpanOf(AnyButNewline, line, t);
      assert s[|line|..] == t;
      StripCommentsNewline(rest);
    } else {
      CommentAtPrefix(line, t);
      assert s[1..] == line[1..] + t;
      StripCommentsLine(line[1..], rest);
      assert line[..CommentStart(line)] == [line[0]] + line[1..][..CommentStart(line[1..])];
    }
  }

  lemma StripCommentsNewline(rest: string)
    ensures StripComments("\n" + rest) == "\n" + StripComments(rest)
  {
    assert ("\n" + rest)[1..] == rest;
  }

  /** A comment starts a text exactly when it starts its first part, unless that part is a lone `/`. */
  lemma CommentAtPrefix(line: string, t: string)
    requires line != [] && t != [] && t[0] != '/'
    ensures CommentAt(line + t) == CommentAt(line)
  {
    assert (line + t)[0] == line[0];
    if |line| >= 2 {
      assert (line + t)[1] == line[1];
    } else {
      assert (line + t)[1] == t[0];
    }
  }

  /** `text.replace("...", "null")`: left to right, without overlaps. */
  function ReplaceEllipsis(s: string): (r: string)
    ensures |r| >= |s|
  {
    if |s| >= 3 && s[0] == '.' && s[1] == '.' && s[2] == '.' then "null" + ReplaceEllipsis(s[3..])
    else if s == [] then []
    else [s[0]] + ReplaceEllipsis(s[1..])
  }

  /** A text that does not end with a dot is replaced on its own. */
  lemma {:induction false} ReplaceEllipsisAppend(a: string, x: string)
    requires a == [] || a[|a| - 1] != '.'
    ensures ReplaceEllipsis(a + x) == ReplaceEllipsis(a) + ReplaceEllipsis(x)
  {
    var s := a + x;
    if a == [] {
      assert s == x;
    } else if |a| >= 3 && a[0] == '.' && a[1] == '.' && a[2] == '.' {
      assert s[0] == '.' && s[1] == '.' && s[2] == '.';
      assert s[3..] == a[3..] + x;
      ReplaceEllipsisAppend(a[3..], x);
      AppendAssoc("null", ReplaceEllipsis(a[3..]), ReplaceEllipsis(x));
    } else {
      assert !(|s| >= 3 && s[0] == '.' && s[1] == '.' && s[2] == '.') by {
        if |a| == 1 {
          assert s[0] == a[0];
        } else if |a| == 2 {
          assert s[0] == a[0] && s[1] == a[1];
        } else {
          assert s[0] == a[0] && s[1] == a[1] && s[2] == a[2];
        }
      }
      assert s[1..] == a[1..] + x;
      ReplaceEllipsisAppend(a[1..], x);
      AppendAssoc([a[0]], ReplaceEllipsis(a[1..]), ReplaceEllipsis(x));
    }
  }

  /** Each `...` that no dot precedes becomes `null`. */
  lemma ReplaceEllipsisAt(a: string, b: string)
    requires a == [] || a[|a| - 1] != '.'
    ensures ReplaceEllipsis(a + "..." + b) == ReplaceEllipsis(a) + "null" + ReplaceEllipsis(b)
  {
    assert a + "..." + b == a + ("..." + b);
    ReplaceEllipsisAppend(a, "..." + b);
    assert ("..." + b)[3..] == b;
  }

  predicate IsCloser(c: char)
  {
    c == '}' || c == ']'
  }

  /**
   * `re.sub(r",\s*([}\]])", r"\1", text)`: a comma that only whitespace
   * separates from a closing brace or bracket goes, with that whitespace.
   * After a match the scan resumes after the bracket.
   */
  function DropTrailingCommas(s: string): (r: string)
    ensures |r| <= |s|
  {
    if s == [] then []
    else if s[0] == ',' then
      var t := s[1..];
      var rest := t[Span(Space, t)..];
      if rest != [] && IsCloser(rest[0]) then [rest[0]] + DropTrailingCommas(rest[1..])
      else [','] + DropTrailingCommas(t)
    else [s[0]] + DropTrailingCommas(s[1..])
  }

  /** One step of the substitution at the start of a non-empty text: what it writes. */
  function Emitted(s: string): string
    requires s != []
  {
    if s[0] == ',' then
      var t := s[1..];
      var rest := t[Span(Space, t)..];
      if rest != [] && IsCloser(rest[0]) then [rest[0]] else [',']
    else [s[0]]
  }

  /** One step of the substitution at the start of a non-empty text: where it resumes. */
  function Resumed(s: string): (r: string)
    requires s != []
    ensures |r| < |s|
  {
    if s[0] == ',' then
      var t := s[1..];
      var rest := t[Span(Space, t)..];
      if rest != [] && IsCloser(rest[0]) then rest[1..] else t
    else s[1..]
  }

  lemma DropTrailingCommasStep(s: string)
    requires s != []
    ensures DropTrailingCommas(s) == Emitted(s) + DropTrailingCommas(Resumed(s))
  {
  }

  /** Ended by neither a comma nor whitespace: ok for the split below. */
  predicate Unhooked(a: string)
  {
    a == [] || (a[|a| - 1] != ',' && !IsSpace(a[|a| - 1]))
  }

  /** The first step on `a + x` is the first step on `a`, when `a` is unhooked. */
  lemma StepAppend(a: string, x: string)
    requires a != [] && Unhooked(a)
    ensures Emitted(a + x) == Emitted(a) && Resumed(a + x) == Resumed(a) + x && Unhooked(Resumed(a))
  {
    if a[0] == ',' {
      CommaRun(a, x);
    } else {
      assert (a + x)[1..] == a[1..] + x;
    }
  }

  /** A text that ends with neither a comma nor whitespace is scrubbed on its own. */
  lemma {:induction false} DropTrailingCommasAppend(a: string, x: string)
    requires Unhooked(a)
    ensures DropTrailingCommas(a + x) == DropTrailingCommas(a) + DropTrailingCommas(x)
    decreases |a|
  {
    if a == [] {
      assert a + x == x;
    } else {
      StepAppend(a, x);
      DropTrailingCommasStep(a + x);
      DropTrailingCommasStep(a);
      DropTrailingCommasAppend(Resumed(a), x);
      AppendAssoc(Emitted(a), DropTrailingCommas(Resumed(a)), DropTrailingCommas(x));
    }
  }

  /**
   * After a comma in `a`, the whitespace run and the character that ends it
   * lie inside `a`, so what follows `a` does not change them.
   */
  lemma CommaRun(a: string, x: string)
    requires a != [] && a[0] == ',' && a[|a| - 1] != ',' && !IsSpace(a[|a| - 1])
    ensures var t := a[1..];
            var w := Span(Space, t);
            w < |t| && (a + x)[1..] == t + x && Span(Space, t + x) == w &&
            (t + x)[w..] == t[w..] + x && (t[w..] + x)[0] == t[w..][0] &&
            (t[w..] + x)[1..] == t[w..][1..] + x &&
            (t[w..][1..] == [] || t[w..][1..][|t[w..][1..]| - 1] == a[|a| - 1])
  {
    var t := a[1..];
    assert t != [] && Span(Space, t) < |t| by {
      assert !InClass(Space, t[|t| - 1]);
      SpanBounds(Space, t);
    }
    SpanAppend(Space, t, x);
    assert (a + x)[1..] == t + x;
  }

  /** A trailing comma and the whitespace after it go; the closing brace or bracket stays. */
  lemma DropTrailingCommasAt(a: string, ws: string, closer: char, b: string)
    requires Unhooked(a)
    requires AllIn(Space, ws) && IsCloser(closer)
    ensures DropTrailingCommas(a + ([','] + (ws + ([closer] + b)))) == DropTrailingCommas(a) + ([closer] + DropTrailingCommas(b))
  {
    var y := [','] + (ws + ([closer] + b));
    DropTrailingCommasAppend(a, y);
    TrailingCommaStep(ws, closer, b);
    DropTrailingCommasStep(y);
  }

  lemma TrailingCommaStep(ws: string, closer: char, b: string)
    requires AllIn(Space, ws) && IsCloser(closer)
    ensures var y := [','] + (ws + ([closer] + b));
            Emitted(y) == [closer] && Resumed(y) == b
  {
    var y := [','] + (ws + ([closer] + b));
    var t := y[1..];
    assert t == ws + ([closer] + b);
    SpanOf(Space, ws, [closer] + b);
    assert t[|ws|..] == [closer] + b;
    assert ([closer] + b)[1..] == b;
  }

  /** Text without `#` or `/` holds no comment, and the comment step leaves it as it is. */
  lemma {:induction false} StripCommentsNoComment(s: string)
    requires forall i :: 0 <= i < |s| ==> s[i] != '#' && s[i] != '/'
    ensures StripComments(s) == s
  {
    if s != [] {
      StripCommentsNoComment(s[1..]);
    }
  }

  /** Text without a dot is left as it is by the ellipsis step. */
  lemma {:induction false} ReplaceEllipsisNoDot(s: string)
    requires forall i :: 0 <= i < |s| ==> s[i] != '.'
    ensures ReplaceEllipsis(s) == s
  {
    if s != [] {
      ReplaceEllipsisNoDot(s[1..]);
    }
  }

  /** Text without a comma is left as it is by the trailing-comma step. */
  lemma {:induction false} DropTrailingCommasNoComma(s: string)
    requires forall i :: 0 <= i < |s| ==> s[i] != ','
    ensures DropTrailingCommas(s) == s
  {
    if s != [] {
      DropTrailingCommasNoComma(s[1..]);
    }
  }

  /** `clean`: comments, then ellipses, then trailing commas; no `#` survives it. */
  function Clean(text: string): (r: string)
    ensures NoHash(r)
  {
    StripCommentsNoHash(text);
    ReplaceEllipsisNoHash(StripComments(text));
    DropTrailingCommasNoHash(ReplaceEllipsis(StripComments(text)));
    DropTrailingCommas(ReplaceEllipsis(StripComments(text)))
  }

  predicate NoHash(s: string)
  {
    forall i :: 0 <= i < |s| ==> s[i] != '#'
  }

  lemma {:induction false} StripCommentsNoHash(s: string)
    ensures NoHash(StripComments(s))
    decreases |s|
  {
    if s != [] {
      if CommentAt(s) {
        assert InClass(AnyButNewline, s[0]);
        StripCommentsNoHash(s[Span(AnyButNewline, s)..]);
      } else {
        StripCommentsNoHash(s[1..]);
      }
    }
  }

  lemma {:induction false} ReplaceEllipsisNoHash(s: string)
    requires NoHash(s)
    ensures NoHash(ReplaceEllipsis(s))
  {
    if |s| >= 3 && s[0] == '.' && s[1] == '.' && s[2] == '.' {
      ReplaceEllipsisNoHash(s[3..]);
    } else if s != [] {
      ReplaceEllipsisNoHash(s[1..]);
    }
  }

  lemma {:induction false} DropTrailingCommasNoHash(s: string)
    requires NoHash(s)
    ensures NoHash(DropTrailingCommas(s))
  {
    if s != [] {
      if s[0] == ',' {
        var t := s[1..];
        var rest := t[Span(Space, t)..];
        if rest != [] && IsCloser(rest[0]) {
          DropTrailingCommasNoHash(rest[1..]);
        } else {
          DropTrailingCommasNoHash(t);
        }
      } else {
        DropTrailingCommasNoHash(s[1..]);
      }
    }
  }


  // ---------------------------------------------------------------------
  // load_routes

  /** What load_routes keeps as it walks the lines: `routes`, `cur` and `buf`. */
  datatype Loader<P> = Loader(routes: map<string, P>, cur: Option<string>, buf: seq<string>)

  /** `routes, cur, buf = {}, None, []`. */
  function Start<P>(): Loader<P>
  {
    Loader(map[], None, [])
  }

  /**
   * One line of the loop. A header first stores the pending section when
   * there is one; when its text does not parse, `continue` skips both
   * `buf.clear()` and the update of `cur`, so the header is lost. Any other
   * line is buffered once a header has been seen.
   */
  function Step<P>(loads: string -> Option<P>, st: Loader<P>, line: string): (r: Loader<P>)
    ensures MatchHeader(line).None? ==> r.routes == st.routes
    ensures r.cur.None? ==> r == st
  {
    match MatchHeader(line)
    case Some(p) =>
      if st.cur.Some? && st.buf != [] then
        match loads(Clean(JoinLines(st.buf)))
        case None => st
        case Some(v) => Loader(st.routes[st.cur.value := v], Some(NormalisePath(p)), [])
      else Loader(st.routes, Some(NormalisePath(p)), st.buf)
    case None =>
      if st.cur.Some? then Loader(st.routes, st.cur, st.buf + [line]) else st
  }

  /** The state after the loop has walked `lines` from `st`. */
  function Walk<P>(loads: string -> Option<P>, st: Loader<P>, lines: seq<string>): (r: Loader<P>)
    ensures r.cur.None? ==> r == st
  {
    if lines == [] then st
    else Step(loads, Walk(loads, st, lines[..|lines| - 1]), lines[|lines| - 1])
  }

  /** The flush after the loop: the last section is stored when it parses. */
  function Flush<P>(loads: string -> Option<P>, st: Loader<P>): map<string, P>
  {
    if st.cur.Some? && st.buf != [] then
      match loads(Clean(JoinLines(st.buf)))
      case None => st.routes
      case Some(v) => st.routes[st.cur.value := v]
    else st.routes
  }

  /** The file as `fp.exists()` and `fp.read_text(encoding='utf-8')` see it. */
  datatype SourceFile = Missing | Unreadable | Readable(raw: string)

  /** The lines the loop walks: the text read in text mode, split. */
  function LinesOf(raw: string): seq<string>
  {
    SplitLines(TranslateNewlines(raw))
  }

  /** What load_routes returns. */
  function LoadRoutesSpec<P>(loads: string -> Option<P>, file: SourceFile): (r: map<string, P>)
    ensures !file.Readable? ==> r == map[]
  {
    match file
    case Missing => map[]
    case Unreadable => map[]
    case Readable(raw) => Flush(loads, Walk(loads, Start(), LinesOf(raw)))
  }

  lemma WalkSnoc<P>(loads: string -> Option<P>, st: Loader<P>, lines: seq<string>, i: nat)
    requires i < |lines|
    ensures Walk(loads, st, lines[..i + 1]) == Step(loads, Walk(loads, st, lines[..i]), lines[i])
  {
    assert lines[..i + 1][..i] == lines[..i];
  }

  /** load_routes, walking the lines with `routes`, `cur` and `buf` as it goes. */
  method LoadRoutes<P>(loads: string -> Option<P>, file: SourceFile) returns (routes: map<string, P>)
    ensures routes == LoadRoutesSpec(loads, file)
  {
    routes := map[];
    if !file.Readable? {
      return;
    }
    var cur: Option<string> := None;
    var buf: seq<string> := [];
    var lines := LinesOf(file.raw);
    for i := 0 to |lines|
      invariant Loader(routes, cur, buf) == Walk(loads, Start(), lines[..i])
    {
      WalkSnoc(loads, Start(), lines, i);
      ghost var before := Loader(routes, cur, buf);
      var line := lines[i];
      var m := MatchHeader(line);
      if m.Some? {
        if cur.Some? && buf != [] {
          var parsed := loads(Clean(JoinLines(buf)));
          if parsed.None? {
            assert Step(loads, before, line) == before;
            continue;
          }
          routes := routes[cur.value := parsed.value];
          buf := [];
        }
        cur := Some(NormalisePath(m.value));
      } else if cur.Some? {
        buf := buf + [line];
      }
      assert Loader(routes, cur, buf) == Step(loads, before, line);
    }
    assert lines[..|lines|] == lines;
    ghost var walked := Loader(routes, cur, buf);
    if cur.Some? && buf != [] {
      var parsed := loads(Clean(JoinLines(buf)));
      if parsed.Some? {
        routes := routes[cur.value := parsed.value];
      }
    }
    assert routes == Flush(loads, walked);
  }

  // ---------------------------------------------------------------------
  // What load_routes guarantees

  /** Every stored path and the current path start with `/`, and nothing is buffered before a header. */
  ghost predicate Rooted<P>(st: Loader<P>)
  {
    (forall p :: p in st.routes ==> StartsWith(p, "/")) &&
    (st.cur.Some? ==> StartsWith(st.cur.value, "/")) &&
    (st.cur.None? ==> st.buf == [])
  }

  lemma {:induction false} WalkRooted<P>(loads: string -> Option<P>, st: Loader<P>, lines: seq<string>)
    requires Rooted(st)
    ensures Rooted(Walk(loads, st, lines))
  {
    if lines != [] {
      WalkRooted(loads, st, lines[..|lines| - 1]);
      StepRooted(loads, Walk(loads, st, lines[..|lines| - 1]), lines[|lines| - 1]);
    }
  }

  lemma StepRooted<P>(loads: string -> Option<P>, st: Loader<P>, line: string)
    requires Rooted(st)
    ensures Rooted(Step(loads, st, line))
  {
    var h := MatchHeader(line);
    if h.Some? && st.cur.Some? && st.buf != [] {
      var parsed := loads(Clean(JoinLines(st.buf)));
      if parsed.Some? {
        RootedPut(st.routes, st.cur.value, parsed.value);
      }
    }
  }

  lemma RootedPut<P>(routes: map<string, P>, key: string, v: P)
    requires forall p :: p in routes ==> StartsWith(p, "/")
    requires StartsWith(key, "/")
    ensures forall p :: p in routes[key := v] ==> StartsWith(p, "/")
  {
  }

  /** Every path load_routes returns starts with `/`. */
  lemma LoadRoutesRooted<P>(loads: string -> Option<P>, file: SourceFile)
    ensures forall p :: p in LoadRoutesSpec(loads, file) ==> StartsWith(p, "/")
  {
    if file.Readable? {
      WalkRooted(loads, Start(), LinesOf(file.raw));
    }
  }

  /** The paths the registration loop registers: those that start with `/`. */
  function Registered<P>(routes: map<string, P>): (r: set<string>)
    ensures forall p :: p in r <==> p in routes && StartsWith(p, "/")
  {
    set p | p in routes && StartsWith(p, "/")
  }

  /** The registration loop rejects no path that load_routes returns. */
  lemma RegisteredAll<P>(loads: string -> Option<P>, file: SourceFile)
    ensures Registered(LoadRoutesSpec(loads, file)) == LoadRoutesSpec(loads, file).Keys
  {
    LoadRoutesRooted(loads, file);
  }

  lemma {:induction false} WalkAppend<P>(loads: string -> Option<P>, st: Loader<P>, a: seq<string>, b: seq<string>)
    ensures Walk(loads, st, a + b) == Walk(loads, Walk(loads, st, a), b)
    decreases |b|
  {
    if b == [] {
      assert a + b == a;
    } else {
      var n := |b| - 1;
      assert (a + b)[..|a + b| - 1] == a + b[..n];
      assert (a + b)[|a + b| - 1] == b[n];
      WalkAppend(loads, st, a, b[..n]);
    }
  }

  predicate NoHeader(lines: seq<string>)
  {
    forall i :: 0 <= i < |lines| ==> MatchHeader(lines[i]).None?
  }

  /** Lines that are not headers are buffered once a header has been seen, and ignored before. */
  lemma {:induction false} WalkBody<P>(loads: string -> Option<P>, st: Loader<P>, lines: seq<string>)
    requires NoHeader(lines)
    ensures st.cur.Some? ==> Walk(loads, st, lines) == Loader(st.routes, st.cur, st.buf + lines)
    ensures st.cur.None? ==> Walk(loads, st, lines) == st
  {
    if lines != [] {
      var n := |lines| - 1;
      WalkBody(loads, st, lines[..n]);
      assert MatchHeader(lines[n]).None?;
      assert NoHeader(lines[..n]) by {
        forall i | 0 <= i < n ensures MatchHeader(lines[..n][i]).None? {
          assert lines[..n][i] == lines[i];
        }
      }
      assert st.buf + lines[..n] + [lines[n]] == st.buf + lines;
    }
  }

  /** Lines before the first header are ignored. */
  lemma PreambleIgnored<P>(loads: string -> Option<P>, preamble: seq<string>, lines: seq<string>)
    requires NoHeader(preamble)
    ensures Walk(loads, Start(), preamble + lines) == Walk(loads, Start(), lines)
  {
    WalkAppend(loads, Start(), preamble, lines);
    WalkBody(loads, Start(), preamble);
  }

  /**
   * A header that arrives when nothing is buffered stores no route: two
   * headers in a row leave the map as it was, with the second path current.
   */
  lemma EmptySectionNoRoute<P>(loads: string -> Option<P>, st: Loader<P>, h1: string, h2: string)
    requires st.buf == [] && MatchHeader(h1).Some? && MatchHeader(h2).Some?
    ensures Walk(loads, st, [h1, h2]) == Loader(st.routes, Some(NormalisePath(MatchHeader(h2).value)), [])
  {
    var mid := Step(loads, st, h1);
    StepHeaderEmpty(loads, st, h1);
    StepHeaderEmpty(loads, mid, h2);
    WalkOne(loads, st, h1);
    WalkSnoc(loads, st, [h1, h2], 1);
    assert [h1, h2][..2] == [h1, h2] && [h1, h2][..1] == [h1];
  }

  lemma WalkOne<P>(loads: string -> Option<P>, st: Loader<P>, line: string)
    ensures Walk(loads, st, [line]) == Step(loads, st, line)
  {
    assert [line][..0] == [];
  }

  /** A header with nothing buffered only changes the current path. */
  lemma StepHeaderEmpty<P>(loads: string -> Option<P>, st: Loader<P>, h: string)
    requires st.buf == [] && MatchHeader(h).Some?
    ensures Step(loads, st, h) == Loader(st.routes, Some(NormalisePath(MatchHeader(h).value)), [])
  {
  }

  /**
   * When the pending section does not parse, the next header is dropped
   * and the lines after it join the failed section, under the old path.
   */
  lemma FailedParseDropsHeader<P>(loads: string -> Option<P>, st: Loader<P>, header: string, body: seq<string>)
    requires st.cur.Some? && st.buf != [] && loads(Clean(JoinLines(st.buf))).None?
    requires MatchHeader(header).Some? && NoHeader(body)
    ensures Walk(loads, st, [header] + body) == Loader(st.routes, st.cur, st.buf + body)
  {
    WalkAppend(loads, st, [header], body);
    assert [header][..0] == [];
    WalkBody(loads, st, body);
  }

  /**
   * A section whose text parses is stored under its path when the next
   * header arrives, replacing what an earlier section with the same path
   * stored.
   */
  lemma ParsedSectionStored<P>(loads: string -> Option<P>, st: Loader<P>, header: string)
    requires st.cur.Some? && st.buf != [] && loads(Clean(JoinLines(st.buf))).Some?
    requires MatchHeader(header).Some?
    ensures Walk(loads, st, [header]) ==
            Loader(st.routes[st.cur.value := loads(Clean(JoinLines(st.buf))).value],
                   Some(NormalisePath(MatchHeader(header).value)), [])
  {
    assert [header][..0] == [];
  }
}
