/**
 * The two halves together: the text generate_output writes, read back by
 * load_routes. Each written block comes back as one route, under its
 * endpoint with a `/` in front when it lacks one, holding the payload of
 * its body, when the endpoint has no whitespace, no line of a body looks
 * like a header, and every body parses.
 */
module RoundTrip {
  import opened Wrappers
  import opened Text
  import D = Diagnostics
  import L = RouteLoader
  import RestConfig

  /** No carriage return anywhere in `s`. */
  predicate NoCR(s: string)
  {
    forall i :: 0 <= i < |s| ==> s[i] != '\r'
  }

  lemma NoCRAppend(a: string, b: string)
    requires NoCR(a) && NoCR(b)
    ensures NoCR(a + b)
  {
    forall i | 0 <= i < |a + b| ensures (a + b)[i] != '\r' {
      if i >= |a| {
        assert (a + b)[i] == b[i - |a|];
      }
    }
  }

  /** The text the loader buffers for a body, cleaned. */
  function PayloadText(body: string): string
  {
    L.Clean(JoinLines(SplitLines(body)))
  }

  /**
   * An entry that reads back as written: its endpoint is one run of
   * non-space characters, its body is what generate_output writes, and no
   * line of the body matches the header pattern.
   */
  predicate Wellformed(e: D.Entry)
  {
    e.endpoint != [] && AllIn(NonSpace, e.endpoint) && D.IsBody(e.body) && L.NoHeader(SplitLines(e.body))
  }

  /** Every entry's body parses (stated entry by entry in ParsesEach). */
  predicate Parses<P>(loads: string -> Option<P>, es: seq<D.Entry>)
  {
    es == [] || (Parses(loads, es[..|es| - 1]) && loads(PayloadText(es[|es| - 1].body)).Some?)
  }

  /** Every entry is wellformed (stated entry by entry in AllWellformedEach). */
  predicate AllWellformed(es: seq<D.Entry>)
  {
    es == [] || (AllWellformed(es[..|es| - 1]) && Wellformed(es[|es| - 1]))
  }

  /** Every entry is wellformed and its body parses. */
  predicate Faithful<P>(loads: string -> Option<P>, es: seq<D.Entry>)
  {
    Parses(loads, es) && AllWellformed(es)
  }

  lemma {:induction false} ParsesEach<P>(loads: string -> Option<P>, es: seq<D.Entry>)
    ensures Parses(loads, es) <==> forall i :: 0 <= i < |es| ==> loads(PayloadText(es[i].body)).Some?
  {
    if es != [] {
      var pre := es[..|es| - 1];
      ParsesEach(loads, pre);
      assert forall i :: 0 <= i < |pre| ==> pre[i] == es[i];
    }
  }

  lemma {:induction false} AllWellformedEach(es: seq<D.Entry>)
    ensures AllWellformed(es) <==> forall i :: 0 <= i < |es| ==> Wellformed(es[i])
  {
    if es != [] {
      var pre := es[..|es| - 1];
      AllWellformedEach(pre);
      assert forall i :: 0 <= i < |pre| ==> pre[i] == es[i];
    }
  }

  /** The routes the entries stand for: each endpoint's payload, a later entry replacing an earlier one. */
  function Expected<P>(loads: string -> Option<P>, es: seq<D.Entry>): map<string, P>
    requires Parses(loads, es)
  {
    if es == [] then map[]
    else
      var e := es[|es| - 1];
      Expected(loads, es[..|es| - 1])[L.NormalisePath(e.endpoint) := loads(PayloadText(e.body)).value]
  }

  /** A path is a route exactly when some entry's endpoint gives it. */
  lemma {:induction false} ExpectedKeys<P>(loads: string -> Option<P>, es: seq<D.Entry>, p: string)
    requires Parses(loads, es)
    ensures p in Expected(loads, es) <==> exists i :: 0 <= i < |es| && L.NormalisePath(es[i].endpoint) == p
  {
    if es != [] {
      var n := |es| - 1;
      var pre := es[..n];
      ExpectedKeys(loads, pre, p);
      if p in Expected(loads, pre) {
        var i :| 0 <= i < |pre| && L.NormalisePath(pre[i].endpoint) == p;
        assert es[i] == pre[i];
      }
      if exists i :: 0 <= i < |es| && L.NormalisePath(es[i].endpoint) == p {
        var i :| 0 <= i < |es| && L.NormalisePath(es[i].endpoint) == p;
        if i < n {
          assert pre[i] == es[i];
        }
      }
    }
  }

  /** The payload of a route is that of the last entry whose endpoint gives it. */
  lemma {:induction false} ExpectedLastWins<P>(loads: string -> Option<P>, es: seq<D.Entry>, p: string, i: nat)
    requires Parses(loads, es)
    requires i < |es| && L.NormalisePath(es[i].endpoint) == p
    requires forall j :: i < j < |es| ==> L.NormalisePath(es[j].endpoint) != p
    ensures p in Expected(loads, es)
    ensures Some(Expected(loads, es)[p]) == loads(PayloadText(es[i].body))
  {
    var n := |es| - 1;
    var pre := es[..n];
    if i < n {
      assert pre[i] == es[i];
      assert forall j :: i < j < |pre| ==> pre[j] == es[j];
      ExpectedLastWins(loads, pre, p, i);
    }
  }

  // ---------------------------------------------------------------------
  // The written text, line by line

  /** The lines of block `k`: its header, then the lines of its body. */
  function BlockLines(k: nat, e: D.Entry): seq<string>
  {
    [D.HeaderLine(k, e.endpoint)] + SplitLines(e.body)
  }

  /** The lines of the blocks of `es`, numbered from `k`. */
  function Lines(es: seq<D.Entry>, k: nat): seq<string>
  {
    if es == [] then [] else BlockLines(k, es[0]) + Lines(es[1..], k + 1)
  }

  lemma {:induction false} LinesSnoc(es: seq<D.Entry>, e: D.Entry, k: nat)
    ensures Lines(es + [e], k) == Lines(es, k) + BlockLines(k + |es|, e)
    decreases |es|
  {
    if es == [] {
      assert [e][1..] == [];
    } else {
      assert (es + [e])[0] == es[0] && (es + [e])[1..] == es[1..] + [e];
      LinesSnoc(es[1..], e, k + 1);
      AppendAssoc(BlockLines(k, es[0]), Lines(es[1..], k + 1), BlockLines(k + |es|, e));
    }
  }

  /** The header line as its pattern's parts. */
  lemma HeaderLineParts(k: nat, p: string)
    ensures D.HeaderLine(k, p) ==
            "#" + " " + NatToString(k) + ":" + " " + "GET" + " " + p + " " + "200" + " OK"
  {
  }

  /** A written header line matches the header pattern, and its group is the endpoint. */
  lemma HeaderMatches(k: nat, p: string)
    requires p != [] && AllIn(NonSpace, p)
    ensures L.MatchHeader(D.HeaderLine(k, p)) == Some(p)
  {
    HeaderLineParts(k, p);
    assert L.SameNoCase("GET", "get");
    assert AllDigits("200");
    L.MatchHeaderOf(" ", NatToString(k), " ", "GET", " ", p, " ", "200", " OK");
  }

  /**
   * A header line is one line: it holds no line boundary, ends with `K`,
   * and holds no carriage return.
   */
  lemma HeaderLineIsLine(k: nat, p: string)
    requires AllIn(NonSpace, p)
    ensures var h := D.HeaderLine(k, p);
            h != [] && h[|h| - 1] == 'K' && NoLineBreak(h) && NoCR(h)
  {
    var h := D.HeaderLine(k, p);
    var num := NatToString(k);
    assert h == "# " + num + ": GET " + p + " 200 OK";
    forall i | 0 <= i < |h| ensures !IsLineBreak(h[i]) && h[i] != '\r' {
      if 2 <= i < 2 + |num| {
        assert h[i] == num[i - 2];
      } else if 2 + |num| + 6 <= i < 2 + |num| + 6 + |p| {
        assert h[i] == p[i - (2 + |num| + 6)];
        LineBreakIsSpace(h[i]);
      }
    }
  }

  /** A block and what follows it, regrouped around the line break after the header. */
  lemma BlockLayout(k: nat, e: D.Entry, rest: string)
    ensures D.Block(k, e) + rest == D.HeaderLine(k, e.endpoint) + "\n" + (e.body + "\n" + rest)
  {
  }

  /** A body's last character is not a line boundary. */
  lemma BodyEnd(b: string)
    requires D.IsBody(b)
    ensures b != [] && !IsLineBreak(b[|b| - 1])
  {
    LineBreakIsSpace(b[|b| - 1]);
  }

  /** The written text splits into the header and body lines of the blocks. */
  lemma {:induction false} RenderLines(es: seq<D.Entry>, k: nat)
    requires forall i :: 0 <= i < |es| ==> Wellformed(es[i])
    ensures SplitLines(D.Render(es, k)) == Lines(es, k)
    ensures NoCR(D.Render(es, k))
    decreases |es|
  {
    if es != [] {
      var e := es[0];
      assert Wellformed(e);
      var h := D.HeaderLine(k, e.endpoint);
      var r := D.Render(es[1..], k + 1);
      assert forall i :: 0 <= i < |es[1..]| ==> es[1..][i] == es[i + 1];
      RenderLines(es[1..], k + 1);
      HeaderLineIsLine(k, e.endpoint);
      BodyEnd(e.body);
      BlockLayout(k, e, r);
      SplitLinesAppend(h, e.body + "\n" + r);
      SplitLinesAppend(e.body, r);
      SplitLinesOneLine(h);
      assert SplitLines(D.Render(es, k)) == [h] + (SplitLines(e.body) + Lines(es[1..], k + 1));
      AppendAssoc([h], SplitLines(e.body), Lines(es[1..], k + 1));
      assert NoCR("\n");
      NoCRAppend(h, "\n");
      NoCRAppend(h + "\n", e.body + "\n" + r) by {
        NoCRAppend(e.body, "\n");
        NoCRAppend(e.body + "\n", r);
      }
    }
  }

  // ---------------------------------------------------------------------
  // Reading the blocks back

  /**
   * Walking one block from a state whose pending section, if any, parses:
   * the pending section is stored as the final flush would store it, and
   * the block's body becomes the new pending section.
   */
  lemma WalkBlock<P>(loads: string -> Option<P>, st: L.Loader<P>, k: nat, e: D.Entry)
    requires Wellformed(e)
    requires st.cur.Some? || st.buf == []
    requires st.cur.Some? && st.buf != [] ==> loads(L.Clean(JoinLines(st.buf))).Some?
    ensures L.Walk(loads, st, BlockLines(k, e)) ==
            L.Loader(L.Flush(loads, st), Some(L.NormalisePath(e.endpoint)), SplitLines(e.body))
  {
    var h := D.HeaderLine(k, e.endpoint);
    HeaderMatches(k, e.endpoint);
    var body := SplitLines(e.body);
    L.WalkAppend(loads, st, [h], body);
    var mid := L.Walk(loads, st, [h]);
    if st.buf != [] {
      L.ParsedSectionStored(loads, st, h);
    } else {
      L.WalkOne(loads, st, h);
      L.StepHeaderEmpty(loads, st, h);
    }
    assert mid == L.Loader(L.Flush(loads, st), Some(L.NormalisePath(e.endpoint)), []);
    L.WalkBody(loads, mid, body);
    assert [] + body == body;
  }

  /**
   * The loader's state after the blocks of `es`: the routes of all but the
   * last block stored, and the last block pending.
   */
  function Pending<P>(loads: string -> Option<P>, es: seq<D.Entry>): L.Loader<P>
    requires Parses(loads, es)
  {
    if es == [] then L.Start()
    else
      var e := es[|es| - 1];
      L.Loader(Expected(loads, es[..|es| - 1]), Some(L.NormalisePath(e.endpoint)), SplitLines(e.body))
  }

  /** The final flush stores the pending block. */
  lemma FlushPending<P>(loads: string -> Option<P>, es: seq<D.Entry>)
    requires Faithful(loads, es)
    ensures L.Flush(loads, Pending(loads, es)) == Expected(loads, es)
  {
    if es != [] {
      assert Wellformed(es[|es| - 1]);
    }
  }

  /** Walking the blocks of `es` leaves the loader in the pending state of `es`. */
  lemma {:induction false} WalkRendered<P>(loads: string -> Option<P>, es: seq<D.Entry>)
    requires Faithful(loads, es)
    ensures L.Walk(loads, L.Start(), Lines(es, 1)) == Pending(loads, es)
    decreases |es|
  {
    if es == [] {
      assert Lines(es, 1) == [];
    } else {
      var pre := es[..|es| - 1];
      WalkRendered(loads, pre);
      PendingNext(loads, es);
      WalkLinesLast(loads, es);
    }
  }

  /** Walking the blocks of `es` walks those of all but the last, then the last. */
  lemma WalkLinesLast<P>(loads: string -> Option<P>, es: seq<D.Entry>)
    requires es != []
    ensures L.Walk(loads, L.Start(), Lines(es, 1)) ==
            L.Walk(loads, L.Walk(loads, L.Start(), Lines(es[..|es| - 1], 1)), BlockLines(|es|, es[|es| - 1]))
  {
    var pre := es[..|es| - 1];
    assert es == pre + [es[|es| - 1]];
    WalkLinesSnoc(loads, pre, es[|es| - 1]);
  }

  /** Walking the lines of the blocks of `pre + [e]` walks those of `pre`, then those of `e`. */
  lemma WalkLinesSnoc<P>(loads: string -> Option<P>, pre: seq<D.Entry>, e: D.Entry)
    ensures L.Walk(loads, L.Start(), Lines(pre + [e], 1)) ==
            L.Walk(loads, L.Walk(loads, L.Start(), Lines(pre, 1)), BlockLines(|pre| + 1, e))
  {
    LinesSnoc(pre, e, 1);
    L.WalkAppend(loads, L.Start(), Lines(pre, 1), BlockLines(1 + |pre|, e));
  }

  /** One more block: the pending block is stored and the new one is pending. */
  lemma PendingNext<P>(loads: string -> Option<P>, es: seq<D.Entry>)
    requires Faithful(loads, es) && es != []
    ensures L.Walk(loads, Pending(loads, es[..|es| - 1]), BlockLines(|es|, es[|es| - 1])) == Pending(loads, es)
  {
    var pre := es[..|es| - 1];
    var e := es[|es| - 1];
    assert Faithful(loads, pre) && Wellformed(e);
    var st := Pending(loads, pre);
    if pre != [] {
      assert Wellformed(pre[|pre| - 1]);
    }
    WalkBlock(loads, st, |es|, e);
    FlushPending(loads, pre);
  }

  /**
   * load_routes on a file that holds the text generate_output writes for
   * `es` gives back one route per endpoint, holding the payload of the
   * last block written for it.
   */
  lemma RenderRoundTrip<P>(loads: string -> Option<P>, es: seq<D.Entry>)
    requires Faithful(loads, es)
    ensures L.LoadRoutesSpec(loads, L.Readable(D.Render(es, 1))) == Expected(loads, es)
  {
    AllWellformedEach(es);
    RenderLines(es, 1);
    WalkRendered(loads, es);
    FlushPending(loads, es);
  }

  /**
   * The whole pipeline: the output file generated from the configuration,
   * loaded back, holds one route per selected entry's endpoint, as
   * described by Expected, when every selected endpoint is one run of
   * non-space characters, no body line looks like a header, and every
   * body parses.
   */
  lemma GeneratedRoundTrip<P>(loads: string -> Option<P>, config: RestConfig.Config, ctx: D.Context)
    requires forall i :: 0 <= i < |D.Selected(config, ctx)| ==>
               var e := D.Selected(config, ctx)[i];
               AllIn(NonSpace, e.endpoint) && L.NoHeader(SplitLines(e.body)) &&
               loads(PayloadText(e.body)).Some?
    ensures Parses(loads, D.Selected(config, ctx))
    ensures L.LoadRoutesSpec(loads, L.Readable(D.Render(D.Selected(config, ctx), 1))) ==
            Expected(loads, D.Selected(config, ctx))
  {
    var es := D.Selected(config, ctx);
    D.SelectedOrder(config, ctx);
    forall i | 0 <= i < |es| ensures Wellformed(es[i]) {
      var r := D.DecideAt(config, ctx, D.WrittenIndices(config, ctx)[i]);
      assert r == Some(es[i]);
    }
    AllWellformedEach(es);
    ParsesEach(loads, es);
    RenderRoundTrip(loads, es);
  }

  /**
   * When a body breaks lines only with `\n`, the loader's text for it is
   * the body itself, so the payload is the parse of the cleaned body.
   */
  lemma PayloadOfPlainBody(body: string)
    requires D.IsBody(body)
    requires forall i :: 0 <= i < |body| && IsLineBreak(body[i]) ==> body[i] == '\n'
    ensures PayloadText(body) == L.Clean(body)
  {
    BodyEnd(body);
    JoinSplitLines(body);
  }

  /** A body none of whose lines starts with `#` has no line that matches the header pattern. */
  lemma NoHeaderWithoutHash(lines: seq<string>)
    requires forall i :: 0 <= i < |lines| ==> !StartsWith(lines[i], "#")
    ensures L.NoHeader(lines)
  {
    forall i | 0 <= i < |lines| ensures L.MatchHeader(lines[i]).None? {
      L.HeaderStartsWithHash(lines[i]);
    }
  }
}
