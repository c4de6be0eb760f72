/**
 * generate_diagnostics.py: collect the JSON files of a diagnostics
 * directory by stem, then write one "# N: GET <path> 200 OK" block per
 * configured API whose version rule selects a path and whose file has
 * content.
 */
module Diagnostics {
  import opened Wrappers
  import opened Text
  import opened VersionRules
  import opened RestConfig

  // ---------------------------------------------------------------------
  // find_json_files

  /**
   * The dictionary that `d[stem] = path` builds over a listing of
   * (stem, path) pairs: a later pair with the same stem overwrites an
   * earlier one.
   */
  function Collect(listing: seq<(string, string)>): (d: map<string, string>)
    ensures forall stem :: stem in d ==> exists i :: 0 <= i < |listing| && listing[i] == (stem, d[stem])
  {
    if listing == [] then map[]
    else
      var last := listing[|listing| - 1];
      Collect(listing[..|listing| - 1])[last.0 := last.1]
  }

  /** Extending a listing by one pair adds or overwrites that stem. */
  lemma CollectSnoc(listing: seq<(string, string)>, i: nat)
    requires i < |listing|
    ensures Collect(listing[..i + 1]) == Collect(listing[..i])[listing[i].0 := listing[i].1]
  {
    assert listing[..i + 1][..i] == listing[..i];
  }

  /** The stems collected are exactly the stems listed. */
  lemma {:induction false} CollectKeys(listing: seq<(string, string)>, stem: string)
    ensures stem in Collect(listing) <==> exists i :: 0 <= i < |listing| && listing[i].0 == stem
  {
    if listing != [] {
      var n := |listing| - 1;
      var init := listing[..n];
      CollectKeys(init, stem);
      assert forall i :: 0 <= i < n ==> init[i] == listing[i];
    }
  }

  /** A stem is mapped to the path of its last occurrence in the listing. */
  lemma {:induction false} CollectLastWins(listing: seq<(string, string)>, i: nat)
    requires i < |listing|
    requires forall j :: i < j < |listing| ==> listing[j].0 != listing[i].0
    ensures listing[i].0 in Collect(listing) && Collect(listing)[listing[i].0] == listing[i].1
  {
    var n := |listing| - 1;
    if i < n {
      var init := listing[..n];
      assert init[i] == listing[i];
      forall j | i < j < |init| ensures init[j].0 != init[i].0 {
        assert init[j] == listing[j];
      }
      CollectLastWins(init, i);
    }
  }

  /** Collecting one listing after another overwrites with the second. */
  lemma {:induction false} CollectAppend(a: seq<(string, string)>, b: seq<(string, string)>)
    ensures Collect(a + b) == Collect(a) + Collect(b)
    decreases |b|
  {
    if b == [] {
      assert a + b == a;
    } else {
      var n := |b| - 1;
      assert (a + b)[..|a + b| - 1] == a + b[..n];
      CollectAppend(a, b[..n]);
      MapUnionUpdate(Collect(a), Collect(b[..n]), b[n].0, b[n].1);
    }
  }

  lemma MapUnionUpdate<K, V>(m: map<K, V>, n: map<K, V>, k: K, v: V)
    ensures (m + n)[k := v] == m + n[k := v]
  {
  }

  /**
   * The files of the directory root are collected, then those of its
   * `commercial` subdirectory when it exists (None when it does not); a
   * commercial file overwrites a root file of the same stem. Each listing
   * holds the (stem, path) pairs of the `*.json` files in glob order.
   */
  method FindJsonFiles(root: seq<(string, string)>, commercial: Option<seq<(string, string)>>)
    returns (jsonFiles: map<string, string>)
    ensures jsonFiles == Collect(root) + Collect(commercial.GetOr([]))
    ensures jsonFiles == Collect(root + commercial.GetOr([]))
  {
    jsonFiles := map[];
    for i := 0 to |root|
      invariant jsonFiles == Collect(root[..i])
    {
      CollectSnoc(root, i);
      jsonFiles := jsonFiles[root[i].0 := root[i].1];
    }
    assert root[..|root|] == root;
    if commercial.Some? {
      var files := commercial.value;
      for i := 0 to |files|
        invariant jsonFiles == Collect(root) + Collect(files[..i])
      {
        CollectSnoc(files, i);
        MapUnionUpdate(Collect(root), Collect(files[..i]), files[i].0, files[i].1);
        jsonFiles := jsonFiles[files[i].0 := files[i].1];
      }
      assert files[..|files|] == files;
    }
    CollectAppend(root, commercial.GetOr([]));
  }

  // ---------------------------------------------------------------------
  // generate_output: which entries are written

  /**
   * What generate_output works from besides the configuration: the stems
   * found by find_json_files, the cluster version, and the files it can
   * read, each with its raw text (a file that is missing or cannot be
   * decoded is absent, which is the case its `except` clause skips).
   */
  datatype Context = Context(jsonFiles: map<string, string>, esVersion: string, files: map<string, string>)

  /** One written block: the API path of its header and the text under it. */
  datatype Entry = Entry(endpoint: string, body: string)

  /** The text generate_output writes for a file: read in text mode, then stripped. */
  function Content(raw: string): string
  {
    Strip(TranslateNewlines(raw))
  }

  /** A written body is non-empty, has no `\r`, and begins and ends with a non-space. */
  predicate IsBody(b: string)
  {
    b != [] && !IsSpace(b[0]) && !IsSpace(b[|b| - 1]) &&
    forall i :: 0 <= i < |b| ==> b[i] != '\r'
  }

  lemma ContentIsBody(raw: string)
    requires Content(raw) != []
    ensures IsBody(Content(raw))
  {
    var t := TranslateNewlines(raw);
    StripSlice(t);
    var k := Span(Space, t);
    var b := Content(raw);
    forall i | 0 <= i < |b| ensures b[i] != '\r' {
      assert b[i] == t[k + i];
    }
  }

  /**
   * The entry generate_output writes for one item of the configuration,
   * or None when it skips the item.
   */
  function Decide(name: string, spec: ApiSpec, ctx: Context): (r: Option<Entry>)
    ensures r.Some? ==> r.value.endpoint != [] && IsBody(r.value.body)
  {
    if StartsWith(name, "#") || spec.NotMapping? || ExtensionOf(spec) != DefaultExtension then None
    else
      match MatchingEndpoint(spec.versions, ctx.esVersion)
      case None => None
      case Some(endpoint) =>
        if endpoint == [] || name !in ctx.jsonFiles || ctx.jsonFiles[name] !in ctx.files then None
        else
          var body := Content(ctx.files[ctx.jsonFiles[name]]);
          if body == [] then None
          else
            ContentIsBody(ctx.files[ctx.jsonFiles[name]]);
            Some(Entry(endpoint, body))
  }

  /** Some rule of `versions` holds of the version, and the first that holds names a non-empty path. */
  predicate SelectsPath(versions: seq<(string, string)>, esVersion: string)
  {
    (exists i :: 0 <= i < |versions| && EvaluateVersionRule(esVersion, versions[i].0)) &&
    MatchingEndpoint(versions, esVersion) != Some([])
  }

  /**
   * An item is written exactly when its name is not a comment, its spec is
   * a mapping with the `.json` extension, a rule selects a non-empty path,
   * its stem was found, and the file reads to a text that is not blank;
   * what is written is that path and that stripped text.
   */
  lemma DecideWritten(name: string, spec: ApiSpec, ctx: Context)
    ensures Decide(name, spec, ctx).Some? <==>
            !StartsWith(name, "#") && spec.Mapping? && ExtensionOf(spec) == ".json" &&
            SelectsPath(spec.versions, ctx.esVersion) &&
            name in ctx.jsonFiles && ctx.jsonFiles[name] in ctx.files &&
            Content(ctx.files[ctx.jsonFiles[name]]) != []
    ensures Decide(name, spec, ctx).Some? ==>
            Some(Decide(name, spec, ctx).value.endpoint) == MatchingEndpoint(spec.versions, ctx.esVersion) &&
            Decide(name, spec, ctx).value.body == Content(ctx.files[ctx.jsonFiles[name]])
  {
    if spec.Mapping? {
      MatchingEndpointNone(spec.versions, ctx.esVersion);
    }
  }

  /** Decide applied to item `i` of the configuration. */
  function DecideAt(config: Config, ctx: Context, i: nat): Option<Entry>
    requires i < |config|
  {
    Decide(config[i].0, config[i].1, ctx)
  }

  /** The decision for each item, in item order. */
  function Decisions(config: Config, ctx: Context): seq<Option<Entry>>
  {
    if config == [] then [] else Decisions(config[..|config| - 1], ctx) + [DecideAt(config, ctx, |config| - 1)]
  }

  lemma {:induction false} DecisionsAt(config: Config, ctx: Context)
    ensures |Decisions(config, ctx)| == |config|
    ensures forall i :: 0 <= i < |config| ==> Decisions(config, ctx)[i] == DecideAt(config, ctx, i)
  {
    if config != [] {
      var n := |config| - 1;
      var init := config[..n];
      DecisionsAt(init, ctx);
      forall i | 0 <= i < n ensures Decisions(config, ctx)[i] == DecideAt(config, ctx, i) {
        assert init[i] == config[i];
        assert Decisions(config, ctx)[i] == Decisions(init, ctx)[i];
      }
    }
  }

  /** The values held by the `Some` elements of `ds`, in order. */
  function Somes<T>(ds: seq<Option<T>>): (r: seq<T>)
    ensures |r| <= |ds|
  {
    if ds == [] then []
    else
      var n := |ds| - 1;
      match ds[n]
      case None => Somes(ds[..n])
      case Some(v) => Somes(ds[..n]) + [v]
  }

  /** The positions of the `Some` elements of `ds`, in order. */
  function SomeIndices<T>(ds: seq<Option<T>>): seq<nat>
  {
    if ds == [] then []
    else
      var n := |ds| - 1;
      if ds[n].Some? then SomeIndices(ds[..n]) + [n] else SomeIndices(ds[..n])
  }

  /** One position is recorded per value kept, and it holds that value. */
  lemma {:induction false} SomesAt<T>(ds: seq<Option<T>>)
    ensures |SomeIndices(ds)| == |Somes(ds)|
    ensures forall j :: 0 <= j < |SomeIndices(ds)| ==>
              SomeIndices(ds)[j] < |ds| && ds[SomeIndices(ds)[j]] == Some(Somes(ds)[j])
  {
    if ds != [] {
      var n := |ds| - 1;
      var init := ds[..n];
      SomesAt(init);
      forall j | 0 <= j < |SomeIndices(init)| ensures ds[SomeIndices(init)[j]] == init[SomeIndices(init)[j]] {
      }
    }
  }

  /** The recorded positions increase. */
  lemma {:induction false} SomeIndicesIncreasing<T>(ds: seq<Option<T>>)
    ensures forall j :: 0 <= j < |SomeIndices(ds)| ==> SomeIndices(ds)[j] < |ds|
    ensures forall j, j' :: 0 <= j < j' < |SomeIndices(ds)| ==> SomeIndices(ds)[j] < SomeIndices(ds)[j']
  {
    if ds != [] {
      SomeIndicesIncreasing(ds[..|ds| - 1]);
    }
  }

  /** A position is recorded exactly when its element is a `Some`. */
  lemma {:induction false} SomeIndicesExactly<T>(ds: seq<Option<T>>)
    ensures forall i :: 0 <= i < |ds| ==> (ds[i].Some? <==> i in SomeIndices(ds))
  {
    if ds != [] {
      var n := |ds| - 1;
      var init := ds[..n];
      SomeIndicesExactly(init);
      SomeIndicesIncreasing(init);
      forall i | 0 <= i < |ds| ensures ds[i].Some? <==> i in SomeIndices(ds) {
        if i < n {
          assert init[i] == ds[i];
        } else {
          assert n !in SomeIndices(init);
        }
      }
    }
  }

  /** The entries written for the items of `config`, in item order. */
  function Selected(config: Config, ctx: Context): (es: seq<Entry>)
    ensures |es| <= |config|
    ensures forall j :: 0 <= j < |es| ==> es[j].endpoint != [] && IsBody(es[j].body)
  {
    DecisionsAt(config, ctx);
    SomesAt(Decisions(config, ctx));
    Somes(Decisions(config, ctx))
  }

  /** The positions of the items that are written, in increasing order. */
  function WrittenIndices(config: Config, ctx: Context): seq<nat>
  {
    SomeIndices(Decisions(config, ctx))
  }

  /**
   * The written entries are the decisions of the written items, one for
   * one and in the order of the items; the written items are exactly those
   * that Decide keeps.
   */
  lemma SelectedOrder(config: Config, ctx: Context)
    ensures |WrittenIndices(config, ctx)| == |Selected(config, ctx)|
    ensures forall j :: 0 <= j < |WrittenIndices(config, ctx)| ==>
              WrittenIndices(config, ctx)[j] < |config| &&
              DecideAt(config, ctx, WrittenIndices(config, ctx)[j]) == Some(Selected(config, ctx)[j])
    ensures forall j, j' :: 0 <= j < j' < |WrittenIndices(config, ctx)| ==>
              WrittenIndices(config, ctx)[j] < WrittenIndices(config, ctx)[j']
    ensures forall i :: 0 <= i < |config| ==>
              (DecideAt(config, ctx, i).Some? <==> i in WrittenIndices(config, ctx))
  {
    var ds := Decisions(config, ctx);
    DecisionsAt(config, ctx);
    SomesAt(ds);
    SomeIndicesIncreasing(ds);
    SomeIndicesExactly(ds);
  }

  lemma TakeSnoc<T>(s: seq<T>, i: nat)
    requires i < |s|
    ensures s[..i + 1] == s[..i] + [s[i]]
  {
  }

  lemma SomesSnoc<T>(ds: seq<Option<T>>, d: Option<T>)
    ensures Somes(ds + [d]) == match d case None => Somes(ds) case Some(v) => Somes(ds) + [v]
  {
    assert (ds + [d])[..|ds|] == ds;
  }

  // ---------------------------------------------------------------------
  // generate_output: the text written

  /** The header line of block `k`, without its line break. */
  function HeaderLine(k: nat, endpoint: string): string
  {
    "# " + NatToString(k) + ": GET " + endpoint + " 200 OK"
  }

  /** Block `k`: its header line, the body, and a line break after each. */
  function Block(k: nat, e: Entry): string
  {
    HeaderLine(k, e.endpoint) + "\n" + e.body + "\n"
  }

  /** The blocks of `es`, numbered from `k` on. */
  function Render(es: seq<Entry>, k: nat): (r: string)
    ensures r == [] <==> es == []
    ensures r != [] ==> r[|r| - 1] == '\n'
  {
    if es == [] then [] else Block(k, es[0]) + Render(es[1..], k + 1)
  }

  /** One more entry adds one more block, numbered after the others. */
  lemma {:induction false} RenderSnoc(es: seq<Entry>, e: Entry, k: nat)
    ensures Render(es + [e], k) == Render(es, k) + Block(k + |es|, e)
  {
    if es == [] {
      assert Render([e], k) == Block(k, e) + Render([], k + 1);
    } else {
      assert (es + [e])[1..] == es[1..] + [e];
      RenderSnoc(es[1..], e, k + 1);
      AppendAssoc(Block(k, es[0]), Render(es[1..], k + 1), Block(k + |es|, e));
    }
  }

  /** Writing the header, the body and a line break after the blocks so far adds the next block. */
  lemma WriteBlock(prior: seq<Entry>, e: Entry, out: string, counter: nat)
    requires out == Render(prior, 1) && counter == |prior| + 1
    ensures out + HeaderLine(counter, e.endpoint) + "\n" + e.body + "\n" == Render(prior + [e], 1)
  {
    RenderSnoc(prior, e, 1);
    AppendBlock(out, HeaderLine(counter, e.endpoint), e.body);
  }

  lemma AppendBlock(out: string, h: string, b: string)
    ensures out + h + "\n" + b + "\n" == out + (h + "\n" + b + "\n")
  {
  }

  /**
   * The checks of one loop iteration for item (name, spec), with `return`
   * where the loop says `continue`: either nothing is written, or the
   * item's block is written under number `counter` and the counter moves on.
   */
  method WriteItem(name: string, spec: ApiSpec, ctx: Context, out: string, counter: nat)
    returns (out': string, counter': nat)
    ensures Decide(name, spec, ctx).None? ==> out' == out && counter' == counter
    ensures Decide(name, spec, ctx).Some? ==>
              var e := Decide(name, spec, ctx).value;
              out' == out + HeaderLine(counter, e.endpoint) + "\n" + e.body + "\n" && counter' == counter + 1
  {
    out', counter' := out, counter;
    if StartsWith(name, "#") {
      return;
    }
    if !spec.Mapping? {
      return;
    }
    var versions := spec.versions;
    var extension := ExtensionOf(spec);
    if extension != ".json" {
      return;
    }
    var endpoint := MatchingEndpoint(versions, ctx.esVersion);
    if endpoint.None? || endpoint.value == [] {
      return;
    }
    if name !in ctx.jsonFiles {
      return;
    }
    var path := ctx.jsonFiles[name];
    if path !in ctx.files {
      return;
    }
    var content := Content(ctx.files[path]);
    if content == [] {
      return;
    }
    out' := out' + HeaderLine(counter, endpoint.value) + "\n";
    out' := out' + content;
    out' := out' + "\n";
    counter' := counter + 1;
  }

  /**
   * The output file: for each item, in order, the checks of the loop
   * decide whether a block is written; blocks are numbered from 1 by a
   * counter that only a written block advances.
   */
  method GenerateOutput(config: Config, ctx: Context) returns (out: string)
    ensures out == Render(Selected(config, ctx), 1)
  {
    ghost var ds := Decisions(config, ctx);
    DecisionsAt(config, ctx);
    var counter := 1;
    out := "";
    for i := 0 to |config|
      invariant counter == |Somes(ds[..i])| + 1
      invariant out == Render(Somes(ds[..i]), 1)
    {
      var (name, spec) := config[i];
      TakeSnoc(ds, i);
      SomesSnoc(ds[..i], ds[i]);
      assert ds[i] == Decide(name, spec, ctx);
      if ds[i].Some? {
        WriteBlock(Somes(ds[..i]), ds[i].value, out, counter);
      }
      out, counter := WriteItem(name, spec, ctx, out, counter);
    }
    assert ds[..|config|] == ds;
  }
}
