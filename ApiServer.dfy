/**
 * elastic_api_server.py: the route table built from elastic-rest.yml, the
 * three-stage lookup of the catch-all handler, its choice of content type,
 * and the listing served at "/". The table is the module-level dictionary
 * ROUTE_MAP; the file system is a map from the files that exist to their
 * raw text.
 */
module ApiServer {
  import opened Wrappers
  import opened Text
  import opened RestConfig
  import StringOrder

  // ---------------------------------------------------------------------
  // extract_route_from_query

  /** `query.split('?')[0]`: the text before the first `?`, or all of it. */
  function ExtractRoute(query: string): (r: string)
    ensures StartsWith(query, r)
    ensures forall i :: 0 <= i < |r| ==> r[i] != '?'
    ensures |r| == |query| || query[|r|] == '?'
  {
    if query == [] || query[0] == '?' then []
    else
      var rest := ExtractRoute(query[1..]);
      assert query[..1 + |rest|] == [query[0]] + query[1..][..|rest|];
      [query[0]] + rest
  }

  /** The three facts of ExtractRoute's contract determine its result. */
  lemma {:induction false} ExtractRouteUnique(query: string, r: string)
    requires StartsWith(query, r)
    requires forall i :: 0 <= i < |r| ==> r[i] != '?'
    requires |r| == |query| || query[|r|] == '?'
    ensures ExtractRoute(query) == r
  {
    if r != [] {
      assert query[0] == r[0];
      assert query[1..][..|r| - 1] == r[1..];
      ExtractRouteUnique(query[1..], r[1..]);
      assert r == [r[0]] + r[1..];
    }
  }

  /** Stripping the query string twice is stripping it once. */
  lemma ExtractRouteIdempotent(query: string)
    ensures ExtractRoute(ExtractRoute(query)) == ExtractRoute(query)
  {
    var r := ExtractRoute(query);
    assert r[..|r|] == r;
    ExtractRouteUnique(r, r);
  }

  // ---------------------------------------------------------------------
  // The route table

  /**
   * A file under the data directory: the subdirectories between the data
   * directory and the file ([] or one `subdir`), and the file's name.
   */
  datatype DataFile = DataFile(dir: seq<string>, name: string)

  /**
   * ROUTE_MAP: its keys in insertion order and the file of each key.
   * Assigning to a key that is present keeps its place.
   */
  datatype RouteMap = RouteMap(keys: seq<string>, files: map<string, DataFile>) {

    /** The keys list each key of the dictionary once. */
    ghost predicate Valid()
    {
      (forall k :: k in files <==> k in keys) &&
      (forall i, j :: 0 <= i < j < |keys| ==> keys[i] != keys[j])
    }

    /** `ROUTE_MAP[route] = file`. */
    function Put(route: string, file: DataFile): (m: RouteMap)
      ensures m.files == files[route := file]
      ensures |keys| <= |m.keys| && m.keys[..|keys|] == keys
    {
      if route in files then RouteMap(keys, files[route := file])
      else RouteMap(keys + [route], files[route := file])
    }
  }

  const EmptyMap := RouteMap([], map[])

  lemma PutValid(m: RouteMap, route: string, file: DataFile)
    requires m.Valid()
    ensures m.Put(route, file).Valid()
    ensures route in m.files ==> m.Put(route, file).keys == m.keys
    ensures route !in m.files ==> m.Put(route, file).keys == m.keys + [route]
  {
  }

  /** The file build_route_mapping pairs with an item: `subdir` joins the path only when non-empty. */
  function SpecFile(name: string, spec: ApiSpec): (f: DataFile)
    requires spec.Mapping?
    ensures f.name == name + ExtensionOf(spec)
    ensures |f.dir| <= 1
    ensures f.dir != [] <==> spec.subdir.Some? && spec.subdir.value != []
    ensures f.dir != [] ==> f.dir[0] == spec.subdir.value
  {
    var subdir := spec.subdir.GetOr("");
    DataFile(if subdir != [] then [subdir] else [], name + ExtensionOf(spec))
  }

  /**
   * What build_route_mapping stores for one item: the route of its last
   * version query and its file, or None when the item is skipped or its
   * file does not exist.
   */
  function Stored(name: string, spec: ApiSpec, disk: map<DataFile, string>): (r: Option<(string, DataFile)>)
    ensures r.Some? ==> r.value.1 in disk && forall i :: 0 <= i < |r.value.0| ==> r.value.0[i] != '?'
  {
    if spec.NotMapping? || spec.versions == [] then None
    else
      var file := SpecFile(name, spec);
      if file in disk then Some((ExtractRoute(spec.versions[|spec.versions| - 1].1), file)) else None
  }

  /**
   * Only the last version query of a spec matters: its route is that
   * query's text before any `?`, its file sits in `subdir` exactly when
   * `subdir` is given and non-empty, and a spec that is not a mapping or
   * has no versions stores nothing.
   */
  lemma StoredFromLastQuery(name: string, spec: ApiSpec, disk: map<DataFile, string>)
    ensures spec.NotMapping? || spec.versions == [] ==> Stored(name, spec, disk).None?
    ensures spec.Mapping? && spec.versions != [] ==>
              var last := spec.versions[|spec.versions| - 1];
              Stored(name, spec, disk) == Stored(name, spec.(versions := [last]), disk) &&
              (Stored(name, spec, disk).Some? <==> SpecFile(name, spec) in disk) &&
              (Stored(name, spec, disk).Some? ==>
                 Stored(name, spec, disk).value == (ExtractRoute(last.1), SpecFile(name, spec)) &&
                 StartsWith(last.1, Stored(name, spec, disk).value.0) &&
                 Stored(name, spec, disk).value.1.name == name + ExtensionOf(spec) &&
                 Stored(name, spec, disk).value.1.dir ==
                   (if spec.subdir.GetOr("") != [] then [spec.subdir.GetOr("")] else []))
  {
  }

  /** The table after the items of `config` have been stored, in order, into `m`. */
  function Build(m: RouteMap, config: Config, disk: map<DataFile, string>): (r: RouteMap)
    ensures m.files.Keys <= r.files.Keys
    ensures forall k :: k in r.files && k !in m.files ==> r.files[k] in disk
  {
    if config == [] then m
    else
      var n := |config| - 1;
      var prior := Build(m, config[..n], disk);
      match Stored(config[n].0, config[n].1, disk)
      case None => prior
      case Some(entry) => prior.Put(entry.0, entry.1)
  }

  /** Stored applied to item `i` of the configuration. */
  function StoredAt(config: Config, disk: map<DataFile, string>, i: nat): Option<(string, DataFile)>
    requires i < |config|
  {
    Stored(config[i].0, config[i].1, disk)
  }

  lemma BuildSnoc(m: RouteMap, config: Config, disk: map<DataFile, string>, i: nat)
    requires i < |config|
    ensures Build(m, config[..i + 1], disk) ==
            match StoredAt(config, disk, i)
            case None => Build(m, config[..i], disk)
            case Some(entry) => Build(m, config[..i], disk).Put(entry.0, entry.1)
  {
    var c := config[..i + 1];
    assert c[..i] == config[..i];
    assert c[i] == config[i];
  }

  /** Building keeps the table well formed and the keys already present in their places. */
  lemma {:induction false} BuildValid(m: RouteMap, config: Config, disk: map<DataFile, string>)
    requires m.Valid()
    ensures Build(m, config, disk).Valid()
    ensures |m.keys| <= |Build(m, config, disk).keys| && Build(m, config, disk).keys[..|m.keys|] == m.keys
  {
    if config != [] {
      var n := |config| - 1;
      BuildValid(m, config[..n], disk);
      var prior := Build(m, config[..n], disk);
      match Stored(config[n].0, config[n].1, disk)
      case None =>
      case Some(entry) =>
        PutValid(prior, entry.0, entry.1);
        PrefixOfPrefix(m.keys, prior.keys, prior.Put(entry.0, entry.1).keys);
    }
  }

  lemma PrefixOfPrefix<T>(a: seq<T>, b: seq<T>, c: seq<T>)
    requires |a| <= |b| <= |c| && b[..|a|] == a && c[..|b|] == b
    ensures c[..|a|] == a
  {
    assert c[..|a|] == c[..|b|][..|a|];
  }

  /**
   * A route keeps its file when no item stores it, and takes the file of
   * the last item that stores it otherwise: a later spec with the same
   * route overwrites an earlier one.
   */
  lemma {:induction false} BuildLastWins(m: RouteMap, config: Config, disk: map<DataFile, string>, i: nat)
    requires i < |config| && StoredAt(config, disk, i).Some?
    requires forall j :: i < j < |config| && StoredAt(config, disk, j).Some? ==>
               StoredAt(config, disk, j).value.0 != StoredAt(config, disk, i).value.0
    ensures StoredAt(config, disk, i).value.0 in Build(m, config, disk).files
    ensures Build(m, config, disk).files[StoredAt(config, disk, i).value.0] == StoredAt(config, disk, i).value.1
  {
    var n := |config| - 1;
    var init := config[..n];
    var prior := Build(m, init, disk);
    assert Build(m, config, disk) ==
      match StoredAt(config, disk, n)
      case None => prior
      case Some(entry) => prior.Put(entry.0, entry.1);
    if i < n {
      assert init[i] == config[i];
      assert StoredAt(init, disk, i) == StoredAt(config, disk, i);
      forall j | i < j < |init| && StoredAt(init, disk, j).Some?
        ensures StoredAt(init, disk, j).value.0 != StoredAt(init, disk, i).value.0
      {
        assert init[j] == config[j];
        assert StoredAt(init, disk, j) == StoredAt(config, disk, j);
      }
      BuildLastWins(m, init, disk, i);
    }
  }

  /** A route that no item stores keeps what it had before the build. */
  lemma {:induction false} BuildUntouched(m: RouteMap, config: Config, disk: map<DataFile, string>, route: string)
    requires forall j :: 0 <= j < |config| && StoredAt(config, disk, j).Some? ==> StoredAt(config, disk, j).value.0 != route
    ensures route in Build(m, config, disk).files <==> route in m.files
    ensures route in m.files ==> Build(m, config, disk).files[route] == m.files[route]
  {
    if config != [] {
      var n := |config| - 1;
      var init := config[..n];
      var prior := Build(m, init, disk);
      assert Build(m, config, disk) ==
        match StoredAt(config, disk, n)
        case None => prior
        case Some(entry) => prior.Put(entry.0, entry.1);
      forall j | 0 <= j < |init| && StoredAt(init, disk, j).Some?
        ensures StoredAt(init, disk, j).value.0 != route
      {
        assert init[j] == config[j];
        assert StoredAt(init, disk, j) == StoredAt(config, disk, j);
      }
      BuildUntouched(m, init, disk, route);
    }
  }

  // ---------------------------------------------------------------------
  // The lookup in catch_all

  /** `key.rstrip('*')`. */
  function RStripStars(key: string): (r: string)
    ensures StartsWith(key, r)
    ensures r == [] || r[|r| - 1] != '*'
    ensures forall i :: |r| <= i < |key| ==> key[i] == '*'
  {
    if key != [] && key[|key| - 1] == '*' then
      var r := RStripStars(key[..|key| - 1]);
      assert key[..|r|] == key[..|key| - 1][..|r|];
      r
    else
      assert key[..|key|] == key;
      key
  }

  /** Stage three accepts `key` for `route`: `route.startswith(key.rstrip('*'))`. */
  predicate PrefixMatch(route: string, key: string)
  {
    StartsWith(route, RStripStars(key))
  }

  /** The first key, in insertion order, that stage three accepts. */
  function FirstPrefixKey(keys: seq<string>, route: string): (r: Option<string>)
    ensures r.Some? ==> r.value in keys
  {
    if keys == [] then None
    else if PrefixMatch(route, keys[0]) then Some(keys[0])
    else FirstPrefixKey(keys[1..], route)
  }

  /** When key `i` is the first that stage three accepts, it is the one chosen. */
  lemma {:induction false} FirstPrefixKeyAt(keys: seq<string>, route: string, i: nat)
    requires i < |keys| && PrefixMatch(route, keys[i])
    requires forall j :: 0 <= j < i ==> !PrefixMatch(route, keys[j])
    ensures FirstPrefixKey(keys, route) == Some(keys[i])
  {
    if i > 0 {
      assert !PrefixMatch(route, keys[0]);
      assert keys[1..][i - 1] == keys[i];
      forall j | 0 <= j < i - 1 ensures !PrefixMatch(route, keys[1..][j]) {
        assert keys[1..][j] == keys[j + 1];
      }
      FirstPrefixKeyAt(keys[1..], route, i - 1);
    }
  }

  /** Stage three finds nothing exactly when it accepts no key. */
  lemma {:induction false} FirstPrefixKeyNone(keys: seq<string>, route: string)
    ensures FirstPrefixKey(keys, route).None? <==> forall j :: 0 <= j < |keys| ==> !PrefixMatch(route, keys[j])
  {
    if keys != [] && !PrefixMatch(route, keys[0]) {
      FirstPrefixKeyNone(keys[1..], route);
      assert forall j :: 1 <= j < |keys| ==> keys[j] == keys[1..][j - 1];
    }
  }

  /** The file found for `route`, stage by stage. */
  function Lookup(m: RouteMap, route: string): (r: Option<DataFile>)
    requires m.Valid()
    ensures r.Some? ==> exists k :: k in m.files && m.files[k] == r.value
    ensures route in m.files ==> r == Some(m.files[route])
  {
    if route in m.files then Some(m.files[route])
    else if ExtractRoute(route) in m.files then Some(m.files[ExtractRoute(route)])
    else
      match FirstPrefixKey(m.keys, route)
      case None => None
      case Some(key) => Some(m.files[key])
  }

  /**
   * An earlier stage wins over a later one: an exact key first, then the
   * key without the query string, then the first key in insertion order
   * whose text without trailing `*` begins the route; nothing is found
   * only when all three fail.
   */
  lemma LookupStages(m: RouteMap, route: string)
    requires m.Valid()
    ensures route in m.files ==> Lookup(m, route) == Some(m.files[route])
    ensures route !in m.files && ExtractRoute(route) in m.files ==>
              Lookup(m, route) == Some(m.files[ExtractRoute(route)])
    ensures Lookup(m, route).None? <==>
              route !in m.files && ExtractRoute(route) !in m.files &&
              forall j :: 0 <= j < |m.keys| ==> !PrefixMatch(route, m.keys[j])
  {
    FirstPrefixKeyNone(m.keys, route);
  }

  /** Stage three picks the file of the first accepted key. */
  lemma LookupPrefix(m: RouteMap, route: string, i: nat)
    requires m.Valid()
    requires route !in m.files && ExtractRoute(route) !in m.files
    requires i < |m.keys| && PrefixMatch(route, m.keys[i])
    requires forall j :: 0 <= j < i ==> !PrefixMatch(route, m.keys[j])
    ensures Lookup(m, route) == Some(m.files[m.keys[i]])
  {
    FirstPrefixKeyAt(m.keys, route, i);
  }

  // ---------------------------------------------------------------------
  // The reply of catch_all

  /** The three kinds of successful reply. */
  datatype MediaType =
    | ApplicationJson    // Response(media_type="application/json")
    | PlainTextResponse  // PlainTextResponse(content)
    | TextPlain          // Response(media_type="text/plain")

  datatype Reply =
    | NotFound(status: nat, error: string)
    | Found(media: MediaType, content: string)

  /** The position of the last `c` in `s`, or -1 (`str.rfind`). */
  function RFind(s: string, c: char): (r: int)
    ensures -1 <= r < |s|
    ensures r >= 0 ==> s[r] == c
    ensures forall j :: r < j < |s| ==> s[j] != c
  {
    if s == [] then -1
    else if s[|s| - 1] == c then |s| - 1
    else RFind(s[..|s| - 1], c)
  }

  /** The text after the last `/` of `s`, or all of `s` when it has none. */
  function AfterLastSlash(s: string): (t: string)
    ensures |t| <= |s| && s[|s| - |t|..] == t
    ensures forall j :: 0 <= j < |t| ==> t[j] != '/'
    ensures |t| == |s| || s[|s| - |t| - 1] == '/'
  {
    s[RFind(s, '/') + 1..]
  }

  /**
   * `Path.name`: the last component of a path written as text. pathlib
   * drops empty components (from doubled or trailing slashes) and `.`
   * components, so the last component left is the last one that is
   * neither; a text with none such yields "".
   */
  function LastComponent(s: string): (c: string)
    ensures forall j :: 0 <= j < |c| ==> c[j] != '/'
    ensures c != "."
    decreases |s|
  {
    var k := RFind(s, '/');
    var tail := s[k + 1..];
    if tail != [] && tail != "." then tail
    else if k < 0 then []
    else LastComponent(s[..k])
  }

  /** `Path.suffix` of a file name: from its last dot on, unless that dot begins or ends the name. */
  function Suffix(name: string): (r: string)
    ensures r == [] || (r[0] == '.' && |r| >= 2 && |r| < |name| && name[|name| - |r|..] == r)
    ensures forall j :: 0 < j < |r| ==> r[j] != '.'
  {
    var i := RFind(name, '.');
    if 0 < i < |name| - 1 then name[i..] else []
  }

  /** `file_path.suffix` for a data file: the suffix of the last component of its name. */
  function FileSuffix(file: DataFile): string
  {
    Suffix(LastComponent(file.name))
  }

  /** Appending text without `c` does not move the last `c`. */
  lemma {:induction false} RFindAppend(s: string, t: string, c: char)
    requires forall j :: 0 <= j < |t| ==> t[j] != c
    ensures RFind(s + t, c) == RFind(s, c)
    decreases |t|
  {
    if t == [] {
      assert s + t == s;
    } else {
      var n := |t| - 1;
      assert (s + t)[..|s + t| - 1] == s + t[..n];
      RFindAppend(s, t[..n], c);
    }
  }

  /**
   * A name made of a stem and an extension such as ".json" has that
   * extension as its suffix, unless the stem is empty: ".json" alone is
   * a hidden file without suffix.
   */
  lemma SuffixOfExtension(stem: string, ext: string)
    requires |ext| >= 2 && ext[0] == '.' && forall j :: 1 <= j < |ext| ==> ext[j] != '.'
    ensures Suffix(stem + ext) == if stem == [] then [] else ext
  {
    var s := stem + ext;
    var r := RFind(s, '.');
    assert s[|stem|] == '.';
    assert forall j :: |stem| < j < |s| ==> s[j] == ext[j - |stem|];
    assert r == |stem|;
    assert s[|stem|..] == ext;
  }

  /**
   * The file of a spec named `name` with extension `ext` has `ext` as
   * its suffix exactly when the text after the name's last `/` is not
   * empty. For a name such as "x/" the file is `x/.json`, whose last
   * component ".json" has no suffix.
   */
  lemma SuffixOfSpecName(name: string, ext: string)
    requires |ext| >= 2 && ext[0] == '.' && forall j :: 1 <= j < |ext| ==> ext[j] != '.' && ext[j] != '/'
    ensures Suffix(LastComponent(name + ext)) == if AfterLastSlash(name) == [] then [] else ext
  {
    var s := name + ext;
    RFindAppend(name, ext, '/');
    DropAppend(name, ext, RFind(name, '/') + 1);
    LastComponentOfTail(s);
    SuffixOfExtension(AfterLastSlash(name), ext);
  }

  lemma DropAppend(a: string, b: string, j: nat)
    requires j <= |a|
    ensures (a + b)[j..] == a[j..] + b
  {
  }

  /** A proper last component is the text after the last `/`. */
  lemma LastComponentOfTail(s: string)
    requires AfterLastSlash(s) != [] && AfterLastSlash(s) != "."
    ensures LastComponent(s) == AfterLastSlash(s)
  {
  }

  /** The content type the handler chooses for a file suffix. */
  function MediaFor(suffix: string): (t: MediaType)
    ensures t == ApplicationJson <==> suffix == ".json"
    ensures t == PlainTextResponse <==> suffix == ".txt"
  {
    if suffix == ".json" then ApplicationJson
    else if suffix == ".txt" then PlainTextResponse
    else TextPlain
  }

  const NotFoundStatus: nat := 404

  function NotFoundReply(route: string): Reply
  {
    NotFound(NotFoundStatus, "Route not found: " + route)
  }

  /** The reply to GET /fullPath, with `disk` the files that exist when the request arrives. */
  function Respond(m: RouteMap, disk: map<DataFile, string>, fullPath: string): (r: Reply)
    requires m.Valid()
    ensures r.Found? ==> Lookup(m, "/" + fullPath).Some? && Lookup(m, "/" + fullPath).value in disk
    ensures r.Found? ==>
              var f := Lookup(m, "/" + fullPath).value;
              r == Found(MediaFor(FileSuffix(f)), TranslateNewlines(disk[f]))
    ensures Lookup(m, "/" + fullPath).Some? && Lookup(m, "/" + fullPath).value in disk ==> r.Found?
    ensures r.Found? ==> forall i :: 0 <= i < |r.content| ==> r.content[i] != '\r'
  {
    var route := "/" + fullPath;
    match Lookup(m, route)
    case None => NotFoundReply(route)
    case Some(file) =>
      if file !in disk then NotFoundReply(route)
      else Found(MediaFor(FileSuffix(file)), TranslateNewlines(disk[file]))
  }

  /**
   * The reply is a 404 naming the route exactly when the lookup finds
   * nothing or finds a file that no longer exists.
   */
  lemma RespondNotFound(m: RouteMap, disk: map<DataFile, string>, fullPath: string)
    requires m.Valid()
    ensures Respond(m, disk, fullPath).NotFound? <==>
              Lookup(m, "/" + fullPath).None? || Lookup(m, "/" + fullPath).value !in disk
    ensures Respond(m, disk, fullPath).NotFound? ==>
              Respond(m, disk, fullPath) == NotFound(404, "Route not found: /" + fullPath)
  {
  }

  /**
   * A route stored from item `i`, and by no later item, is served from
   * that item's file. When the spec keeps the default extension, the
   * reply is application/json exactly when the name does not end in `/`
   * (and is not empty): otherwise the file's last component is ".json".
   */
  lemma ServeBuiltRoute(config: Config, disk: map<DataFile, string>, i: nat, fullPath: string)
    requires i < |config| && StoredAt(config, disk, i).Some?
    requires StoredAt(config, disk, i).value.0 == "/" + fullPath
    requires forall j :: i < j < |config| && StoredAt(config, disk, j).Some? ==>
               StoredAt(config, disk, j).value.0 != "/" + fullPath
    ensures Build(EmptyMap, config, disk).Valid()
    ensures var file := StoredAt(config, disk, i).value.1;
            Respond(Build(EmptyMap, config, disk), disk, fullPath) ==
              Found(MediaFor(FileSuffix(file)), TranslateNewlines(disk[file]))
    ensures config[i].1.Mapping? && ExtensionOf(config[i].1) == DefaultExtension ==>
              (Respond(Build(EmptyMap, config, disk), disk, fullPath).media == ApplicationJson <==>
               AfterLastSlash(config[i].0) != [])
  {
    var m := Build(EmptyMap, config, disk);
    var file := StoredAt(config, disk, i).value.1;
    BuildValid(EmptyMap, config, disk);
    BuildLastWins(EmptyMap, config, disk, i);
    assert Lookup(m, "/" + fullPath) == Some(file);
    assert file in disk;
    StoredSuffix(config[i].0, config[i].1, disk);
  }

  /** A stored file of a spec with the default extension has suffix ".json" unless its name ends in `/`. */
  lemma StoredSuffix(name: string, spec: ApiSpec, disk: map<DataFile, string>)
    requires Stored(name, spec, disk).Some?
    ensures ExtensionOf(spec) == DefaultExtension ==>
              (FileSuffix(Stored(name, spec, disk).value.1) == DefaultExtension <==> AfterLastSlash(name) != [])
  {
    if ExtensionOf(spec) == DefaultExtension {
      assert Stored(name, spec, disk).value.1.name == name + DefaultExtension;
      SuffixOfSpecName(name, DefaultExtension);
    }
  }

  // ---------------------------------------------------------------------
  // root

  /** The body served at "/". */
  datatype RootInfo = RootInfo(server: string, routesCount: nat, routes: seq<string>, note: string)

  /** How many routes the listing at "/" shows at most. */
  const ShownRoutes: nat := 20

  function Root(m: RouteMap): (r: RootInfo)
    ensures r.routesCount == |m.keys|
    ensures |r.routes| <= ShownRoutes && |r.routes| <= |m.keys|
  {
    var sorted := StringOrder.Sort(m.keys);
    var shown := if |sorted| < ShownRoutes then |sorted| else ShownRoutes;
    RootInfo("Elastic API Diagnostic Server", |sorted|, sorted[..shown],
             "Total " + NatToString(|sorted|) + " routes available")
  }

  /**
   * The listing counts every key and shows the first 20 keys in sorted
   * order (all of them when there are fewer): the shown keys ascend, are
   * keys of the table, and come before every key not shown; as the keys
   * of a dictionary are distinct, the shown ones ascend strictly.
   */
  lemma RootListing(m: RouteMap)
    ensures Root(m).routesCount == |m.keys|
    ensures |Root(m).routes| == if |m.keys| < 20 then |m.keys| else 20
    ensures StringOrder.Sorted(Root(m).routes)
    ensures forall i :: 0 <= i < |Root(m).routes| ==> Root(m).routes[i] in m.keys
    ensures forall k, i :: k in m.keys && k !in Root(m).routes && 0 <= i < |Root(m).routes| ==>
              StringOrder.Less(Root(m).routes[i], k)
    ensures m.Valid() ==>
              forall i, j :: 0 <= i < j < |Root(m).routes| ==> StringOrder.Less(Root(m).routes[i], Root(m).routes[j])
  {
    var sorted := StringOrder.Sort(m.keys);
    StringOrder.SortSorted(m.keys);
    var shown := Root(m).routes;
    assert shown == sorted[..|shown|];
    forall i | 0 <= i < |shown| ensures shown[i] in m.keys {
      assert shown[i] in multiset(sorted);
    }
    forall k, i | k in m.keys && k !in shown && 0 <= i < |shown|
      ensures StringOrder.Less(shown[i], k)
    {
      assert k in multiset(sorted);
      var j :| 0 <= j < |sorted| && sorted[j] == k;
      assert forall t :: 0 <= t < |shown| ==> sorted[t] in shown;
      assert StringOrder.LessEq(sorted[i], sorted[j]);
    }
    if m.Valid() {
      StringOrder.SortDistinct(m.keys);
      forall i, j | 0 <= i < j < |shown| ensures StringOrder.Less(shown[i], shown[j]) {
        assert shown[i] == sorted[i] && shown[j] == sorted[j];
      }
    }
  }

  // ---------------------------------------------------------------------
  // ROUTE_MAP and the handlers that use it

  class RouteTable {
    var keys: seq<string>
    var files: map<string, DataFile>

    function Snapshot(): RouteMap
      reads this
    {
      RouteMap(keys, files)
    }

    ghost predicate Valid()
      reads this
    {
      Snapshot().Valid()
    }

    /** An empty ROUTE_MAP. */
    constructor ()
      ensures Snapshot() == EmptyMap && Valid()
    {
      keys := [];
      files := map[];
    }

    /** `ROUTE_MAP[route] = file`. */
    method Store(route: string, file: DataFile)
      requires Valid()
      modifies this
      ensures Valid()
      ensures Snapshot() == old(Snapshot()).Put(route, file)
    {
      PutValid(Snapshot(), route, file);
      if route !in files {
        keys := keys + [route];
      }
      files := files[route := file];
    }

    /** One iteration of build_route_mapping: the item `name: spec`. */
    method StoreItem(name: string, spec: ApiSpec, disk: map<DataFile, string>)
      requires Valid()
      modifies this
      ensures Valid()
      ensures Snapshot() == match Stored(name, spec, disk)
                            case None => old(Snapshot())
                            case Some(entry) => old(Snapshot()).Put(entry.0, entry.1)
    {
      if !spec.Mapping? {
        return;
      }
      var versions := spec.versions;
      if versions == [] {
        return;
      }
      var latestQuery := versions[|versions| - 1].1;
      var extension := ExtensionOf(spec);
      var subdir := spec.subdir.GetOr("");
      var file;
      if subdir != [] {
        file := DataFile([subdir], name + extension);
      } else {
        file := DataFile([], name + extension);
      }
      var route := ExtractRoute(latestQuery);
      assert file == SpecFile(name, spec);
      if file in disk {
        Store(route, file);
      }
    }

    /** build_route_mapping over the items of `config`, with `disk` the files that exist. */
    method BuildRouteMapping(config: Config, disk: map<DataFile, string>)
      requires Valid()
      modifies this
      ensures Valid()
      ensures Snapshot() == Build(old(Snapshot()), config, disk)
    {
      ghost var start := Snapshot();
      for i := 0 to |config|
        invariant Valid()
        invariant Snapshot() == Build(start, config[..i], disk)
      {
        BuildSnoc(start, config, disk, i);
        StoreItem(config[i].0, config[i].1, disk);
      }
      assert config[..|config|] == config;
    }

    /** catch_all: the reply to GET /fullPath. */
    method CatchAll(fullPath: string, disk: map<DataFile, string>) returns (reply: Reply)
      requires Valid()
      ensures reply == Respond(Snapshot(), disk, fullPath)
    {
      var route := "/" + fullPath;
      var file: Option<DataFile> := if route in files then Some(files[route]) else None;
      if file.None? {
        var baseRoute := ExtractRoute(route);
        file := if baseRoute in files then Some(files[baseRoute]) else None;
      }
      if file.None? {
        var i := 0;
        while i < |keys|
          invariant 0 <= i <= |keys|
          invariant file.None?
          invariant forall j :: 0 <= j < i ==> !PrefixMatch(route, keys[j])
        {
          if StartsWith(route, RStripStars(keys[i])) {
            FirstPrefixKeyAt(keys, route, i);
            file := Some(files[keys[i]]);
            break;
          }
          i := i + 1;
        }
        if file.None? {
          FirstPrefixKeyNone(keys, route);
        }
      }
      assert file == Lookup(Snapshot(), route);
      if file.None? || file.value !in disk {
        return NotFound(NotFoundStatus, "Route not found: " + route);
      }
      var content := TranslateNewlines(disk[file.value]);
      var suffix := FileSuffix(file.value);
      if suffix == ".json" {
        reply := Found(ApplicationJson, content);
      } else if suffix == ".txt" {
        reply := Found(PlainTextResponse, content);
      } else {
        reply := Found(TextPlain, content);
      }
    }
  }
}
