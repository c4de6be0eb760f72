# Elastic diagnostics: writer, reader and route server

An Elasticsearch diagnostics bundle is a directory of JSON files. The
file `elastic-rest.yml` says which REST call produced each file, for
each Elasticsearch version range. This repository handles it in three
parts, and each is modelled here.

- **generate_diagnostics.py** writes one consolidated text file:
  - it collects the bundle's JSON files by stem, a file in
    `commercial/` replacing one of the same stem at the top level;
  - for every configured API whose version rule selects a path and whose
    file has content, it writes a block `# N: GET <path> 200 OK`,
    followed by the stripped file text;
  - blocks are numbered 1, 2, … in configuration order.

  Version rules are conjunctions of conditions such as `>= 8.2.0 < 8.3.0`
  on the leading `major.minor.patch` of a version string. They are
  compared as tuples, which is a simplified subset of the precedence in
  section 11 of Semantic Versioning 2.0.0.
- **server.py** reads such a file back into a map from paths to parsed
  payloads:
  - it splits the text into sections at header lines that match `HDR`;
  - it cleans each section of comments, ellipses and trailing commas;
  - it parses each section and keeps only the paths that start with `/`.
- **elastic_api_server.py** serves the bundle directly:
  - it builds a route table from the last version query of every spec
    whose file exists;
  - the catch-all handler looks a request up in three stages: exact
    route, route without its query string, then first prefix match;
  - it picks the content type from the file suffix;
  - it lists up to 20 sorted routes at `/`.

The modules follow this structure:

| module | models |
|---|---|
| `Text` | Python string built-ins: `str.isspace`, `str.strip`, `str.splitlines`, `"\n".join`, and text-mode newline translation |
| `VersionRules` | `parse_version`, `evaluate_version_rule` and `get_matching_api_endpoint` |
| `RestConfig` | the shape of `elastic-rest.yml` shared by both readers |
| `Diagnostics` | `find_json_files` and `generate_output`, both as methods with loops |
| `StringOrder` | Python's `<` on strings and `sorted()` |
| `ApiServer` | `extract_route_from_query`; `ROUTE_MAP` as the class `RouteTable`, with `build_route_mapping` and the catch-all handler as methods; the `root` listing |
| `RouteLoader` | `HDR`, `clean`, and `load_routes` as a method with its loop; the registration filter |
| `RoundTrip` | the writer composed with the reader |

Regular expressions are modelled as deterministic scans. Every
repetition takes its longest run. For each pattern, a comment explains why
backtracking cannot change the result. The JSON parser is a parameter
`loads: string -> Option<P>`. It answers `None` wherever the Python parser
raises.

The central result is `RoundTrip.GeneratedRoundTrip`. Take the file that
generate_output writes from a configuration, and load it back with
load_routes. The result holds one route per written entry, under its
endpoint (with `/` prepended when missing). It holds the payload of the
last block written for that endpoint. This holds provided that:
- every endpoint is a run of non-space characters;
- no body line looks like a header;
- every body parses.

## Model

| member | source | states |
|---|---|---|
| VersionRules.MatchTripleIff | generate_diagnostics.py:18 | `(\d+)\.(\d+)\.(\d+)` matches at the start of a string exactly when the string begins with three dot-separated digit groups |
| VersionRules.MatchTripleSound | generate_diagnostics.py:18 | a match is three non-empty digit groups that prefix the string, and a non-digit or the end follows them |
| VersionRules.MatchTripleOf | generate_diagnostics.py:18 | a triple's text followed by the end or a non-digit is matched as exactly that triple |
| VersionRules.DigitsThenDotSound | generate_diagnostics.py:18 | `(\d+)\.` takes a non-empty digit group and the dot after it |
| VersionRules.ParseVersion | generate_diagnostics.py:16-21 | parse_version gives (0, 0, 0) for a string that does not begin with `d.d.d` |
| VersionRules.ParseVersionText | generate_diagnostics.py:16-21 | the text of a version followed by a non-digit suffix (such as `-SNAPSHOT`) parses back to that version |
| VersionRules.ParseVersionOfText | generate_diagnostics.py:16-21 | parse_version inverts the dotted text of a version |
| VersionRules.ParseVersionOfTriple | generate_diagnostics.py:16-21 | any matched `d.d.d` prefix followed by end or a non-digit parses to the integer values of its three digit runs, leading zeros included |
| VersionRules.ParseVersionLeadingZero | generate_diagnostics.py:20 | `int()` drops leading zeros: `8.01.0` parses as (8, 1, 0) |
| VersionRules.MatchConditionAtOf | generate_diagnostics.py:33 | an operator run, a space and a triple form one condition, consuming exactly that text |
| VersionRules.MatchConditionAtOperator | generate_diagnostics.py:33 | every extracted condition's operator is a non-empty run of `>`, `<`, `=` |
| VersionRules.FindConditionsOperators | generate_diagnostics.py:33 | `re.findall` yields only conditions with such operators |
| VersionRules.FindConditionsStep | generate_diagnostics.py:33 | a condition at the front of the rule is the first one findall returns, and the search goes on after it |
| VersionRules.FindConditionsSkipSpace | generate_diagnostics.py:33 | a leading space does not change what findall returns |
| VersionRules.FindConditionsNoOperator | generate_diagnostics.py:33 | a rule without `>`, `<`, `=` yields no conditions |
| VersionRules.FindConditionsOfRuleText | generate_diagnostics.py:33 | the rule written from a list of (operator, version) pairs yields exactly those conditions, in order |
| VersionRules.FindConditions | generate_diagnostics.py:33 | `re.findall` returns at most one condition per character of the rule |
| VersionRules.AllSatisfied | generate_diagnostics.py:35-52 | the loop over conditions returns no False exactly when every condition holds |
| VersionRules.OpHolds | generate_diagnostics.py:38-52 | for equal versions the strict operators fail and `>=`, `<=`, `=` hold; an operator other than the five constrains nothing; `>=` means greater or equal and `<=` less or equal on tuples |
| VersionRules.EvaluateVersionRule | generate_diagnostics.py:24-54 | true exactly when at least one condition is extracted from the stripped rule and every extracted condition holds of the parsed version |
| VersionRules.EvaluateRuleText | generate_diagnostics.py:24-54 | a rule written from (operator, version) pairs holds exactly when the list is non-empty and every pair holds |
| VersionRules.ConditionsHold | generate_diagnostics.py:38-52 | the conditions of a written rule hold exactly when its pairs hold |
| VersionRules.RangeRule | generate_diagnostics.py:32-49 | `>= lo < hi` accepts exactly the versions v with lo <= v < hi, compared lexicographically |
| VersionRules.RangeConditions | generate_diagnostics.py:38-49 | the two conditions of a range hold exactly for lo <= v < hi |
| VersionRules.UnknownOperatorRule | generate_diagnostics.py:33-54 | a condition with an operator none of the five (such as `=>` or `==`) imposes nothing, but still makes the rule true |
| VersionRules.RuleWithoutConditions | generate_diagnostics.py:54 | a rule with no operator character is false for every version |
| VersionRules.MatchingEndpointNone | generate_diagnostics.py:57-65 | get_matching_api_endpoint returns None exactly when no rule matches |
| VersionRules.MatchingEndpointFirst | generate_diagnostics.py:57-65 | get_matching_api_endpoint returns the path of the first matching rule, in mapping order |
| Diagnostics.CollectKeys | generate_diagnostics.py:94-101 | a stem is in the dictionary exactly when some listed file has it |
| Diagnostics.Collect | generate_diagnostics.py:94-101 | every stem of the dictionary maps to a path listed with that stem |
| Diagnostics.CollectLastWins | generate_diagnostics.py:94-101 | a stem maps to the last file listed with it |
| Diagnostics.CollectAppend | generate_diagnostics.py:94-101 | filling from two listings in turn is the first dictionary overridden by the second |
| Diagnostics.FindJsonFiles | generate_diagnostics.py:86-103 | the loops build the root listing's dictionary overridden by the commercial one, so a stem in both maps to the commercial path |
| Diagnostics.ContentIsBody | generate_diagnostics.py:145-149 | non-empty written content starts and ends with a non-space and has no `\r` |
| Diagnostics.Decide | generate_diagnostics.py:116-149 | a written entry has a non-empty endpoint and a stripped body |
| Diagnostics.DecideWritten | generate_diagnostics.py:116-149 | an item is written exactly when all of these hold: its name does not start with `#`; its spec is a mapping; its extension (default `.json`) is `.json`; a rule selects a non-empty path; its stem was found; its file reads to non-blank text. What is written is that path and that stripped text |
| Diagnostics.DecisionsAt | generate_diagnostics.py:116 | the decisions are taken item by item, in configuration order |
| Diagnostics.SomeIndicesExactly | generate_diagnostics.py:116-149 | an item's decision is kept exactly when it was a write |
| Diagnostics.SelectedOrder | generate_diagnostics.py:116-158 | the written entries are exactly the decisions that write, in configuration order |
| Diagnostics.Selected | generate_diagnostics.py:116-158 | no more entries are written than there are items, and each has a non-empty endpoint and a stripped, non-empty body |
| Diagnostics.RenderSnoc | generate_diagnostics.py:152-158 | one more entry appends one block numbered after all earlier ones, so headers count 1, 2, …, k |
| Diagnostics.Render | generate_diagnostics.py:152-156 | the rendering is empty exactly when there are no entries, and otherwise ends with a line break |
| Diagnostics.WriteBlock | generate_diagnostics.py:152-156 | header, newline, body and newline written after the earlier blocks give the rendering of one more entry |
| Diagnostics.WriteItem | generate_diagnostics.py:117-158 | one iteration writes nothing when Decide skips the item, and otherwise the header numbered `counter`, the body and a line break, advancing the counter by one |
| Diagnostics.GenerateOutput | generate_diagnostics.py:106-162 | the loop writes the rendering of the selected entries, numbered from 1; the counter moves only on a write |
| ApiServer.ExtractRoute | elastic_api_server.py:32-35 | prefixes the query, contains no `?`, and ends at the first `?` or at the end |
| ApiServer.ExtractRouteUnique | elastic_api_server.py:32-35 | those three facts determine the result |
| ApiServer.ExtractRouteIdempotent | elastic_api_server.py:32-35 | applying it twice equals applying it once |
| ApiServer.PutValid | elastic_api_server.py:66 | a dict assignment keeps keys unique, keeps an existing key in place and appends a new key last |
| ApiServer.Stored | elastic_api_server.py:41-66 | a stored route has no `?` and its file exists |
| ApiServer.SpecFile | elastic_api_server.py:53-59 | the file is named `name + extension`; `subdir` is its one directory when given and non-empty, and it has no directory otherwise |
| ApiServer.StoredFromLastQuery | elastic_api_server.py:41-66 | non-mappings and empty `versions` store nothing; otherwise only the last query counts, an entry is stored exactly when the spec's file exists, and the entry is the last query without its query string paired with that file |
| ApiServer.BuildSnoc | elastic_api_server.py:40-66 | each item either leaves the table alone or assigns its route |
| ApiServer.Build | elastic_api_server.py:38-69 | building never removes a route, and each route it adds points to an existing file |
| ApiServer.BuildValid | elastic_api_server.py:40-66 | building keeps keys unique, and earlier keys stay in their places |
| ApiServer.BuildLastWins | elastic_api_server.py:65-66 | a route maps to the file of the last item that stored it |
| ApiServer.BuildUntouched | elastic_api_server.py:40-66 | a route that no item stores is left as it was |
| ApiServer.RStripStars | elastic_api_server.py:92 | `rstrip('*')`: a prefix of the key, not ending in `*`, with only `*` removed |
| ApiServer.FirstPrefixKey | elastic_api_server.py:90-94 | the key found is one of the table's keys |
| ApiServer.FirstPrefixKeyAt | elastic_api_server.py:90-94 | the first key in insertion order whose starless form prefixes the route is found |
| ApiServer.FirstPrefixKeyNone | elastic_api_server.py:90-94 | nothing is found exactly when no key's starless form prefixes the route |
| ApiServer.LookupStages | elastic_api_server.py:82-94 | an exact match wins, then the route without its query string; nothing is found exactly when all three stages fail |
| ApiServer.LookupPrefix | elastic_api_server.py:90-94 | when the first two stages fail, the first prefix-matching key in insertion order decides |
| ApiServer.Lookup | elastic_api_server.py:82-94 | a found file is the file of some key, and an exact match returns that key's file |
| ApiServer.RFind | elastic_api_server.py:106 | the last occurrence of a character, or -1 |
| ApiServer.AfterLastSlash | elastic_api_server.py:56-59 | the text after the last `/`: a suffix of the input holding no `/`, preceded by `/` or the start |
| ApiServer.LastComponent | elastic_api_server.py:106 | `Path.name` holds no `/` and is never `.` |
| ApiServer.Suffix | elastic_api_server.py:106 | `Path.suffix` is empty or a proper ending of the name that starts with its only dot |
| ApiServer.SuffixOfExtension | elastic_api_server.py:106 | `Path.suffix` of `stem + ext` is `ext` when the stem is non-empty, and empty for the hidden name `ext` alone |
| ApiServer.SuffixOfSpecName | elastic_api_server.py:56-59 | the file of a spec with extension `ext` has suffix `ext` exactly when its name does not end in `/` and is not empty |
| ApiServer.StoredSuffix | elastic_api_server.py:53-66 | a stored file with the default extension has suffix `.json` exactly when its name does not end in `/` and is not empty |
| ApiServer.MediaFor | elastic_api_server.py:106-111 | `.json` gives application/json, `.txt` gives PlainTextResponse, and anything else text/plain |
| ApiServer.RespondNotFound | elastic_api_server.py:96-100 | a 404 comes exactly when no file is found or the found file does not exist, and it carries `Route not found: <route>` |
| ApiServer.Respond | elastic_api_server.py:82-111 | a file is served exactly when the lookup finds one and it exists; the reply is then that file's text with newlines translated (so no `\r`), typed by the suffix of the file's base name |
| ApiServer.ServeBuiltRoute | elastic_api_server.py:82-111 | a route stored by item i, and by no later item, is served from that item's file with its text-mode content and the type of that file's suffix; with the default extension that type is application/json exactly when the name does not end in `/` and is not empty |
| ApiServer.Root | elastic_api_server.py:114-123 | `routes_count` is the number of routes, and `routes` shows at most 20 of them |
| ApiServer.RootListing | elastic_api_server.py:117-123 | `routes` is the first min(20, n) routes in sorted order: they strictly ascend, are routes of the table, and every route left out sorts after every route shown |
| ApiServer.RouteTable.constructor | elastic_api_server.py:23 | `ROUTE_MAP` starts empty |
| ApiServer.RouteTable.Store | elastic_api_server.py:66 | `ROUTE_MAP[route] = file_path`, in dict order |
| ApiServer.RouteTable.StoreItem | elastic_api_server.py:41-69 | one loop iteration changes the table by what the item stores, and nothing else |
| ApiServer.RouteTable.BuildRouteMapping | elastic_api_server.py:38-69 | the loop leaves the table that Build describes |
| ApiServer.RouteTable.CatchAll | elastic_api_server.py:76-111 | the staged search with `break` replies as Respond describes |
| StringOrder.LessTotal | elastic_api_server.py:117 | Python's string order is total |
| StringOrder.LessTransitive | elastic_api_server.py:117 | and transitive |
| StringOrder.Sort | elastic_api_server.py:117 | `sorted()` returns the same strings, each as often |
| StringOrder.SortSorted | elastic_api_server.py:117 | in ascending order |
| StringOrder.SortIsOnlyOrder | elastic_api_server.py:117 | and it is the only ascending arrangement of them |
| StringOrder.SortDistinct | elastic_api_server.py:117 | sorting distinct keys repeats none |
| Text.Strip | generate_diagnostics.py:145 | empty exactly for all-whitespace text; otherwise it starts and ends with a non-space |
| Text.TranslateNewlines | server.py:36 | text-mode reading leaves no `\r` and changes text that has none in no way |
| Text.SplitLines | server.py:37 | no line holds a line break, and only empty text has no lines |
| Text.SplitLinesAppend | server.py:37 | text joined at a `\n` splits into the lines of its two parts |
| Text.JoinSplitLines | server.py:41 | joining the lines with `\n` gives back text that breaks lines only with `\n` and does not end with one |
| RouteLoader.Scan | server.py:19 | a successful scan returns one non-empty group per capture, each a run of its class |
| RouteLoader.MatchHeader | server.py:19 | `group(1)` of a header is a non-empty run of non-space characters |
| RouteLoader.HeaderStartsWithHash | server.py:19 | a header line starts with `#` |
| RouteLoader.HeaderHead | server.py:19 | `#\s*\d+:\s*` consumes `#`, spaces, digits, `:` and spaces |
| RouteLoader.HeaderTail | server.py:19 | `GET\s+(\S+)\s+\d+` in any case captures the path |
| RouteLoader.MatchHeaderOf | server.py:19 | every line of the header's shape matches, capturing its path, whatever follows the status |
| RouteLoader.NormalisePath | server.py:49 | the path starts with `/`: unchanged when it does already, `/` prepended otherwise |
| RouteLoader.CommentStartIs | server.py:22 | the cut is at the first `//` or `#` of the line, or at its end |
| RouteLoader.StripCommentsLine | server.py:22 | each line is cut at its first `//` or `#`, and the newline and later lines are kept |
| RouteLoader.StripCommentsNoHash | server.py:22 | no `#` survives the comment step |
| RouteLoader.StripComments | server.py:22 | the comment step only removes text |
| RouteLoader.StripCommentsNoComment | server.py:22 | text without `#` or `/` is left unchanged |
| RouteLoader.ReplaceEllipsisAppend | server.py:23 | replacement distributes over text not split inside a run of dots |
| RouteLoader.ReplaceEllipsisAt | server.py:23 | a `...` not preceded by a dot becomes `null` |
| RouteLoader.ReplaceEllipsis | server.py:23 | the ellipsis step never shortens the text |
| RouteLoader.ReplaceEllipsisNoDot | server.py:23 | text without a dot is left unchanged |
| RouteLoader.DropTrailingCommasStep | server.py:24 | one step of the scan emits a prefix of the result and resumes later |
| RouteLoader.DropTrailingCommasAppend | server.py:24 | the substitution distributes over text whose split cannot start a match |
| RouteLoader.DropTrailingCommasAt | server.py:24 | a comma followed by whitespace and `}` or `]` is replaced by the bracket, and the whitespace goes too |
| RouteLoader.DropTrailingCommas | server.py:24 | the trailing-comma step only removes text |
| RouteLoader.DropTrailingCommasNoComma | server.py:24 | text without a comma is left unchanged |
| RouteLoader.Clean | server.py:21-25 | the cleaned text contains no `#` |
| RouteLoader.WalkSnoc | server.py:37-51 | the loop's state after one more line is one Step from the state before |
| RouteLoader.Step | server.py:38-51 | a line that is not a header stores nothing, and while no header has been seen a line changes nothing |
| RouteLoader.Walk | server.py:37-51 | when no header is ever seen, the loop changes nothing |
| RouteLoader.LoadRoutes | server.py:27-65 | the loop over lines, with `continue` on a failed parse and the final flush, returns what LoadRoutesSpec describes |
| RouteLoader.LoadRoutesSpec | server.py:32-34 | a missing or unreadable file gives the empty map |
| RouteLoader.WalkAppend | server.py:37-51 | walking two runs of lines is walking one after the other |
| RouteLoader.WalkBody | server.py:50-51 | non-header lines are buffered once a header has been seen, and dropped before that |
| RouteLoader.PreambleIgnored | server.py:37-51 | lines before the first header change nothing |
| RouteLoader.StepHeaderEmpty | server.py:38-49 | a header with nothing buffered only moves `cur` |
| RouteLoader.EmptySectionNoRoute | server.py:38-49 | a header followed at once by another yields no route |
| RouteLoader.ParsedSectionStored | server.py:39-49 | at a header, a buffered section that parses is stored under `cur`, overwriting an earlier payload, and the buffer is cleared |
| RouteLoader.FailedParseDropsHeader | server.py:39-49 | when the buffered section fails to parse, the header is dropped and its body lines join the failed section under the old path |
| RouteLoader.StepRooted | server.py:38-51 | each line keeps every stored path and `cur` starting with `/`, and buffers nothing before a header |
| RouteLoader.WalkRooted | server.py:37-51 | so does the whole loop |
| RouteLoader.LoadRoutesRooted | server.py:49 | every path load_routes returns starts with `/` |
| RouteLoader.Registered | server.py:87-94 | the registration loop registers exactly the string paths that start with `/` |
| RouteLoader.RegisteredAll | server.py:87-94 | the filter rejects no path that load_routes returns |
| RoundTrip.HeaderMatches | generate_diagnostics.py:152 | a written header, with a non-space endpoint, matches `HDR` and captures the endpoint |
| RoundTrip.RenderLines | generate_diagnostics.py:152-156 | the written text splits into header and body lines, block by block, and has no `\r` |
| RoundTrip.LinesSnoc | generate_diagnostics.py:152-156 | the lines of one more block follow the earlier lines |
| RoundTrip.WalkBlock | server.py:37-51 | a block's header flushes the pending section, and its body becomes the new pending section |
| RoundTrip.PendingNext | server.py:38-51 | one more block stores the pending one and leaves itself pending |
| RoundTrip.WalkRendered | server.py:37-51 | after the written blocks, all but the last are stored and the last is pending |
| RoundTrip.FlushPending | server.py:53-56 | the final flush stores the last block |
| RoundTrip.ExpectedKeys | server.py:43 | a path is a route exactly when some entry's endpoint normalises to it |
| RoundTrip.ExpectedLastWins | server.py:43-56 | a route holds the payload of the last entry for it |
| RoundTrip.ParsesEach | server.py:43 | every entry's body parses |
| RoundTrip.AllWellformedEach | generate_diagnostics.py:152-156 | every entry is wellformed |
| RoundTrip.RenderRoundTrip | server.py:27-65 | loading the rendering of wellformed, parsing entries gives Expected |
| RoundTrip.GeneratedRoundTrip | generate_diagnostics.py:106-162 | loading generate_output's file gives one route per written entry, holding the payload of the last block written for it, when endpoints have no whitespace, no body line is a header, and bodies parse |
| RoundTrip.PayloadOfPlainBody | server.py:41 | a body that breaks lines only with `\n` is cleaned and parsed as written |
| RoundTrip.NoHeaderWithoutHash | server.py:19 | body lines that do not start with `#` never look like headers |

## Left out

- HTTP serving is left out because it is framework code: the FastAPI
  application, uvicorn, ports, certificates, the `@app.get` decorators
  and `create_endpoint` closures. A registered route stands for a fixed
  path with its payload; the catch-all handler returns a `Reply` value.
- File I/O is left out: `open`, `Path.glob`, `exists` and `read_text`.
  Each listing is given as a sequence, existing files as a map from
  file to raw text, and load_routes' file as
  `Missing | Unreadable | Readable(raw)`. Text-mode newline translation
  is modelled.
- YAML, JSON and json5 parsing are left out because they are foreign
  libraries. The configuration is given as its items in file order. The
  payload parser is the parameter `loads`, with `None` for a parse error.
- `get_es_version`, `read_yaml_config`, `load_elastic_config`, both
  `main` functions and their `sys.exit` paths are left out because they
  are I/O; the version string is a field of `Diagnostics.Context`.
- Logging and printing are left out, including the example-route
  printout in elastic_api_server.py.
- `\d`, `\s` and `\S` are restricted to ASCII digits and Python's
  `str.isspace()` characters. Unicode decimal digits other than `0-9`
  are not modelled.
- RouteLoader.MatchHeader: the tail `\s*\w*` of `HDR` is omitted. It
  always matches at least the empty string and captures nothing, so it
  cannot change whether a line matches or what `group(1)` is.
- `re.I` case folding is applied to the word `GET` only, the one literal
  word in `HDR`. Non-ASCII case folding is not modelled.
- The order in which FastAPI registers routes is left out. Registered
  states the set of registered paths.
- ApiServer.FileSuffix: a data file whose name has no component other
  than empty ones or `.` (the config key and extension both empty, or a
  name of slashes) names a directory. The code stores a route for it,
  since `exists()` holds, and every request for that route fails in
  `read_text`. A directory is not a file of the disk map, so the model
  stores no such route; it takes the suffix of such a name as empty.
- ApiServer.Respond and ApiServer.RouteTable.CatchAll: `read_text()`
  at elastic_api_server.py:103 sits outside any `try`, so an existing
  file that cannot be read (a permission error, or bytes that do not
  decode in the locale encoding) raises and gives an HTTP 500. The
  model treats every file of the disk map as readable text and has no
  500 reply.
- ApiServer.RouteTable.CatchAll: a file that disappears between
  `exists()` and `read_text` is not modelled, because the file system
  is a fixed map.
- The exceptions that `read_text` can raise in server.py are left out
  because they depend on the file contents. They are all the single
  case `Unreadable`, which returns the empty map, as the outer `except`
  does.
- The path filter's `isinstance(path, str)` test is always true in the
  model, because keys are strings.

Two behaviours of the code that are easy to misread:
- `clean`'s third step rewrites `,\s*]` to `]`, which removes the
  whitespace between the comma and the bracket as well as the comma;
- after a failed section parse, `continue` drops the next header and
  appends its body to the failed section.
