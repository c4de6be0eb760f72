/**
 * The shape of elastic-rest.yml that both the output generator and the
 * route server read: a mapping from API names to specs, where a spec is
 * itself a mapping with `versions` (version rule → query), and optionally
 * `extension` and `subdir`. YAML parsing is not part of this model: a
 * configuration is given as its items, in file order.
 */
module RestConfig {
  import opened Wrappers

  /**
   * One value of the top-level mapping. A value that is not a mapping is
   * NotMapping. `versions` holds the rule → query pairs in file order; a
   * missing `versions` key and an empty one are both the empty list, since
   * every reader treats them alike.
   */
  datatype ApiSpec =
    | NotMapping
    | Mapping(versions: seq<(string, string)>, extension: Option<string>, subdir: Option<string>)

  /** The items of the top-level mapping, in file order. */
  type Config = seq<(string, ApiSpec)>

  /** The extension both scripts assume when a spec names none. */
  const DefaultExtension: string := ".json"

  /** `spec.get('extension', '.json')`. */
  function ExtensionOf(spec: ApiSpec): string
    requires spec.Mapping?
  {
    spec.extension.GetOr(DefaultExtension)
  }
}
