/**
 * The two records the application stores: a saved API call and a named
 * environment of variables. Null maps are normalised to empty by the
 * constructors and setters, so the maps here are plain (never absent).
 */
module Model {
  import opened Wrappers

  /**
   * A saved call. `name` is absent until the user names it (the cURL importer
   * leaves it unset); `group` is absent for an ungrouped call.
   */
  datatype ApiCall = ApiCall(
    name: Option<string>,
    url: string,
    httpMethod: string,
    headers: map<string, string>,
    body: map<string, string>,
    group: Option<string>)

  datatype Environment = Environment(name: string, variables: map<string, string>)
}
