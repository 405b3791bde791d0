/**
 * What the host browser hands to the extension: tabs as its tab query
 * reports them, and the fields of a parsed URL.
 */
module Browser {
  import opened Wrappers

  /** A tab of the current window; `url` is None when the host reports none. */
  datatype Tab = Tab(id: int, url: Option<string>, title: string, pinned: bool)

  /**
   * The parts of `new URL(text)` that the extension reads. `q` is the first
   * value of the `q` parameter of `search` as `URLSearchParams.get` returns
   * it (None when there is no such parameter).
   */
  datatype ParsedUrl = ParsedUrl(
    hostname: string,
    origin: string,
    pathname: string,
    search: string,
    hash: string,
    q: Option<string>)

  /** `new URL(text)`: None stands for the constructor throwing. */
  type Parser = string -> Option<ParsedUrl>

  /** The host's blank new-tab page. */
  const NewTabUrl: string := "chrome://newtab/"

  predicate DistinctIds(tabs: seq<Tab>) {
    forall i, j :: 0 <= i < j < |tabs| ==> tabs[i].id != tabs[j].id
  }
}
