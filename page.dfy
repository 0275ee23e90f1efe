/**
 * The rendered pages both scrapers read, as plain data. The browser,
 * the CSS selector engine and the JavaScript the scrapers evaluate are
 * replaced by what they return: elements in document order, the rows of
 * the listing table, the anchors the fallback selector list matches, and
 * the sibling texts read next to each anchor.
 */
module Page {
  import opened Wrappers

  /** One element: its tag name (lower case), its attributes and its visible text. */
  datatype Element = Element(tag: string, attrs: map<string, string>, text: string)

  /** A frame of a detail page: its address and its elements in document order. */
  datatype Frame = Frame(url: string, elements: seq<Element>)

  /**
   * A loaded detail page: its address, its elements in document order
   * (`query_selector_all("*")`), and its frames as Playwright lists them
   * (`page.frames`, the main frame included).
   */
  datatype DetailPage = DetailPage(url: string, elements: seq<Element>, frames: seq<Frame>)

  /**
   * A hyperlink of the listing page: its text, its `href` attribute, and
   * the two texts the fallback reads next to it: the previous sibling
   * node's text and the text of the parent's previous element sibling
   * (each "" when there is no such node).
   */
  datatype Anchor = Anchor(text: string, href: Option<string>, prevSiblingText: string, parentPrevSiblingText: string)

  /** A row of the listing table: the texts of its `td` cells and its first hyperlink, if any. */
  datatype TableRow = TableRow(cells: seq<string>, anchor: Option<Anchor>)

  /**
   * The listing page: the rows of its first `table` (`tbody tr`, or `tr`
   * when there is no `tbody` row), None when it has no table; and the
   * anchors matched by the fallback selector list, in document order.
   */
  datatype ListingPage = ListingPage(table: Option<seq<TableRow>>, contentAnchors: seq<Anchor>)

  /**
   * The standard-library URL helpers, left uninterpreted: `urljoin`,
   * `unquote`, the path of `urlparse`, and `Path(...).name`.
   */
  datatype UrlOps = UrlOps(
    join: (string, string) -> string,
    unquote: string -> string,
    urlPath: string -> string,
    baseName: string -> string)

  /** `urljoin` of a non-empty reference is never empty, as Python's is not. */
  ghost predicate JoinKeepsNonEmpty(ops: UrlOps) {
    forall base, ref :: ref != "" ==> ops.join(base, ref) != ""
  }

  /** `el.get_attribute(name)` */
  function Attr(el: Element, name: string): Option<string> {
    if name in el.attrs then Some(el.attrs[name]) else None
  }
}
