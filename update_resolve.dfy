/**
 * How the update script settles on a PDF address for a detail page:
 * `find_pdf_url_on_page` (with the viewer rule), then the anchor
 * heuristic, then the frames of the page. A value that Python treats as
 * false (None or "") sends the search on to the next tier.
 */
module UpdateResolve {
  import opened Wrappers
  import opened Text
  import opened Page
  import opened PdfTiers

  /** Python truthiness of an optional string. */
  predicate Truthy(o: Option<string>) {
    o.Some? && o.value != ""
  }

  /** `href` of an anchor element, "" when absent. */
  function Href(el: Element): string {
    Attr(el, "href").GetOr("")
  }

  /** The anchor heuristic: an `a` whose `href` ends with `.pdf`, or mentions `.pdf` under a "view"/"pdf" text. */
  predicate LooksLikePdfLink(el: Element) {
    && el.tag == "a"
    && Href(el) != ""
    && (|| EndsWithPdf(Href(el))
        || (HasPdf(Href(el)) && (Contains(Lower(el.text), "view") || Contains(Lower(el.text), "pdf"))))
  }

  /** The anchor loop: the first matching anchor's `href`, resolved against the page. */
  function AnchorTier(els: seq<Element>, base: string, ops: UrlOps): (r: Option<string>)
    ensures r.None? <==> forall i :: 0 <= i < |els| ==> !LooksLikePdfLink(els[i])
    decreases |els|
  {
    if els == [] then None
    else if LooksLikePdfLink(els[0]) then Some(ops.join(base, Href(els[0])))
    else
      var r := AnchorTier(els[1..], base, ops);
      assert forall i :: 1 <= i < |els| ==> els[i] == els[1..][i - 1];
      r
  }

  /** The four `$=` selectors tried inside each frame. */
  const FrameSelectors: seq<Selector> := [
    Selector("iframe", "src", EndsWithDotPdf),
    Selector("embed", "src", EndsWithDotPdf),
    Selector("object", "data", EndsWithDotPdf),
    Selector("a", "href", EndsWithDotPdf)
  ]

  /** The selector loop inside one frame: the first hit whose resolved address is not empty. */
  function FrameSelectorHit(els: seq<Element>, sels: seq<Selector>, base: string, ops: UrlOps): (r: Option<string>)
    ensures r.Some? ==> r.value != ""
    decreases |sels|
  {
    if sels == [] then None
    else
      match QuerySelector(els, sels[0])
      case Some(el) =>
        (match PdfAttr(el, TargetedAttrs)
         case Some(v) =>
           if ops.join(base, v) != "" then Some(ops.join(base, v)) else FrameSelectorHit(els, sels[1..], base, ops)
         case None => FrameSelectorHit(els, sels[1..], base, ops))
      case None => FrameSelectorHit(els, sels[1..], base, ops)
  }

  /** One frame: its own address when that ends with `.pdf`, else what its selectors find. */
  function FrameHit(f: Frame, ops: UrlOps): (r: Option<string>)
    ensures r.Some? ==> r.value != ""
  {
    if f.url != "" && EndsWithPdf(f.url) then Some(f.url)
    else FrameSelectorHit(f.elements, FrameSelectors, f.url, ops)
  }

  /** The frames loop: the first frame with a hit. */
  function FrameTier(frames: seq<Frame>, ops: UrlOps): (r: Option<string>)
    ensures r.Some? ==> r.value != ""
    decreases |frames|
  {
    if frames == [] then None
    else
      match FrameHit(frames[0], ops)
      case Some(u) => Some(u)
      case None => FrameTier(frames[1..], ops)
  }

  /**
   * The PDF address the update script settles on before resolving it a
   * last time (None when every tier came up empty or false).
   */
  function ResolvePdf(page: DetailPage, ops: UrlOps): (r: Option<string>)
    ensures r.Some? ==> r.value != ""
  {
    var found := FindPdfUrlOnPage(page, FileParamOrViewer, ops);
    if Truthy(found) then found
    else if Truthy(AnchorTier(page.elements, page.url, ops)) then AnchorTier(page.elements, page.url, ops)
    else FrameTier(page.frames, ops)
  }

  /** A case-insensitive `.pdf` suffix is also a case-insensitive `.pdf` occurrence. */
  lemma EndsWithPdfIsHasPdf(s: string)
    requires EndsWithPdf(s)
    ensures HasPdf(s)
  {
    EndsWithContains(Lower(s), PdfSuffix);
  }

  /** When `urljoin` keeps non-empty references non-empty, every address the resolver returns is true. */
  lemma FindTruthy(page: DetailPage, ops: UrlOps)
    requires JoinKeepsNonEmpty(ops)
    ensures FindPdfUrlOnPage(page, FileParamOrViewer, ops).Some? ==> Truthy(FindPdfUrlOnPage(page, FileParamOrViewer, ops))
  {
    match AttributeTiers(page.elements)
    case Some(v) =>
    case None =>
      match IframeTier(page.elements, FileParamOrViewer, ops)
      case Some(c) => assert c != "" by { assert !StartsWith([], PdfSuffix); }
      case None =>
  }

  /** No element of a page without `.pdf` attributes passes the anchor heuristic. */
  lemma NoPdfLinkWithoutPdfAttribute(els: seq<Element>, i: nat)
    requires NoPdfAttribute(els) && i < |els|
    ensures !LooksLikePdfLink(els[i])
  {
    assert !PdfValue(Attr(els[i], ScannedAttrs[1]));
    if LooksLikePdfLink(els[i]) {
      if EndsWithPdf(Href(els[i])) {
        EndsWithPdfIsHasPdf(Href(els[i]));
      }
      assert false;
    }
  }

  /**
   * The anchor heuristic is dead code: it runs only when
   * `find_pdf_url_on_page` returned nothing true, and then no `href`
   * mentions `.pdf` in any case.
   */
  lemma AnchorTierUnreachable(page: DetailPage, ops: UrlOps)
    requires JoinKeepsNonEmpty(ops)
    requires !Truthy(FindPdfUrlOnPage(page, FileParamOrViewer, ops))
    ensures AnchorTier(page.elements, page.url, ops).None?
  {
    FindTruthy(page, ops);
    forall i | 0 <= i < |page.elements| ensures !LooksLikePdfLink(page.elements[i]) {
      NoPdfLinkWithoutPdfAttribute(page.elements, i);
    }
  }

  /**
   * What the update script finds on a page: nothing exactly when no
   * element has a `.pdf` attribute, no viewer frame names a `.pdf`, and
   * no frame yields one.
   */
  lemma ResolvePdfNone(page: DetailPage, ops: UrlOps)
    requires JoinKeepsNonEmpty(ops)
    ensures ResolvePdf(page, ops).None?
        <==> NoPdfAttribute(page.elements) && ViewerTier(page.elements, ops).None? && FrameTier(page.frames, ops).None?
  {
    FindTruthy(page, ops);
    UpdateFindNone(page, ops);
    if !Truthy(FindPdfUrlOnPage(page, FileParamOrViewer, ops)) {
      AnchorTierUnreachable(page, ops);
    }
  }

  /** The anchor loop with its `break`. */
  method FindPdfAnchor(els: seq<Element>, base: string, ops: UrlOps) returns (r: Option<string>)
    ensures r == AnchorTier(els, base, ops)
  {
    var i := 0;
    while i < |els|
      invariant 0 <= i <= |els|
      invariant AnchorTier(els, base, ops) == AnchorTier(els[i..], base, ops)
    {
      assert els[i..][1..] == els[i + 1..];
      if LooksLikePdfLink(els[i]) {
        return Some(ops.join(base, Href(els[i])));
      }
      i := i + 1;
    }
    return None;
  }

  /** The selector loop inside one frame. */
  method SearchFrame(f: Frame, ops: UrlOps) returns (r: Option<string>)
    ensures r == FrameHit(f, ops)
  {
    if f.url != "" && EndsWithPdf(f.url) {
      return Some(f.url);
    }
    var i := 0;
    while i < |FrameSelectors|
      invariant 0 <= i <= |FrameSelectors|
      invariant FrameHit(f, ops) == FrameSelectorHit(f.elements, FrameSelectors[i..], f.url, ops)
    {
      assert FrameSelectors[i..][1..] == FrameSelectors[i + 1..];
      var el := QuerySelector(f.elements, FrameSelectors[i]);
      if el.Some? {
        var v := FirstPdfAttr(el.value, TargetedAttrs);
        if v.Some? {
          var u := ops.join(f.url, v.value);
          if u != "" {
            return Some(u);
          }
        }
      }
      i := i + 1;
    }
    return None;
  }

  /** The frames loop of lines 265-286. */
  method SearchFrames(frames: seq<Frame>, ops: UrlOps) returns (r: Option<string>)
    ensures r == FrameTier(frames, ops)
  {
    var i := 0;
    while i < |frames|
      invariant 0 <= i <= |frames|
      invariant FrameTier(frames, ops) == FrameTier(frames[i..], ops)
    {
      assert frames[i..][1..] == frames[i + 1..];
      var hit := SearchFrame(frames[i], ops);
      if hit.Some? {
        return hit;
      }
      i := i + 1;
    }
    return None;
  }

  /** Lines 253-286: the resolver, then the anchor heuristic, then the frames. */
  method ResolveEntryPdf(page: DetailPage, ops: UrlOps) returns (pdfUrl: Option<string>)
    ensures pdfUrl == ResolvePdf(page, ops)
  {
    pdfUrl := FindPdfUrl(page, FileParamOrViewer, ops);
    if !Truthy(pdfUrl) {
      var a := FindPdfAnchor(page.elements, page.url, ops);
      if Truthy(a) {
        pdfUrl := a;
      }
    }
    if !Truthy(pdfUrl) {
      pdfUrl := SearchFrames(page.frames, ops);
    }
  }
}
