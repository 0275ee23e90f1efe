/**
 * `find_pdf_url_on_page`, which both scrapers define: a first-hit-wins
 * chain over a detail page's elements. The targeted tier tries eight
 * selectors in turn, the scan tier looks at every element's attributes,
 * and the iframe tier decodes a `file=` query parameter (the update script
 * also a viewer's `src=` parameter). Each selector is read as "the first
 * element in document order with this tag whose attribute ends with, or
 * contains, `.pdf`", which is what a CSS attribute selector matches.
 */
module PdfTiers {
  import opened Wrappers
  import opened Text
  import opened Page

  /** `[attr$='.pdf']` or `[attr*='.pdf']`; both compare case-sensitively. */
  datatype AttrTest = EndsWithDotPdf | ContainsDotPdf

  datatype Selector = Selector(tag: string, attr: string, test: AttrTest)

  predicate Matches(el: Element, sel: Selector) {
    && el.tag == sel.tag
    && sel.attr in el.attrs
    && match sel.test
       case EndsWithDotPdf => EndsWith(el.attrs[sel.attr], PdfSuffix)
       case ContainsDotPdf => Contains(el.attrs[sel.attr], PdfSuffix)
  }

  /** `page.query_selector(sel)`: the first matching element in document order. */
  function QuerySelector(els: seq<Element>, sel: Selector): (r: Option<Element>)
    ensures r.Some? ==> r.value in els && Matches(r.value, sel)
    ensures r.None? <==> forall i :: 0 <= i < |els| ==> !Matches(els[i], sel)
    decreases |els|
  {
    if els == [] then None
    else if Matches(els[0], sel) then Some(els[0])
    else
      var r := QuerySelector(els[1..], sel);
      assert forall i :: 1 <= i < |els| ==> els[i] == els[1..][i - 1];
      r
  }

  /** The eight selectors of the targeted tier, in the order they are tried. */
  const TargetedSelectors: seq<Selector> := [
    Selector("iframe", "src", EndsWithDotPdf),
    Selector("iframe", "src", ContainsDotPdf),
    Selector("embed", "src", EndsWithDotPdf),
    Selector("embed", "src", ContainsDotPdf),
    Selector("object", "data", EndsWithDotPdf),
    Selector("object", "data", ContainsDotPdf),
    Selector("a", "href", EndsWithDotPdf),
    Selector("a", "href", ContainsDotPdf)
  ]

  /** The attributes read from an element found by a selector. */
  const TargetedAttrs: seq<string> := ["src", "href", "data"]

  /** The attributes read from every element by the scan tier. */
  const ScannedAttrs: seq<string> := ["src", "href", "data", "data-src"]

  /** `v and ".pdf" in v.lower()` for an attribute value `v` (None when absent). */
  predicate PdfValue(v: Option<string>) {
    v.Some? && v.value != "" && HasPdf(v.value)
  }

  /** The first of the named attributes whose value mentions `.pdf`. */
  function PdfAttr(el: Element, names: seq<string>): (r: Option<string>)
    ensures r.Some? ==> PdfValue(r)
    ensures r.None? <==> forall j :: 0 <= j < |names| ==> !PdfValue(Attr(el, names[j]))
    decreases |names|
  {
    if names == [] then None
    else if PdfValue(Attr(el, names[0])) then Attr(el, names[0])
    else
      var r := PdfAttr(el, names[1..]);
      assert forall j :: 1 <= j < |names| ==> names[j] == names[1..][j - 1];
      r
  }

  /**
   * The targeted tier: for each selector in turn, its first element; the
   * first such element with a `.pdf` attribute gives the value.
   */
  function TargetedTier(els: seq<Element>, sels: seq<Selector>): (r: Option<string>)
    ensures r.Some? ==> PdfValue(r)
    decreases |sels|
  {
    if sels == [] then None
    else
      match QuerySelector(els, sels[0])
      case Some(el) =>
        (match PdfAttr(el, TargetedAttrs)
         case Some(v) => Some(v)
         case None => TargetedTier(els, sels[1..]))
      case None => TargetedTier(els, sels[1..])
  }

  /** The scan tier: the first element, in document order, with a `.pdf` attribute. */
  function ScanTier(els: seq<Element>): (r: Option<string>)
    ensures r.Some? ==> PdfValue(r)
    ensures r.None? <==> forall i :: 0 <= i < |els| ==> PdfAttr(els[i], ScannedAttrs).None?
    decreases |els|
  {
    if els == [] then None
    else
      match PdfAttr(els[0], ScannedAttrs)
      case Some(v) => Some(v)
      case None =>
        var r := ScanTier(els[1..]);
        assert forall i :: 1 <= i < |els| ==> els[i] == els[1..][i - 1];
        r
  }

  /** No element has a `src`, `href`, `data` or `data-src` value mentioning `.pdf` in any case. */
  predicate NoPdfAttribute(els: seq<Element>) {
    forall i, j :: 0 <= i < |els| && 0 <= j < |ScannedAttrs| ==> !PdfValue(Attr(els[i], ScannedAttrs[j]))
  }

  /** The scan tier finds nothing exactly when no element has a `.pdf` attribute. */
  lemma ScanNoneIff(els: seq<Element>)
    ensures ScanTier(els).None? <==> NoPdfAttribute(els)
  {
    if ScanTier(els).Some? {
      var i :| 0 <= i < |els| && PdfAttr(els[i], ScannedAttrs).Some?;
      var j :| 0 <= j < |ScannedAttrs| && PdfValue(Attr(els[i], ScannedAttrs[j]));
    }
  }

  /** An element the targeted tier reads a value from is one the scan tier reads too. */
  lemma TargetedAttrScanned(el: Element)
    requires PdfAttr(el, TargetedAttrs).Some?
    ensures PdfAttr(el, ScannedAttrs).Some?
  {
    var j :| 0 <= j < |TargetedAttrs| && PdfValue(Attr(el, TargetedAttrs[j]));
    assert ScannedAttrs[j] == TargetedAttrs[j];
  }

  /** The targeted tier finds a value only on a page that has a `.pdf` attribute. */
  lemma {:induction false} TargetedNeedsPdfAttribute(els: seq<Element>, sels: seq<Selector>)
    requires TargetedTier(els, sels).Some?
    ensures !NoPdfAttribute(els)
    decreases |sels|
  {
    match QuerySelector(els, sels[0])
    case Some(el) =>
      if PdfAttr(el, TargetedAttrs).Some? {
        TargetedAttrScanned(el);
        var i :| 0 <= i < |els| && els[i] == el;
        ScanNoneIff(els);
      } else {
        TargetedNeedsPdfAttribute(els, sels[1..]);
      }
    case None =>
      TargetedNeedsPdfAttribute(els, sels[1..]);
  }

  /** The two regular expressions the iframe tier searches a `src` with. */
  datatype ParamPattern =
    | FileParam  // `[?&]file=([^&]+)`
    | SrcParam   // `src=([^&]+)`

  /** Where the captured group starts, relative to the match. */
  function GroupOffset(p: ParamPattern): nat {
    match p
    case FileParam => 6
    case SrcParam => 4
  }

  /** The pattern matches at position `j` (its group needs one character that is not `&`). */
  predicate MatchAt(s: string, j: nat, p: ParamPattern) {
    && j + GroupOffset(p) < |s|
    && s[j + GroupOffset(p)] != '&'
    && match p
       case FileParam => (s[j] == '?' || s[j] == '&') && s[j + 1..j + 6] == "file="
       case SrcParam => s[j..j + 4] == "src="
  }

  /** The leftmost match at or after `j`, as `re.search` finds it. */
  function FirstMatch(s: string, p: ParamPattern, j: nat): (r: Option<nat>)
    ensures r.Some? ==> j <= r.value && MatchAt(s, r.value, p)
    ensures r.Some? ==> forall m :: j <= m < r.value ==> !MatchAt(s, m, p)
    ensures r.None? ==> forall m :: j <= m < |s| ==> !MatchAt(s, m, p)
    decreases |s| - j
  {
    if j >= |s| then None
    else if MatchAt(s, j, p) then Some(j)
    else FirstMatch(s, p, j + 1)
  }

  /** `[^&]+` taken greedily: the longest prefix without `&`. */
  function AmpFreePrefix(t: string): (r: string)
    ensures |r| <= |t| && r == t[..|r|]
    ensures forall i :: 0 <= i < |r| ==> r[i] != '&'
    ensures |r| == |t| || t[|r|] == '&'
    decreases |t|
  {
    if t == [] || t[0] == '&' then []
    else
      var r := [t[0]] + AmpFreePrefix(t[1..]);
      assert t[1..][..|r| - 1] == t[1..|r|];
      r
  }

  /** `m.group(1)` of `re.search(pattern, s)`, None when there is no match. */
  function SearchGroup(s: string, p: ParamPattern): (r: Option<string>)
    ensures r.Some? ==> r.value != "" && forall i :: 0 <= i < |r.value| ==> r.value[i] != '&'
    ensures r.None? <==> forall m :: 0 <= m < |s| ==> !MatchAt(s, m, p)
  {
    match FirstMatch(s, p, 0)
    case Some(j) =>
      var g := AmpFreePrefix(s[j + GroupOffset(p)..]);
      assert g != "" by {
        assert s[j + GroupOffset(p)..][0] == s[j + GroupOffset(p)];
      }
      Some(g)
    case None => None
  }

  /** Which parameters the iframe tier looks for. */
  datatype IframeRules =
    | FileParamOnly      // the snapshot script
    | FileParamOrViewer  // the update script: also `src=` in a `pdfjs` / `viewer` frame

  /** `ifr.get_attribute("src") or ""` */
  function IframeSrc(el: Element): string {
    Attr(el, "src").GetOr("")
  }

  /** The `file=` rule: the decoded parameter, when it mentions `.pdf`. */
  function FileCandidate(src: string, ops: UrlOps): (r: Option<string>)
    ensures r.Some? ==> Contains(src, PdfSuffix) && Contains(r.value, PdfSuffix)
  {
    if Contains(src, "file=") && Contains(src, PdfSuffix) then
      match SearchGroup(src, FileParam)
      case Some(g) => if Contains(ops.unquote(g), PdfSuffix) then Some(ops.unquote(g)) else None
      case None => None
    else None
  }

  /** The viewer rule: the decoded `src=` parameter of a `pdfjs` or `viewer` frame, when it mentions `.pdf`. */
  function ViewerCandidate(src: string, ops: UrlOps): (r: Option<string>)
    ensures r.Some? ==> (Contains(src, "pdfjs") || Contains(src, "viewer")) && Contains(r.value, PdfSuffix)
  {
    if Contains(src, "pdfjs") || Contains(src, "viewer") then
      match SearchGroup(src, SrcParam)
      case Some(g) => if Contains(ops.unquote(g), PdfSuffix) then Some(ops.unquote(g)) else None
      case None => None
    else None
  }

  /** What one element contributes to the iframe tier. */
  function IframeHit(el: Element, rules: IframeRules, ops: UrlOps): Option<string> {
    if el.tag != "iframe" then None
    else
      match FileCandidate(IframeSrc(el), ops)
      case Some(c) => Some(c)
      case None => if rules == FileParamOrViewer then ViewerCandidate(IframeSrc(el), ops) else None
  }

  /** The iframe tier: the first iframe, in document order, with a hit. */
  function IframeTier(els: seq<Element>, rules: IframeRules, ops: UrlOps): (r: Option<string>)
    ensures r.Some? ==> Contains(r.value, PdfSuffix)
    decreases |els|
  {
    if els == [] then None
    else
      match IframeHit(els[0], rules, ops)
      case Some(c) => Some(c)
      case None => IframeTier(els[1..], rules, ops)
  }

  /** The viewer rule alone over the iframes. */
  function ViewerTier(els: seq<Element>, ops: UrlOps): (r: Option<string>)
    ensures r.Some? ==> Contains(r.value, PdfSuffix)
    decreases |els|
  {
    if els == [] then None
    else if els[0].tag == "iframe" && ViewerCandidate(IframeSrc(els[0]), ops).Some? then
      ViewerCandidate(IframeSrc(els[0]), ops)
    else ViewerTier(els[1..], ops)
  }

  /** The value the first two tiers settle on, if any. */
  function AttributeTiers(els: seq<Element>): (r: Option<string>)
    ensures r.Some? ==> PdfValue(r)
    ensures r.None? <==> NoPdfAttribute(els)
  {
    ScanNoneIff(els);
    match TargetedTier(els, TargetedSelectors)
    case Some(v) => TargetedNeedsPdfAttribute(els, TargetedSelectors); Some(v)
    case None => ScanTier(els)
  }

  /** `find_pdf_url_on_page`: the first tier's hit, resolved against the page's address. */
  function FindPdfUrlOnPage(page: DetailPage, rules: IframeRules, ops: UrlOps): (r: Option<string>)
    ensures r.None? <==> NoPdfAttribute(page.elements) && IframeTier(page.elements, rules, ops).None?
  {
    match AttributeTiers(page.elements)
    case Some(v) => Some(ops.join(page.url, v))
    case None =>
      match IframeTier(page.elements, rules, ops)
      case Some(c) => Some(ops.join(page.url, c))
      case None => None
  }

  /**
   * The `file=` rule never fires once the attribute tiers have found
   * nothing: a `src` mentioning `.pdf` is an attribute the scan tier
   * would already have returned.
   */
  lemma FileCandidateUnreachable(els: seq<Element>, i: nat, ops: UrlOps)
    requires NoPdfAttribute(els) && i < |els|
    ensures FileCandidate(IframeSrc(els[i]), ops).None?
  {
    var a := Attr(els[i], "src");
    assert !PdfValue(Attr(els[i], ScannedAttrs[0]));
    if a.Some? && a.value != "" {
      if Contains(a.value, PdfSuffix) {
        ContainsPdfHasPdf(a.value);
        assert false;
      }
    } else {
      assert !StartsWith(IframeSrc(els[i]), PdfSuffix);
    }
  }

  lemma NoPdfAttributeTail(els: seq<Element>)
    requires els != [] && NoPdfAttribute(els)
    ensures NoPdfAttribute(els[1..])
  {
    assert forall i :: 0 <= i < |els| - 1 ==> els[1..][i] == els[i + 1];
  }

  /** On a page without `.pdf` attributes the iframe tier is the viewer rule alone. */
  lemma {:induction false} IframeTierWithoutPdfAttribute(els: seq<Element>, ops: UrlOps)
    requires NoPdfAttribute(els)
    ensures IframeTier(els, FileParamOnly, ops).None?
    ensures IframeTier(els, FileParamOrViewer, ops) == ViewerTier(els, ops)
    decreases |els|
  {
    if els != [] {
      FileCandidateUnreachable(els, 0, ops);
      NoPdfAttributeTail(els);
      IframeTierWithoutPdfAttribute(els[1..], ops);
    }
  }

  /**
   * The `file=` branch is dead code: `find_pdf_url_on_page` is the
   * attribute tiers followed, in the update script, by the viewer rule.
   */
  lemma FileParamTierDead(page: DetailPage, ops: UrlOps)
    ensures FindPdfUrlOnPage(page, FileParamOnly, ops)
         == (match AttributeTiers(page.elements) case Some(v) => Some(ops.join(page.url, v)) case None => None)
    ensures FindPdfUrlOnPage(page, FileParamOrViewer, ops)
         == match AttributeTiers(page.elements)
            case Some(v) => Some(ops.join(page.url, v))
            case None =>
              (match ViewerTier(page.elements, ops) case Some(c) => Some(ops.join(page.url, c)) case None => None)
  {
    if AttributeTiers(page.elements).None? {
      IframeTierWithoutPdfAttribute(page.elements, ops);
    }
  }

  /** The snapshot script's resolver finds nothing exactly when no element has a `.pdf` attribute. */
  lemma SnapshotFindNone(page: DetailPage, ops: UrlOps)
    ensures FindPdfUrlOnPage(page, FileParamOnly, ops).None? <==> NoPdfAttribute(page.elements)
  {
    if NoPdfAttribute(page.elements) {
      IframeTierWithoutPdfAttribute(page.elements, ops);
    }
  }

  /**
   * The update script's resolver finds nothing exactly when no element has
   * a `.pdf` attribute and no viewer frame names a `.pdf` in its `src=`.
   */
  lemma UpdateFindNone(page: DetailPage, ops: UrlOps)
    ensures FindPdfUrlOnPage(page, FileParamOrViewer, ops).None?
        <==> NoPdfAttribute(page.elements) && ViewerTier(page.elements, ops).None?
  {
    if NoPdfAttribute(page.elements) {
      IframeTierWithoutPdfAttribute(page.elements, ops);
    }
  }

  /** The attribute loop over one element: `for attr in names: ... return`. */
  method FirstPdfAttr(el: Element, names: seq<string>) returns (r: Option<string>)
    ensures r == PdfAttr(el, names)
  {
    var j := 0;
    while j < |names|
      invariant 0 <= j <= |names|
      invariant PdfAttr(el, names) == PdfAttr(el, names[j..])
    {
      assert names[j..][1..] == names[j + 1..];
      var v := Attr(el, names[j]);
      if v.Some? && v.value != "" && HasPdf(v.value) {
        return v;
      }
      j := j + 1;
    }
    return None;
  }

  /** The selector loop of the targeted tier. */
  method TryTargetedSelectors(els: seq<Element>) returns (r: Option<string>)
    ensures r == TargetedTier(els, TargetedSelectors)
  {
    var i := 0;
    while i < |TargetedSelectors|
      invariant 0 <= i <= |TargetedSelectors|
      invariant TargetedTier(els, TargetedSelectors) == TargetedTier(els, TargetedSelectors[i..])
    {
      assert TargetedSelectors[i..][1..] == TargetedSelectors[i + 1..];
      var el := QuerySelector(els, TargetedSelectors[i]);
      if el.Some? {
        var v := FirstPdfAttr(el.value, TargetedAttrs);
        if v.Some? {
          return v;
        }
      }
      i := i + 1;
    }
    return None;
  }

  /** The scan loop over `query_selector_all("*")`. */
  method ScanAllElements(els: seq<Element>) returns (r: Option<string>)
    ensures r == ScanTier(els)
  {
    var i := 0;
    while i < |els|
      invariant 0 <= i <= |els|
      invariant ScanTier(els) == ScanTier(els[i..])
    {
      assert els[i..][1..] == els[i + 1..];
      var v := FirstPdfAttr(els[i], ScannedAttrs);
      if v.Some? {
        return v;
      }
      i := i + 1;
    }
    return None;
  }

  /** The loop over `query_selector_all("iframe")`. */
  method ScanIframes(els: seq<Element>, rules: IframeRules, ops: UrlOps) returns (r: Option<string>)
    ensures r == IframeTier(els, rules, ops)
  {
    var i := 0;
    while i < |els|
      invariant 0 <= i <= |els|
      invariant IframeTier(els, rules, ops) == IframeTier(els[i..], rules, ops)
    {
      assert els[i..][1..] == els[i + 1..];
      var hit := IframeHit(els[i], rules, ops);
      if hit.Some? {
        return hit;
      }
      i := i + 1;
    }
    return None;
  }

  /** `find_pdf_url_on_page` with its early returns. */
  method FindPdfUrl(page: DetailPage, rules: IframeRules, ops: UrlOps) returns (r: Option<string>)
    ensures r == FindPdfUrlOnPage(page, rules, ops)
    ensures r.None? <==> NoPdfAttribute(page.elements) && IframeTier(page.elements, rules, ops).None?
  {
    var v := TryTargetedSelectors(page.elements);
    if v.Some? {
      return Some(ops.join(page.url, v.value));
    }
    v := ScanAllElements(page.elements);
    if v.Some? {
      return Some(ops.join(page.url, v.value));
    }
    var c := ScanIframes(page.elements, rules, ops);
    if c.Some? {
      return Some(ops.join(page.url, c.value));
    }
    return None;
  }
}
