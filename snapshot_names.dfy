/**
 * How the snapshot script names a PDF: its own `safe_filename`, which
 * falls back only on an empty input, truncates the sanitised text to 150
 * characters, strips it again and makes sure it ends in `.pdf`.
 */
module SnapshotNames {
  import opened Text

  /** `max_base`: the length the sanitised text is cut to before the suffix. */
  const MaxBase: nat := 150

  /** The default fallback of `safe_filename`. */
  const DefaultFallback: string := "document"

  /** `s[:max_base].strip()` */
  function CutBase(t: string): (r: string)
    ensures |r| <= MaxBase && |r| <= |t|
    ensures Stripped(r)
    ensures Clean(t) ==> Clean(r)
  {
    var cut := if |t| <= MaxBase then t else t[..MaxBase];
    StripSpec(cut);
    if Clean(t) then
      CleanSlice(t, 0, |cut|);
      CleanStrip(cut);
      Strip(cut)
    else Strip(cut)
  }

  /**
   * Cutting a stripped text with no two adjacent spaces keeps a prefix of
   * it that loses at most one trailing space to the strip, and keeps a
   * text that fits whole.
   */
  lemma CutBaseOfStripped(t: string)
    requires Stripped(t) && NoAdjacent(t, Whitespace)
    ensures StartsWith(t, CutBase(t))
    ensures (if |t| <= MaxBase then |t| else MaxBase) <= |CutBase(t)| + 1
    ensures |t| <= MaxBase ==> CutBase(t) == t
  {
    var cut := if |t| <= MaxBase then t else t[..MaxBase];
    StripSpec(t);
    if cut != [] {
      assert TrimStart(cut) == cut;
      var r := TrimEnd(cut);
      TrimEndSpec(cut);
      assert t[..|r|] == r;
    }
  }

  /**
   * `safe_filename(s, fallback)`: always a clean name ending in `.pdf`
   * of at most 154 characters; an empty input uses the fallback, but a
   * whitespace-only one gives the bare suffix.
   */
  function SafeFilename(s: string, fallback: string): (r: string)
    ensures EndsWithPdf(r) && Clean(r) && 4 <= |r| <= MaxBase + 4
    ensures s != "" && IsBlank(s) ==> r == PdfSuffix
  {
    var t := Sanitise(if s == "" then fallback else s);
    SanitiseSpec(if s == "" then fallback else s);
    var base := CutBase(t);
    if EndsWithPdf(base) then base
    else
      AppendPdf(base);
      PdfSuffixClean();
      CleanAppend(base, PdfSuffix);
      base + PdfSuffix
  }

  /**
   * What the name is made of: the sanitised input (the fallback's when the
   * input is empty) cut to a prefix of 149 or 150 characters, or kept whole
   * when it fits, and then given `.pdf` unless it already ends so.
   */
  lemma SafeFilenameFromText(s: string, fallback: string)
    ensures var t := Sanitise(if s == "" then fallback else s);
      var base := CutBase(t);
      var r := SafeFilename(s, fallback);
      && StartsWith(t, base)
      && (if |t| <= MaxBase then |t| else MaxBase) <= |base| + 1
      && (|t| <= MaxBase ==> base == t)
      && (EndsWithPdf(base) ==> r == base)
      && (!EndsWithPdf(base) ==> r == base + PdfSuffix)
  {
    var t := Sanitise(if s == "" then fallback else s);
    SanitiseSpec(if s == "" then fallback else s);
    SanitiseStripped(if s == "" then fallback else s);
    CutBaseOfStripped(t);
  }

  /** A clean, stripped title that fits the cut and lacks the suffix gets exactly the suffix added. */
  lemma SafeFilenameOfCleanTitle(title: string, fallback: string)
    requires title != "" && |title| <= MaxBase && Clean(title) && Stripped(title) && !EndsWithPdf(title)
    ensures SafeFilename(title, fallback) == title + PdfSuffix
  {
    BaseOfClean(title);
  }

  /** An empty input is named as its fallback would be. */
  lemma SafeFilenameOfEmpty(fallback: string, other: string)
    requires fallback != ""
    ensures SafeFilename("", fallback) == SafeFilename(fallback, other)
  {
  }

  /** A clean, stripped name that already ends in `.pdf` and fits the cut is kept as it is. */
  lemma SafeFilenameFixes(s: string, fallback: string)
    requires s != "" && |s| <= MaxBase && Clean(s) && Stripped(s) && EndsWithPdf(s)
    ensures SafeFilename(s, fallback) == s
  {
    SanitiseFixesClean(s);
    StripSpec(s);
  }

  /**
   * Re-sanitising, as the CSV and JSON writers do, leaves a name of at
   * most 150 characters unchanged.
   */
  lemma SafeFilenameIdempotent(s: string, fallback: string, fallback2: string)
    requires |SafeFilename(s, fallback)| <= MaxBase
    ensures SafeFilename(SafeFilename(s, fallback), fallback2) == SafeFilename(s, fallback)
  {
    var r := SafeFilename(s, fallback);
    var base := CutBase(Sanitise(if s == "" then fallback else s));
    if r != base {
      StrippedAppendPdf(base);
    }
    SafeFilenameFixes(r, fallback2);
  }

  /** Appending the suffix to a stripped text leaves it stripped. */
  lemma StrippedAppendPdf(base: string)
    requires Stripped(base)
    ensures Stripped(base + PdfSuffix)
  {
    var r := base + PdfSuffix;
    assert r[|r| - 1] == 'f';
    if base != [] {
      assert r[0] == base[0];
    }
  }

  /** A clean, stripped text that fits the cut is its own base. */
  lemma BaseOfClean(s: string)
    requires |s| <= MaxBase && Clean(s) && Stripped(s)
    ensures CutBase(Sanitise(s)) == s
  {
    SanitiseFixesClean(s);
    StripSpec(s);
  }

  /** The name for a 148-letter title: the title with the suffix. */
  lemma LetterTitleName(a: string)
    requires |a| == 148 && forall i :: 0 <= i < |a| ==> a[i] == 'a'
    ensures SafeFilename(a, DefaultFallback) == a + PdfSuffix
  {
    assert Clean(a) && Stripped(a);
    assert Lower(a)[147] == 'a';
    SafeFilenameOfCleanTitle(a, DefaultFallback);
  }

  /** That name is clean and stripped, so sanitising keeps it. */
  lemma LetterNameSanitised(a: string)
    requires |a| == 148 && forall i :: 0 <= i < |a| ==> a[i] == 'a'
    ensures Sanitise(a + PdfSuffix) == a + PdfSuffix
  {
    var n := a + PdfSuffix;
    assert Clean(a);
    PdfSuffixClean();
    CleanAppend(a, PdfSuffix);
    assert n[0] == 'a' && n[151] == 'f';
    SanitiseFixesClean(n);
  }

  /** Cutting that name at 150 characters ends inside the suffix. */
  lemma LetterNameCut(a: string)
    requires |a| == 148 && forall i :: 0 <= i < |a| ==> a[i] == 'a'
    ensures CutBase(a + PdfSuffix) == a + ".p"
  {
    var n := a + PdfSuffix;
    var cut := n[..MaxBase];
    assert cut == a + ".p";
    assert cut[0] == 'a' && cut[149] == 'p';
    StripSpec(cut);
  }

  /** Re-sanitising that name cuts it inside the suffix. */
  lemma LetterTitleRename(a: string)
    requires |a| == 148 && forall i :: 0 <= i < |a| ==> a[i] == 'a'
    ensures SafeFilename(a + PdfSuffix, DefaultFallback) == a + ".p.pdf"
  {
    LetterNameSanitised(a);
    LetterNameCut(a);
    var cut := a + ".p";
    assert Lower(cut)[149] == 'p';
    assert cut + PdfSuffix == a + ".p.pdf";
  }

  /**
   * The bound is needed: a 148-character base gets the suffix (152
   * characters), and re-sanitising cuts that to the base plus `.p`, which
   * gets the suffix again.
   */
  lemma SafeFilenameNotIdempotent()
    ensures var a := seq(148, _ => 'a');
      SafeFilename(a, DefaultFallback) == a + PdfSuffix &&
      SafeFilename(a + PdfSuffix, DefaultFallback) == a + ".p.pdf"
  {
    var a: string := seq(148, _ => 'a');
    LetterTitleName(a);
    LetterTitleRename(a);
  }
}
