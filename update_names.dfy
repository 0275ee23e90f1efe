/**
 * How the update script names a downloaded PDF: `safe_filename` with a
 * 180-character cap and a caller-chosen fallback, `choose_name_for_pdf`
 * (the URL's last path segment when it has a dot, else the title), and the
 * `.pdf` fix-up of the destination path under `pdfs/`.
 */
module UpdateNames {
  import opened Text
  import opened Page

  /** The fallback name for an entry whose title is blank. */
  const TitleFallback: string := "document"

  /** The download directory `PDF_DIR`, with the separator that joins a name to it. */
  const PdfDirPrefix: string := "pdfs/"

  /** The length `safe_filename` truncates to. */
  const MaxName: nat := 180

  function Min(a: nat, b: nat): nat {
    if a <= b then a else b
  }

  /**
   * `safe_filename(s, fallback)`: the fallback for a blank input, else a
   * sanitised prefix of at most 180 characters.
   */
  function SafeFilename(s: string, fallback: string): (r: string)
    ensures IsBlank(s) ==> r == fallback
    ensures !IsBlank(s) ==> r != "" && |r| <= MaxName && Clean(r) && StartsWith(Sanitise(s), r)
    ensures !IsBlank(s) ==> |r| == Min(MaxName, |Sanitise(s)|)
  {
    var t := Sanitise(s);
    SanitiseSpec(s);
    if t == "" then fallback
    else
      CleanSlice(t, 0, Min(MaxName, |t|));
      t[..Min(MaxName, |t|)]
  }

  /** A name that is already clean, stripped and short enough is kept as it is. */
  lemma SafeFilenameFixes(s: string, fallback: string)
    requires s != "" && |s| <= MaxName && Clean(s) && Stripped(s)
    ensures SafeFilename(s, fallback) == s
  {
    SanitiseFixesClean(s);
    assert !IsSpace(s[0]);
  }

  /** `"." in s` */
  predicate HasDot(s: string) {
    exists i :: 0 <= i < |s| && s[i] == '.'
  }

  lemma DotNotBlank(s: string)
    requires HasDot(s)
    ensures !IsBlank(s)
  {
    var i :| 0 <= i < |s| && s[i] == '.';
  }

  /** The title-based name is always clean, whatever the title. */
  lemma TitleNameClean(title: string)
    ensures Clean(SafeFilename(title, TitleFallback))
  {
    if IsBlank(title) {
      var d := TitleFallback;
      forall i | 0 <= i < |d| ensures 'a' <= d[i] <= 'z' {
        assert i == 0 || i == 1 || i == 2 || i == 3 || i == 4 || i == 5 || i == 6 || i == 7;
      }
    }
  }

  /** The last path segment of the URL: `Path(unquote(urlparse(url).path)).name`. */
  function UrlSegment(url: string, ops: UrlOps): string {
    ops.baseName(ops.unquote(ops.urlPath(url)))
  }

  /**
   * `choose_name_for_pdf(pdf_url, entry_title)`: a URL segment with a dot
   * gives its own sanitised text, cut to 180 characters; any other gives
   * the sanitised title with `.pdf`.
   */
  function ChooseNameForPdf(url: string, title: string, ops: UrlOps): (r: string)
    ensures r != "" && Clean(r)
    ensures HasDot(UrlSegment(url, ops)) ==>
      StartsWith(Sanitise(UrlSegment(url, ops)), r) && |r| == Min(MaxName, |Sanitise(UrlSegment(url, ops))|)
    ensures !HasDot(UrlSegment(url, ops)) ==> r == SafeFilename(title, TitleFallback) + PdfSuffix
  {
    var name := UrlSegment(url, ops);
    var titleName := SafeFilename(title, TitleFallback);
    if name != "" && HasDot(name) then
      DotNotBlank(name);
      SafeFilename(name, titleName)
    else
      TitleNamePdfClean(title);
      titleName + PdfSuffix
  }

  /** The title-based name with its suffix is clean. */
  lemma TitleNamePdfClean(title: string)
    ensures Clean(SafeFilename(title, TitleFallback) + PdfSuffix)
  {
    TitleNameClean(title);
    PdfSuffixClean();
    CleanAppend(SafeFilename(title, TitleFallback), PdfSuffix);
  }

  /**
   * The destination path: `PDF_DIR / name`, then `.pdf` appended unless it
   * already ends so in any case. Joining the component `.` leaves the
   * directory itself.
   */
  function DestPath(name: string): (r: string)
    ensures EndsWithPdf(r)
    ensures name != "." ==> StartsWith(r, PdfDirPrefix) && (r[|PdfDirPrefix|..] == name || r[|PdfDirPrefix|..] == name + PdfSuffix)
    ensures name != "." && EndsWithPdf(name) ==> r == PdfDirPrefix + name
    ensures name != "." && !EndsWithPdf(name) ==> r == PdfDirPrefix + name + PdfSuffix
  {
    var p := if name == "." then "pdfs" else PdfDirPrefix + name;
    EndsWithPdfAfterSlash(PdfDirPrefix, name);
    if EndsWithPdf(p) then p
    else
      AppendPdf(p);
      assert name != "." ==> (p + PdfSuffix)[|PdfDirPrefix|..] == name + PdfSuffix;
      p + PdfSuffix
  }

  /**
   * A name other than `.` without separators stays inside the directory:
   * nothing after `pdfs/` in its destination path is a separator.
   */
  lemma DestPathInside(name: string)
    requires name != "." && Clean(name)
    ensures forall i :: |PdfDirPrefix| <= i < |DestPath(name)| ==> DestPath(name)[i] != '/' && DestPath(name)[i] != '\\'
  {
    var d := DestPath(name);
    var n := |PdfDirPrefix|;
    var tail := if EndsWithPdf(name) then name else name + PdfSuffix;
    assert Clean(tail) by {
      PdfSuffixClean();
      CleanAppend(name, PdfSuffix);
    }
    assert d == PdfDirPrefix + tail;
    forall i | n <= i < |d| ensures d[i] != '/' && d[i] != '\\' {
      assert d[i] == tail[i - n];
      assert !InClass(tail[i - n], FileNameIllegal);
    }
  }

  /**
   * Where the update script means to store an entry's PDF. The file name
   * after `pdfs/` never holds a path separator, so the file stays inside
   * the directory unless the chosen name is `.`; a URL whose last segment
   * has a dot gives a prefix of that segment's sanitised text under
   * `pdfs/`, with `.pdf` added unless it already ends so; and a URL whose
   * last segment has no dot gives the sanitised title with `.pdf`.
   */
  lemma StoredPdfPath(url: string, title: string, ops: UrlOps)
    ensures EndsWithPdf(DestPath(ChooseNameForPdf(url, title, ops)))
    ensures var name := ChooseNameForPdf(url, title, ops);
      name != "." ==> forall i :: |PdfDirPrefix| <= i < |DestPath(name)| ==> DestPath(name)[i] != '/' && DestPath(name)[i] != '\\'
    ensures var name := ChooseNameForPdf(url, title, ops);
      HasDot(UrlSegment(url, ops)) && name != "." ==>
        StartsWith(Sanitise(UrlSegment(url, ops)), name) &&
        DestPath(name) == PdfDirPrefix + name + (if EndsWithPdf(name) then "" else PdfSuffix)
    ensures !HasDot(UrlSegment(url, ops)) ==>
      DestPath(ChooseNameForPdf(url, title, ops)) == PdfDirPrefix + SafeFilename(title, TitleFallback) + PdfSuffix
  {
    var name := ChooseNameForPdf(url, title, ops);
    if name != "." {
      DestPathInside(name);
    }
    if !HasDot(UrlSegment(url, ops)) {
      var t := SafeFilename(title, TitleFallback);
      assert name == t + PdfSuffix;
      AppendPdf(PdfDirPrefix + t);
      assert PdfDirPrefix + name == PdfDirPrefix + t + PdfSuffix;
    }
  }
}
