/**
 * The Python string operations the two scrapers rely on: `strip`, `lower`,
 * `in`, `endswith`, `replace`, and `re.sub` of a character class run, plus
 * the file-name sanitising chain that both `safe_filename` versions share.
 */
module Text {

  /** Python's `str.isspace`; a `str` regular expression's `\s` matches the same characters. */
  predicate IsSpace(c: char) {
    || c == ' '
    || ('\t' <= c <= '\r')
    || ('\U{1C}' <= c <= '\U{1F}')
    || c == '\U{85}' || c == '\U{A0}' || c == '\U{1680}'
    || ('\U{2000}' <= c <= '\U{200A}')
    || c == '\U{2028}' || c == '\U{2029}' || c == '\U{202F}' || c == '\U{205F}' || c == '\U{3000}'
  }

  /** Empty or whitespace only: exactly the strings that `strip` empties. */
  predicate IsBlank(s: string) {
    forall i :: 0 <= i < |s| ==> IsSpace(s[i])
  }

  /** Neither starts nor ends with whitespace. */
  predicate Stripped(s: string) {
    s == [] || (!IsSpace(s[0]) && !IsSpace(s[|s| - 1]))
  }

  /** `s.lstrip()` */
  function TrimStart(s: string): string
    decreases |s|
  {
    if s != [] && IsSpace(s[0]) then TrimStart(s[1..]) else s
  }

  /** `s.rstrip()` */
  function TrimEnd(s: string): string
    decreases |s|
  {
    if s != [] && IsSpace(s[|s| - 1]) then TrimEnd(s[..|s| - 1]) else s
  }

  /** `s.strip()` */
  function Strip(s: string): string {
    TrimEnd(TrimStart(s))
  }

  lemma {:induction false} TrimStartSpec(s: string)
    ensures var r := TrimStart(s);
      && |r| <= |s| && r == s[|s| - |r|..]
      && (r == [] || !IsSpace(r[0]))
      && (forall i :: 0 <= i < |s| - |r| ==> IsSpace(s[i]))
    decreases |s|
  {
    if s != [] && IsSpace(s[0]) {
      TrimStartSpec(s[1..]);
    }
  }

  lemma {:induction false} TrimEndSpec(s: string)
    ensures var r := TrimEnd(s);
      && |r| <= |s| && r == s[..|r|]
      && (r == [] || !IsSpace(r[|r| - 1]))
      && (forall i :: |r| <= i < |s| ==> IsSpace(s[i]))
    decreases |s|
  {
    if s != [] && IsSpace(s[|s| - 1]) {
      TrimEndSpec(s[..|s| - 1]);
    }
  }

  /**
   * `strip` keeps a slice of its input that neither starts nor ends with
   * whitespace, empties exactly the blank strings, and leaves a stripped
   * string alone.
   */
  lemma StripSpec(s: string)
    ensures var r := Strip(s);
      && |r| <= |s|
      && Stripped(r)
      && (r == [] <==> IsBlank(s))
      && (Stripped(s) ==> r == s)
  {
    var t := TrimStart(s);
    var r := TrimEnd(t);
    TrimStartSpec(s);
    TrimEndSpec(t);
    assert r != [] ==> r[0] == t[0];
    assert t != [] ==> r != [] by {
      if t != [] { assert !IsSpace(t[0]); }
    }
  }

  /** Stripping twice is stripping once. */
  lemma StripIdempotent(s: string)
    ensures Strip(Strip(s)) == Strip(s)
  {
    StripSpec(s);
    StripSpec(Strip(s));
  }

  /** ASCII case folding of one character. */
  function LowerChar(c: char): char {
    if 'A' <= c <= 'Z' then (c as int + 32) as char else c
  }

  /** `s.lower()`, restricted to ASCII letters. */
  function Lower(s: string): (r: string)
    ensures |r| == |s|
  {
    seq(|s|, i requires 0 <= i < |s| => LowerChar(s[i]))
  }

  predicate StartsWith(s: string, p: string) {
    |p| <= |s| && s[..|p|] == p
  }

  /** `s.endswith(p)` */
  predicate EndsWith(s: string, p: string) {
    |p| <= |s| && s[|s| - |p|..] == p
  }

  /** `p in s` for two strings. */
  predicate Contains(s: string, p: string)
    decreases |s|
  {
    StartsWith(s, p) || (s != [] && Contains(s[1..], p))
  }

  /** The suffix every stored PDF name carries. */
  const PdfSuffix: string := ".pdf"

  /** `".pdf" in v.lower()` */
  predicate HasPdf(v: string) {
    Contains(Lower(v), PdfSuffix)
  }

  /** `s.lower().endswith(".pdf")` */
  predicate EndsWithPdf(s: string) {
    EndsWith(Lower(s), PdfSuffix)
  }

  /** `s + ".pdf"` always passes the case-insensitive suffix test. */
  lemma AppendPdf(s: string)
    ensures EndsWithPdf(s + PdfSuffix)
  {
    var l := Lower(s + PdfSuffix);
    assert l[|l| - 4..] == PdfSuffix by {
      assert forall i :: 0 <= i < 4 ==> l[|s| + i] == LowerChar(PdfSuffix[i]);
    }
  }

  /** Behind a `/`, a name ends in `.pdf` exactly when the joined path does. */
  lemma EndsWithPdfAfterSlash(p: string, name: string)
    requires p != [] && p[|p| - 1] == '/'
    ensures EndsWithPdf(p + name) <==> EndsWithPdf(name)
  {
    var l := Lower(p + name);
    if |name| >= 4 {
      assert l[|l| - 4..] == Lower(name)[|name| - 4..] by {
        forall j | |p| <= j < |l| ensures l[j] == Lower(name)[j - |p|] {
          assert (p + name)[j] == name[j - |p|];
        }
      }
    } else if |l| >= 4 {
      var k := |p| - 1 - (|l| - 4);
      assert l[|l| - 4..][k] == '/';
      assert PdfSuffix[k] != '/';
    }
  }

  /** The suffix itself is a clean file name that starts with no space. */
  lemma PdfSuffixClean()
    ensures Clean(PdfSuffix) && !IsSpace(PdfSuffix[0])
  {
    var p := PdfSuffix;
    forall i | 0 <= i < |p| ensures !InClass(p[i], FileNameIllegal) && !IsSpace(p[i]) {
      assert i == 0 || i == 1 || i == 2 || i == 3;
    }
  }

  /** The dedup key of a title: `title.strip().lower()`. */
  function TitleKey(title: string): string {
    Lower(Strip(title))
  }

  /** A title has an empty key exactly when it is blank. */
  lemma TitleKeyEmpty(title: string)
    ensures TitleKey(title) == "" <==> IsBlank(title)
  {
    StripSpec(title);
  }

  /** `s.replace(a, b)` for single characters. */
  function ReplaceChar(s: string, a: char, b: char): (r: string)
    ensures |r| == |s|
    ensures forall i :: 0 <= i < |s| ==> r[i] == (if s[i] == a then b else s[i])
  {
    seq(|s|, i requires 0 <= i < |s| => if s[i] == a then b else s[i])
  }

  /** The two character classes the scrapers substitute runs of. */
  datatype CharClass = FileNameIllegal | Whitespace

  predicate InClass(c: char, k: CharClass) {
    match k
    case FileNameIllegal =>
      c == '/' || c == '\\' || c == ':' || c == '*' || c == '?' || c == '"' || c == '<' || c == '>' || c == '|'
    case Whitespace => IsSpace(c)
  }

  /** No two class-`k` characters side by side. */
  predicate NoAdjacent(s: string, k: CharClass) {
    forall i, j :: 0 <= i < |s| && 0 <= j < |s| && j == i + 1 ==> !InClass(s[i], k) || !InClass(s[j], k)
  }

  /** The input without its leading run of class-`k` characters. */
  function DropRun(s: string, k: CharClass): (r: string)
    ensures |r| <= |s| && r == s[|s| - |r|..]
    ensures r == [] || !InClass(r[0], k)
  {
    if s != [] && InClass(s[0], k) then DropRun(s[1..], k) else s
  }

  /** No character of class `k`. */
  predicate Free(s: string, k: CharClass) {
    forall i :: 0 <= i < |s| ==> !InClass(s[i], k)
  }

  /**
   * `re.sub("[k]+", rep, s)`: each maximal run of class-`k` characters
   * becomes one `rep`; every other character is kept.
   */
  function SubRuns(s: string, k: CharClass, rep: char): (r: string)
    ensures |r| <= |s|
    decreases |s|
  {
    if s == [] then []
    else if InClass(s[0], k) then [rep] + SubRuns(DropRun(s[1..], k), k, rep)
    else [s[0]] + SubRuns(s[1..], k, rep)
  }

  /** A non-empty text whose leading run is everything ends in a class-`k` character. */
  lemma {:induction false} DropRunAll(s: string, k: CharClass)
    requires s != [] && DropRun(s, k) == []
    ensures InClass(s[|s| - 1], k)
    decreases |s|
  {
    if |s| > 1 {
      DropRunAll(s[1..], k);
    }
  }

  /** What the substitution makes of one character: `rep` for a class-`k` character, else the character. */
  function SubChar(c: char, k: CharClass, rep: char): char {
    if InClass(c, k) then rep else c
  }

  /**
   * What the substitution goes on with after the first character: the
   * rest of the text, less the rest of the run when that character is of
   * class `k`. It is a suffix of the text, and it is empty with more than
   * one character only when the text ends in a class-`k` character.
   */
  function RunRest(s: string, k: CharClass): (r: string)
    requires s != []
    ensures |r| < |s| && r == s[|s| - |r|..]
    ensures r == [] && |s| > 1 ==> InClass(s[|s| - 1], k)
  {
    if InClass(s[0], k) then
      var d := DropRun(s[1..], k);
      if d == [] && |s| > 1 then
        DropRunAll(s[1..], k);
        assert s[1..][|s| - 2] == s[|s| - 1];
        d
      else d
    else s[1..]
  }

  /** One step of the substitution: the first character's image, then the substitution of the rest. */
  lemma SubRunsCons(s: string, k: CharClass, rep: char)
    requires s != []
    ensures SubRuns(s, k, rep) == [SubChar(s[0], k, rep)] + SubRuns(RunRest(s, k), k, rep)
  {
  }

  /** Every character is `rep` or outside class `k`. */
  predicate OnlyRepOf(r: string, k: CharClass, rep: char) {
    forall i :: 0 <= i < |r| ==> r[i] == rep || !InClass(r[i], k)
  }

  /**
   * What the substitution leaves: text exactly when there was text, and
   * only `rep` and characters outside the class.
   */
  lemma {:induction false} SubRunsShape(s: string, k: CharClass, rep: char)
    ensures var r := SubRuns(s, k, rep);
      (r == [] <==> s == []) && OnlyRepOf(r, k, rep)
    decreases |s|
  {
    if s != [] {
      var r := SubRuns(s, k, rep);
      var rest := RunRest(s, k);
      var t := SubRuns(rest, k, rep);
      SubRunsShape(rest, k, rep);
      SubRunsCons(s, k, rep);
      forall i | 1 <= i < |r| ensures r[i] == rep || !InClass(r[i], k) {
        assert r[i] == t[i - 1];
      }
    }
  }

  /** No two class characters are left side by side. */
  lemma {:induction false} SubRunsNoAdjacent(s: string, k: CharClass, rep: char)
    ensures NoAdjacent(SubRuns(s, k, rep), k)
    decreases |s|
  {
    if s != [] {
      var r := SubRuns(s, k, rep);
      var rest := RunRest(s, k);
      var t := SubRuns(rest, k, rep);
      SubRunsNoAdjacent(rest, k, rep);
      SubRunsShape(rest, k, rep);
      SubRunsCons(s, k, rep);
      forall i, j | 0 <= i < |r| && 0 <= j < |r| && j == i + 1 ensures !InClass(r[i], k) || !InClass(r[j], k) {
        if i > 0 {
          assert r[i] == t[i - 1] && r[j] == t[j - 1];
        } else if InClass(s[0], k) {
          assert r[j] == t[0];
        }
      }
    }
  }

  /** A class that both the input and `rep` avoid stays absent. */
  lemma {:induction false} SubRunsFree(s: string, k: CharClass, rep: char, k2: CharClass)
    requires Free(s, k2) && !InClass(rep, k2)
    ensures Free(SubRuns(s, k, rep), k2)
    decreases |s|
  {
    if s != [] {
      var r := SubRuns(s, k, rep);
      var rest := RunRest(s, k);
      assert Free(rest, k2) by {
        forall j | 0 <= j < |rest| ensures !InClass(rest[j], k2) {
          assert rest[j] == s[|s| - |rest| + j];
        }
      }
      SubRunsFree(rest, k, rep, k2);
      var t := SubRuns(rest, k, rep);
      SubRunsCons(s, k, rep);
      forall i | 0 <= i < |r| ensures !InClass(r[i], k2) {
        if i > 0 {
          assert r[i] == t[i - 1];
        }
      }
    }
  }

  /** `re.sub` of a run keeps the first character, or puts `rep` in its place when it is of class `k`. */
  lemma SubRunsFirst(s: string, k: CharClass, rep: char)
    requires s != []
    ensures var r := SubRuns(s, k, rep);
      r != [] && r[0] == SubChar(s[0], k, rep)
  {
    SubRunsCons(s, k, rep);
  }

  /** `re.sub` of a run keeps the last character, or puts `rep` in its place when it is of class `k`. */
  lemma {:induction false} SubRunsLast(s: string, k: CharClass, rep: char)
    requires s != []
    ensures var r := SubRuns(s, k, rep);
      r != [] && r[|r| - 1] == SubChar(s[|s| - 1], k, rep)
    decreases |s|
  {
    var rest := RunRest(s, k);
    SubRunsCons(s, k, rep);
    if rest != [] {
      SubRunsLast(rest, k, rep);
      assert rest[|rest| - 1] == s[|s| - 1];
    }
  }

  /** A text that is its own substitution: class characters are single `rep`s. */
  lemma {:induction false} SubRunsIdentity(s: string, k: CharClass, rep: char)
    requires forall i :: 0 <= i < |s| && InClass(s[i], k) ==> s[i] == rep
    requires NoAdjacent(s, k)
    ensures SubRuns(s, k, rep) == s
    decreases |s|
  {
    if s != [] {
      var t := s[1..];
      assert RunRest(s, k) == t by {
        if InClass(s[0], k) && t != [] {
          assert !InClass(t[0], k);
        }
      }
      assert SubChar(s[0], k, rep) == s[0];
      assert forall i :: 0 <= i < |t| ==> t[i] == s[i + 1];
      SubRunsIdentity(t, k, rep);
      SubRunsCons(s, k, rep);
    }
  }

  /**
   * What a sanitised file name looks like: no character illegal in file
   * names, no whitespace except the plain space, and no two whitespace
   * characters side by side.
   */
  predicate Clean(s: string) {
    && (forall i :: 0 <= i < |s| ==> !InClass(s[i], FileNameIllegal) && (IsSpace(s[i]) ==> s[i] == ' '))
    && NoAdjacent(s, Whitespace)
  }

  /**
   * The chain both `safe_filename` versions apply before truncating:
   * strip, turn CR and LF into spaces, replace each run of illegal
   * characters by `_`, and collapse each whitespace run into one space.
   * (One version replaces `\n` first, the other `\r`; the two commute.)
   */
  function Sanitise(s: string): string {
    SubRuns(SubRuns(ReplaceChar(ReplaceChar(Strip(s), '\n', ' '), '\r', ' '), FileNameIllegal, '_'), Whitespace, ' ')
  }

  /** A sanitised text is clean, no longer than its input, and empty exactly when the input is blank. */
  lemma SanitiseSpec(s: string)
    ensures |Sanitise(s)| <= |s|
    ensures Sanitise(s) == [] <==> IsBlank(s)
    ensures Clean(Sanitise(s))
  {
    StripSpec(s);
    var t := ReplaceChar(ReplaceChar(Strip(s), '\n', ' '), '\r', ' ');
    var u := SubRuns(t, FileNameIllegal, '_');
    var r := SubRuns(u, Whitespace, ' ');
    SubRunsShape(t, FileNameIllegal, '_');
    SubRunsShape(u, Whitespace, ' ');
    SubRunsNoAdjacent(u, Whitespace, ' ');
    assert Free(u, FileNameIllegal);
    SubRunsFree(u, Whitespace, ' ', FileNameIllegal);
  }

  /** A sanitised text neither starts nor ends with whitespace. */
  lemma SanitiseStripped(s: string)
    ensures Stripped(Sanitise(s))
  {
    var a := Strip(s);
    StripSpec(s);
    if a != [] {
      var b := ReplaceChar(ReplaceChar(a, '\n', ' '), '\r', ' ');
      assert !IsSpace(b[0]) && !IsSpace(b[|b| - 1]) by {
        assert b[0] == a[0] && b[|b| - 1] == a[|a| - 1];
      }
      var u := SubRuns(b, FileNameIllegal, '_');
      assert u != [] && !IsSpace(u[0]) && !IsSpace(u[|u| - 1]) by {
        SubRunsFirst(b, FileNameIllegal, '_');
        SubRunsLast(b, FileNameIllegal, '_');
      }
      var v := SubRuns(u, Whitespace, ' ');
      assert v != [] && v[0] == u[0] && v[|v| - 1] == u[|u| - 1] by {
        SubRunsFirst(u, Whitespace, ' ');
        SubRunsLast(u, Whitespace, ' ');
      }
    }
  }

  /** Sanitising a clean, stripped text changes nothing. */
  lemma SanitiseFixesClean(s: string)
    requires Clean(s) && Stripped(s)
    ensures Sanitise(s) == s
  {
    StripSpec(s);
    ReplaceAbsent(s, '\n', ' ');
    ReplaceAbsent(s, '\r', ' ');
    SubRunsIdentity(s, FileNameIllegal, '_');
    SubRunsIdentity(s, Whitespace, ' ');
  }

  lemma ReplaceAbsent(s: string, a: char, b: char)
    requires forall i :: 0 <= i < |s| ==> s[i] != a
    ensures ReplaceChar(s, a, b) == s
  {
  }

  lemma CleanSlice(s: string, i: nat, j: nat)
    requires Clean(s) && i <= j <= |s|
    ensures Clean(s[i..j])
  {
    assert forall m :: 0 <= m < j - i ==> s[i..j][m] == s[i + m];
  }

  lemma CleanStrip(s: string)
    requires Clean(s)
    ensures Clean(Strip(s))
  {
    var t := TrimStart(s);
    TrimStartSpec(s);
    TrimEndSpec(t);
    CleanSlice(s, |s| - |t|, |s|);
    CleanSlice(t, 0, |TrimEnd(t)|);
  }

  lemma CleanAppend(s: string, p: string)
    requires Clean(s) && Clean(p)
    requires p == [] || !IsSpace(p[0])
    ensures Clean(s + p)
  {
    assert forall m :: 0 <= m < |s| ==> (s + p)[m] == s[m];
    assert forall m :: 0 <= m < |p| ==> (s + p)[|s| + m] == p[m];
  }

  /** Case folding never destroys an occurrence: `p in s` implies `p.lower() in s.lower()`. */
  lemma {:induction false} LowerContains(s: string, p: string)
    requires Contains(s, p)
    ensures Contains(Lower(s), Lower(p))
    decreases |s|
  {
    if StartsWith(s, p) {
      assert Lower(s)[..|p|] == Lower(p);
    } else {
      assert Lower(s)[1..] == Lower(s[1..]);
      LowerContains(s[1..], p);
    }
  }

  lemma {:induction false} EndsWithContains(s: string, p: string)
    requires EndsWith(s, p)
    ensures Contains(s, p)
    decreases |s|
  {
    if |s| == |p| {
      assert StartsWith(s, p);
    } else {
      assert s[1..][|s| - 1 - |p|..] == s[|s| - |p|..];
      EndsWithContains(s[1..], p);
    }
  }

  /** A literal `.pdf` anywhere in a value is also found case-insensitively. */
  lemma ContainsPdfHasPdf(v: string)
    requires Contains(v, PdfSuffix)
    ensures HasPdf(v)
  {
    LowerContains(v, PdfSuffix);
    assert Lower(PdfSuffix) == PdfSuffix;
  }

  lemma EndsWithPdfHasPdf(v: string)
    requires EndsWith(v, PdfSuffix)
    ensures HasPdf(v)
  {
    EndsWithContains(v, PdfSuffix);
    ContainsPdfHasPdf(v);
  }

  function DigitChar(d: nat): char
    requires d < 10
  {
    "0123456789"[d]
  }

  /** `str(n)` for a natural number. */
  function NatToString(n: nat): (r: string)
    ensures r != []
    decreases n
  {
    if n < 10 then [DigitChar(n)] else NatToString(n / 10) + [DigitChar(n % 10)]
  }
}
