/** How the scripts turn paper titles into file names and URLs, and the exact
    text of the markdown files they write.  Everything here is pure string
    manipulation shared by scripts/pipeline.py, backup/fetch_papers.py and
    backup/summarize_all_pdfs.py.

    Python's `str.isalnum` depends on Unicode tables; it is a parameter
    `isAlnum` here, so every property below holds whatever those tables say. */
module FileNames {
  import opened PyStr
  import opened Wrappers

  /** How many title characters a file name is derived from. */
  const TITLE_SLICE: nat := 60

  /** The allow-list of `sanitize_filename`: alphanumerics and ` ._-`. */
  predicate Allowed(isAlnum: char -> bool, c: char) {
    isAlnum(c) || c in " ._-"
  }

  /** The generator `c for c in text if c.isalnum() or c in " ._-"`. */
  function KeepAllowed(isAlnum: char -> bool, s: string): (r: string)
    ensures |r| <= |s|
    ensures forall i :: 0 <= i < |r| ==> Allowed(isAlnum, r[i])
    decreases |s|
  {
    if s == [] then []
    else (if Allowed(isAlnum, s[0]) then [s[0]] else []) + KeepAllowed(isAlnum, s[1..])
  }

  /** Every allowed character of the input survives the filter. */
  lemma {:induction false} KeepAllowedComplete(isAlnum: char -> bool, s: string, i: nat)
    requires i < |s| && Allowed(isAlnum, s[i])
    ensures s[i] in KeepAllowed(isAlnum, s)
    decreases |s|
  {
    if i > 0 {
      KeepAllowedComplete(isAlnum, s[1..], i - 1);
    }
  }

  /** The filter works character by character: filtering a concatenation
      filters each part, so every allowed position of the input survives, in
      place, and nothing else does. */
  lemma {:induction false} KeepAllowedConcat(isAlnum: char -> bool, a: string, b: string)
    ensures KeepAllowed(isAlnum, a + b) == KeepAllowed(isAlnum, a) + KeepAllowed(isAlnum, b)
    decreases |a|
  {
    if a != [] {
      assert (a + b)[0] == a[0] && (a + b)[1..] == a[1..] + b;
      KeepAllowedConcat(isAlnum, a[1..], b);
    } else {
      assert a + b == b;
    }
  }

  /** The filter on one character: kept exactly when it is allowed. */
  lemma KeepAllowedChar(isAlnum: char -> bool, c: char)
    ensures KeepAllowed(isAlnum, [c]) == (if Allowed(isAlnum, c) then [c] else [])
  {
    assert [c][1..] == [];
  }

  lemma {:induction false} KeepAllowedSubsequence(isAlnum: char -> bool, s: string)
    ensures IsSubsequence(KeepAllowed(isAlnum, s), s)
    decreases |s|
  {
    if s != [] {
      KeepAllowedSubsequence(isAlnum, s[1..]);
      var r := KeepAllowed(isAlnum, s);
      if Allowed(isAlnum, s[0]) {
        assert r[0] == s[0] && r[1..] == KeepAllowed(isAlnum, s[1..]);
      } else {
        assert r == KeepAllowed(isAlnum, s[1..]);
      }
    }
  }

  lemma {:induction false} KeepAllowedOfAllowed(isAlnum: char -> bool, s: string)
    requires forall i :: 0 <= i < |s| ==> Allowed(isAlnum, s[i])
    ensures KeepAllowed(isAlnum, s) == s
    decreases |s|
  {
    if s != [] {
      KeepAllowedOfAllowed(isAlnum, s[1..]);
    }
  }

  /** `sanitize_filename(text)`: the allowed characters of `text`, in order,
      with trailing whitespace removed. */
  function SanitizeFilename(isAlnum: char -> bool, text: string): (r: string)
    ensures forall i :: 0 <= i < |r| ==> Allowed(isAlnum, r[i])
    ensures r == [] || !IsSpace(r[|r| - 1])
    ensures |r| <= |text|
  {
    Rstrip(KeepAllowed(isAlnum, text))
  }

  /** The result keeps the input's characters in their order. */
  lemma SanitizeSubsequence(isAlnum: char -> bool, text: string)
    ensures IsSubsequence(SanitizeFilename(isAlnum, text), text)
  {
    var kept := KeepAllowed(isAlnum, text);
    KeepAllowedSubsequence(isAlnum, text);
    SubsequenceOfPrefix(kept, text, |Rstrip(kept)|);
  }

  /** Sanitizing twice is sanitizing once. */
  lemma SanitizeIdempotent(isAlnum: char -> bool, text: string)
    ensures SanitizeFilename(isAlnum, SanitizeFilename(isAlnum, text)) == SanitizeFilename(isAlnum, text)
  {
    var once := SanitizeFilename(isAlnum, text);
    KeepAllowedOfAllowed(isAlnum, once);
  }

  /** `sanitize_filename(title[:TITLE_SLICE])`: the stem of the abstract and
      PDF files a fetched paper is stored under. */
  function BaseName(isAlnum: char -> bool, title: string): (r: string)
    ensures |r| <= TITLE_SLICE
    ensures forall i :: 0 <= i < |r| ==> Allowed(isAlnum, r[i])
  {
    SanitizeFilename(isAlnum, Take(title, TITLE_SLICE))
  }

  /** Titles that agree on their first TITLE_SLICE characters share their files. */
  lemma BaseNameDependsOnPrefix(isAlnum: char -> bool, t1: string, t2: string)
    requires |t1| >= TITLE_SLICE && |t2| >= TITLE_SLICE
    requires t1[..TITLE_SLICE] == t2[..TITLE_SLICE]
    ensures BaseName(isAlnum, t1) == BaseName(isAlnum, t2)
  {
    assert Take(t1, TITLE_SLICE) == t1[..TITLE_SLICE];
    assert Take(t2, TITLE_SLICE) == t2[..TITLE_SLICE];
  }

  /** The base name is a sanitized name already: sanitizing it again, or
      cutting it to TITLE_SLICE characters, gives it back. */
  lemma BaseNameFixpoint(isAlnum: char -> bool, title: string)
    ensures BaseName(isAlnum, BaseName(isAlnum, title)) == BaseName(isAlnum, title)
  {
    SanitizeIdempotent(isAlnum, Take(title, TITLE_SLICE));
  }

  function AbstractFileName(isAlnum: char -> bool, title: string): string {
    BaseName(isAlnum, title) + ".md"
  }

  function PdfFileName(isAlnum: char -> bool, title: string): string {
    BaseName(isAlnum, title) + ".pdf"
  }

  /** The file name `save_summary_to_md` writes to: the sanitized first
      TITLE_SLICE characters with every space turned into `_`, plus `.md`. */
  function SummaryFileName(isAlnum: char -> bool, title: string): string {
    Replace(SanitizeFilename(isAlnum, Take(title, TITLE_SLICE)), " ", "_") + ".md"
  }

  /** The summary file name has no space, ends in `.md`, and its stem is the
      base name with spaces turned into underscores. */
  lemma SummaryFileNameShape(isAlnum: char -> bool, title: string)
    ensures var r := SummaryFileName(isAlnum, title);
      && ' ' !in r
      && EndsWith(r, ".md")
      && |r| <= TITLE_SLICE + 3
      && r[..|r| - 3] == Replace(BaseName(isAlnum, title), " ", "_")
  {
    var base := BaseName(isAlnum, title);
    var stem := Replace(base, " ", "_");
    ReplaceChar(base, ' ', '_');
    ReplaceCharRemoves(base, ' ', '_');
    var r := stem + ".md";
    assert r == SummaryFileName(isAlnum, title);
    assert r[..|r| - 3] == stem;
  }

  /** The summary file name is the base name with spaces turned into `_`,
      plus `.md`. */
  lemma SummaryFileNameOfBase(isAlnum: char -> bool, title: string)
    ensures SummaryFileName(isAlnum, title) == Replace(BaseName(isAlnum, title), " ", "_") + ".md"
  {
  }

  /** Given a stem produced by BaseName, save_summary_to_md names the file
      after that stem with spaces turned into underscores. */
  lemma SummaryOfBaseName(isAlnum: char -> bool, title: string)
    ensures SummaryFileName(isAlnum, BaseName(isAlnum, title))
         == Replace(AbstractFileName(isAlnum, title), " ", "_")
  {
    var base := BaseName(isAlnum, title);
    var stem := Replace(base, " ", "_");
    SummaryFileNameOfBase(isAlnum, base);
    BaseNameFixpoint(isAlnum, title);
    ReplaceCharConcat(base, ".md", ' ', '_');
    ReplaceAbsent(".md", " ", "_");
    assert Replace(base + ".md", " ", "_") == stem + ".md";
  }

  /** `filename.replace(".pdf", "")`: the title the pipelines give to
      save_summary_to_md for a PDF they found in the directory. */
  function SummaryTitle(pdfName: string): string {
    Replace(pdfName, ".pdf", "")
  }

  /** Appending `.pdf` and then removing every `.pdf` gives back a name that
      had no `.pdf` in it: `.pdf` cannot straddle the join. */
  lemma {:induction false} RemovePdfSuffix(base: string)
    requires !Contains(base, ".pdf")
    ensures SummaryTitle(base + ".pdf") == base
    decreases |base|
  {
    var s := base + ".pdf";
    if base == [] {
      assert s == ".pdf" && s[4..] == [];
    } else {
      assert !StartsWith(s, ".pdf") by {
        if |base| >= 4 {
          assert s[..4] == base[..4];
          assert !StartsWith(base, ".pdf");
        } else if |base| == 1 {
          assert s[..4] == [base[0], '.', 'p', 'd'];
        } else if |base| == 2 {
          assert s[..4] == [base[0], base[1], '.', 'p'];
        } else {
          assert s[..4] == [base[0], base[1], base[2], '.'];
        }
      }
      assert s[1..] == base[1..] + ".pdf";
      RemovePdfSuffix(base[1..]);
    }
  }

  /** The summary file of a fetched PDF is named after the paper's abstract
      file with spaces turned into underscores, provided the base name does not
      itself contain `.pdf`. */
  lemma FetchedPdfSummaryName(isAlnum: char -> bool, title: string)
    requires !Contains(BaseName(isAlnum, title), ".pdf")
    ensures SummaryFileName(isAlnum, SummaryTitle(PdfFileName(isAlnum, title)))
         == Replace(AbstractFileName(isAlnum, title), " ", "_")
  {
    RemovePdfSuffix(BaseName(isAlnum, title));
    SummaryOfBaseName(isAlnum, title);
  }

  /** Without that proviso the names part: a paper titled ".pdf d" is stored
      as ".pdf d.md" and ".pdf d.pdf", but its summary goes to "_d.md". */
  lemma PdfInBaseNameSplitsNames(isAlnum: char -> bool, title: string)
    requires isAlnum('p') && isAlnum('d') && isAlnum('f')
    requires title == ".pdf d"
    ensures AbstractFileName(isAlnum, title) == title + ".md"
    ensures SummaryFileName(isAlnum, SummaryTitle(PdfFileName(isAlnum, title))) == "_d.md"
  {
    ExampleBaseName(isAlnum, title);
    RemoveEveryPdf(PdfFileName(isAlnum, title));
    ExampleSummaryName(isAlnum, SummaryTitle(PdfFileName(isAlnum, title)));
  }

  lemma ExampleBaseName(isAlnum: char -> bool, t: string)
    requires isAlnum('p') && isAlnum('d') && isAlnum('f')
    requires t == ".pdf d"
    ensures BaseName(isAlnum, t) == t
  {
    assert t[0] == '.' && t[1] == 'p' && t[2] == 'd' && t[3] == 'f' && t[4] == ' ' && t[5] == 'd';
    assert forall i :: 0 <= i < |t| ==> Allowed(isAlnum, t[i]);
    assert !IsSpace(t[5]);
    BaseNameOfSanitized(isAlnum, t);
  }

  lemma ExampleSummaryName(isAlnum: char -> bool, u: string)
    requires isAlnum('d')
    requires u == " d"
    ensures SummaryFileName(isAlnum, u) == "_d.md"
  {
    assert u[0] == ' ' && u[1] == 'd' && Allowed(isAlnum, u[0]) && Allowed(isAlnum, u[1]);
    assert !IsSpace(u[1]);
    BaseNameOfSanitized(isAlnum, u);
    assert SummaryFileName(isAlnum, u) == Replace(u, " ", "_") + ".md";
    ReplaceChar(u, ' ', '_');
    assert Replace(u, " ", "_") == "_d";
  }

  /** Removing `.pdf` from ".pdf d.pdf" removes both occurrences. */
  lemma RemoveEveryPdf(name: string)
    requires name == ".pdf d.pdf"
    ensures SummaryTitle(name) == " d"
  {
    assert StartsWith(name, ".pdf");
    var a := name[4..];
    assert a == " d.pdf";
    assert a[..4][0] == ' ';
    var b := a[1..];
    assert b == "d.pdf";
    assert b[..4][0] == 'd';
    var c := b[1..];
    assert c == ".pdf" && StartsWith(c, ".pdf") && c[4..] == [];
    assert SummaryTitle(c) == "";
    assert SummaryTitle(b) == "d" + SummaryTitle(c);
    assert SummaryTitle(a) == " " + SummaryTitle(b);
    assert SummaryTitle(name) == SummaryTitle(a);
  }

  /** A name that is short enough, allowed throughout and not ending in
      whitespace is its own base name. */
  lemma BaseNameOfSanitized(isAlnum: char -> bool, name: string)
    requires |name| <= TITLE_SLICE
    requires forall i :: 0 <= i < |name| ==> Allowed(isAlnum, name[i])
    requires name == [] || !IsSpace(name[|name| - 1])
    ensures BaseName(isAlnum, name) == name
  {
    KeepAllowedOfAllowed(isAlnum, name);
  }

  /** `entry.find("atom:id").text.strip().replace("abs", "pdf")`: the PDF link
      of an arXiv entry, derived from its `atom:id` (an `abs` page URL). */
  function ArxivPdfUrl(id: string): string {
    Replace(Strip(id), "abs", "pdf")
  }

  /** `abs` occurs in `s` at position `j`. */
  predicate AbsAt(s: string, j: int) {
    0 <= j && j + 3 <= |s| && s[j] == 'a' && s[j + 1] == 'b' && s[j + 2] == 's'
  }

  /** What `replace("abs", "pdf")` puts at position `i` of `s`: the matching
      letter of `pdf` when `i` lies inside an occurrence of `abs` (occurrences
      cannot overlap, so at most one covers `i`), and `s[i]` otherwise. */
  function AbsToPdfAt(s: string, i: nat): char
    requires i < |s|
  {
    if AbsAt(s, i) then 'p'
    else if i >= 1 && AbsAt(s, i - 1) then 'd'
    else if i >= 2 && AbsAt(s, i - 2) then 'f'
    else s[i]
  }

  /** `startswith("abs")` is an occurrence at position 0. */
  lemma AbsAtStart(s: string)
    ensures StartsWith(s, "abs") <==> AbsAt(s, 0)
  {
    if |s| >= 3 {
      assert s[..3][0] == s[0] && s[..3][1] == s[1] && s[..3][2] == s[2];
      if AbsAt(s, 0) {
        assert s[..3] == "abs";
      }
    }
  }

  /** Dropping the part of `s` the rewrite has consumed (a whole `abs`, or
      one other character) does not change what a later position becomes. */
  lemma AbsToPdfAtShift(s: string, k: nat, i: nat)
    requires k <= i < |s|
    requires (k == 3 && AbsAt(s, 0)) || (k == 1 && !AbsAt(s, 0))
    ensures AbsToPdfAt(s[k..], i - k) == AbsToPdfAt(s, i)
  {
    var t := s[k..];
    assert forall j :: 0 <= j < |t| ==> t[j] == s[j + k];
  }

  /** Position by position, the rewrite turns every occurrence of `abs` into
      `pdf` and leaves every other character as it is. */
  lemma {:induction false} AbsRewrite(s: string)
    ensures var r := Replace(s, "abs", "pdf");
      |r| == |s| && forall i :: 0 <= i < |s| ==> r[i] == AbsToPdfAt(s, i)
    decreases |s|
  {
    ReplaceSameLength(s, "abs", "pdf");
    if s != [] {
      var r := Replace(s, "abs", "pdf");
      var head := StartsWith(s, "abs");
      AbsAtStart(s);
      var k := if head then 3 else 1;
      var x := Replace(s[k..], "abs", "pdf");
      var h: string := if head then "pdf" else [s[0]];
      AbsRewrite(s[k..]);
      assert r == h + x;
      forall i | 0 <= i < |s| ensures r[i] == AbsToPdfAt(s, i) {
        if i >= k {
          assert r[i] == x[i - k];
          AbsToPdfAtShift(s, k, i);
        }
      }
    }
  }

  /** Text whose first character is not `a` does not start with `abs`. */
  lemma NotAbsStart(t: string)
    requires t != [] && t[0] != 'a'
    ensures !StartsWith(t, "abs")
  {
    if |t| >= 3 {
      assert t[..3][0] == t[0];
    }
  }

  /** Putting `pdf` in front of text without `abs` creates none. */
  lemma NoAbsAfterPdf(x: string)
    requires !Contains(x, "abs")
    ensures !Contains("pdf" + x, "abs")
  {
    var r := "pdf" + x;
    assert r[3..] == x;
    NotAbsStart(r[2..]);
    assert !Contains(r[2..], "abs") by { assert r[2..][1..] == r[3..]; }
    NotAbsStart(r[1..]);
    assert !Contains(r[1..], "abs") by { assert r[1..][1..] == r[2..]; }
    NotAbsStart(r);
  }

  /** After the rewrite no `abs` is left, and the length is kept. */
  lemma {:induction false} AbsReplaced(s: string)
    ensures var r := Replace(s, "abs", "pdf");
      |r| == |s| && !Contains(r, "abs")
    decreases |s|
  {
    var r := Replace(s, "abs", "pdf");
    if s == [] {
    } else if StartsWith(s, "abs") {
      var x := Replace(s[3..], "abs", "pdf");
      AbsReplaced(s[3..]);
      assert r == "pdf" + x;
      NoAbsAfterPdf(x);
    } else {
      var x := Replace(s[1..], "abs", "pdf");
      AbsReplaced(s[1..]);
      assert r == [s[0]] + x && r[1..] == x;
      assert !StartsWith(r, "abs");
    }
  }

  /** An id with no `abs` in it is only stripped. */
  lemma ArxivPdfUrlWithoutAbs(id: string)
    requires !Contains(Strip(id), "abs")
    ensures ArxivPdfUrl(id) == Strip(id)
  {
    ReplaceAbsent(Strip(id), "abs", "pdf");
  }

  /** The link labels of the two fetchers. */
  const SEMANTIC_SCHOLAR_LINK := "Semantic Scholar 원문 링크"
  const ARXIV_LINK := "arXiv 원문 링크"

  /** The abstract file a fetcher writes for one paper: a `#` heading with the
      title, the abstract under a bold linkText, and a link to the source. */
  function AbstractRecord(title: string, abstractText: string, linkText: string, url: string): string {
    "# " + title + "\n\n" + "**Abstract:**\n" + abstractText + "\n\n" + "[" + linkText + "](" + url + ")\n"
  }

  /** The file `save_summary_to_md` writes: a `#` heading with the title, then
      the summary. */
  function SummaryRecord(title: string, summary: string): string {
    "# " + title + "\n\n" + summary + "\n"
  }

  /** The text up to the first line break. */
  function FirstLine(s: string): (r: string)
    ensures |r| <= |s| && r == s[..|r|] && '\n' !in r
    ensures |r| < |s| ==> s[|r|] == '\n'
    decreases |s|
  {
    if s == [] || s[0] == '\n' then [] else [s[0]] + FirstLine(s[1..])
  }

  lemma FirstLineOf(line: string, rest: string)
    requires '\n' !in line
    ensures FirstLine(line + "\n" + rest) == line
  {
    var s := line + "\n" + rest;
    var r := FirstLine(s);
    assert s[|line|] == '\n';
    assert forall i :: 0 <= i < |line| ==> s[i] == line[i];
  }

  /** The heading of a markdown document, as a reader of the file sees it. */
  function Heading(doc: string): string {
    if StartsWith(doc, "# ") then FirstLine(doc[2..]) else ""
  }

  /** A one-line title is read back from an abstract file's heading, and the
      file ends with the link to the paper. */
  lemma AbstractRecordHeading(title: string, abstractText: string, linkText: string, url: string)
    requires '\n' !in title
    ensures Heading(AbstractRecord(title, abstractText, linkText, url)) == title
    ensures EndsWith(AbstractRecord(title, abstractText, linkText, url), "](" + url + ")\n")
  {
    var doc := AbstractRecord(title, abstractText, linkText, url);
    var rest := "\n" + "**Abstract:**\n" + abstractText + "\n\n" + "[" + linkText + "](" + url + ")\n";
    assert doc[2..] == title + "\n" + rest;
    FirstLineOf(title, rest);
    AbstractRecordShape(title, abstractText, linkText, url);
  }

  /** Whatever the title, an abstract file opens with the title as a
      level-one heading followed by a blank line, and ends with the link to
      the paper. */
  lemma AbstractRecordShape(title: string, abstractText: string, linkText: string, url: string)
    ensures StartsWith(AbstractRecord(title, abstractText, linkText, url), "# " + title + "\n\n")
    ensures EndsWith(AbstractRecord(title, abstractText, linkText, url), "](" + url + ")\n")
  {
    var head := "# " + title + "\n\n";
    var tail := "](" + url + ")\n";
    var doc := AbstractRecord(title, abstractText, linkText, url);
    var middle := "**Abstract:**\n" + abstractText + "\n\n" + "[" + linkText;
    assert doc == head + middle + tail;
    assert doc[..|head|] == head;
    assert doc[|doc| - |tail|..] == tail;
  }

  /** Reads a summary file back into its title and summary. */
  function ParseSummaryRecord(doc: string): Option<(string, string)> {
    if !StartsWith(doc, "# ") then None
    else
      var title := FirstLine(doc[2..]);
      var rest := doc[2 + |title|..];
      if |rest| < 3 || !StartsWith(rest, "\n\n") || !EndsWith(rest, "\n") then None
      else Some((title, rest[2..|rest| - 1]))
  }

  /** A summary file whose title is one line reads back as what was written. */
  lemma SummaryRecordRoundTrip(title: string, summary: string)
    requires '\n' !in title
    ensures ParseSummaryRecord(SummaryRecord(title, summary)) == Some((title, summary))
  {
    var doc := SummaryRecord(title, summary);
    var rest := "\n" + summary + "\n";
    assert doc[2..] == title + "\n" + rest;
    FirstLineOf(title, rest);
    assert doc[2 + |title|..] == "\n\n" + summary + "\n";
  }
}
