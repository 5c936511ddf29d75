/** backup/fetch_papers.py: query arXiv and, for every complete Atom entry
    (one with a title, a summary and an id), write an abstract file, download
    its PDF and delete it again. An incomplete entry writes nothing; a first
    entry without a title makes the exception escape before anything is
    written.

    The Atom parsing is ElementTree's; each entry arrives here as the text of
    its `atom:title`, `atom:summary` and `atom:id` elements (RFC 4287, sections
    4.2.14, 4.2.13 and 4.2.6), None when the element is missing or has no text
    (both make `.strip()` raise). */
module FetchPapers {
  import opened Wrappers
  import opened PyStr
  import opened Storage
  import opened FileNames

  datatype Entry = Entry(title: Option<string>, summary: Option<string>, id: Option<string>)

  datatype Services = Services(
    isAlnum: char -> bool,               // str.isalnum
    download: string -> Option<Bytes>)   // requests.get(url) + raise_for_status; None when either raises

  /** The state the loop of `fetch_arxiv` carries: the files, the value of the
      local `title` (unbound until an entry's title is read), and the URLs
      requested so far. */
  datatype State = State(fs: FileSystem, title: Option<string>, requests: seq<string>)

  /** The URL the PDF is requested from. */
  function DownloadUrl(pdfUrl: string): (r: string)
    ensures |r| == |pdfUrl| + 4 && r[..|pdfUrl|] == pdfUrl && EndsWith(r, ".pdf")
  {
    pdfUrl + ".pdf"
  }

  /** The body of the `try` for an entry with a title, a summary and an id:
      write the abstract file, request the PDF and, when it arrives, write it
      and remove it again. */
  function SaveEntry(svc: Services, st: State, title: string, summary: string, pdfUrl: string): State {
    var base := BaseName(svc.isAlnum, title);
    var md, pdf := Path(SummaryDir, base + ".md"), Path(PdfDir, base + ".pdf");
    var fs1 := st.fs[md := Text(AbstractRecord(title, summary, ARXIV_LINK, pdfUrl))];
    var url := DownloadUrl(pdfUrl);
    var requests := st.requests + [url];
    match svc.download(url)
    case None => State(fs1, Some(title), requests)
    case Some(b) => State(fs1[pdf := Binary(b)] - {pdf}, Some(title), requests)
  }

  /** One pass of the loop of `fetch_arxiv`; None when the exception handler
      itself raises because `title` was never bound. */
  function Step(svc: Services, st: State, e: Entry): Option<State> {
    if e.title.None? then
      if st.title.None? then None else Some(st)
    else if e.summary.None? || e.id.None? then Some(st.(title := Some(Strip(e.title.value))))
    else Some(SaveEntry(svc, st, Strip(e.title.value), Strip(e.summary.value), ArxivPdfUrl(e.id.value)))
  }

  /** The state when the loop ends, and whether it ended because an
      exception escaped it (the state is then the one at that entry). */
  datatype Run = Run(st: State, escaped: bool)

  /** The loop over all entries. */
  function StepAll(svc: Services, st: State, entries: seq<Entry>): Run
    decreases |entries|
  {
    if entries == [] then Run(st, false)
    else match Step(svc, st, entries[0])
      case None => Run(st, true)
      case Some(st') => StepAll(svc, st', entries[1..])
  }

  /** `fetch_arxiv()`: `response` is the list of entries, or None when the
      search request fails (the function then returns at once).  `escaped`
      tells that an exception left the function; `fs` and `requests` are the
      files and downloads at that point, which are still the initial ones. */
  method FetchArxiv(svc: Services, response: Option<seq<Entry>>, fs0: FileSystem)
    returns (fs: FileSystem, requests: seq<string>, escaped: bool)
    ensures response.None? ==> fs == fs0 && requests == [] && !escaped
    ensures response.Some? ==>
      var run := StepAll(svc, State(fs0, None, []), response.value);
      escaped == run.escaped && fs == run.st.fs && requests == run.st.requests
    ensures escaped ==> fs == fs0 && requests == []
  {
    fs, requests, escaped := fs0, [], false;
    if response.None? {
      return;
    }
    var entries := response.value;
    var title: Option<string> := None;
    var i := 0;
    while i < |entries|
      invariant 0 <= i <= |entries|
      invariant StepAll(svc, State(fs0, None, []), entries) == StepAll(svc, State(fs, title, requests), entries[i..])
      invariant title.None? ==> fs == fs0 && requests == []
    {
      var entry := entries[i];
      assert entries[i..][0] == entry && entries[i..][1..] == entries[i + 1..];
      i := i + 1;
      if entry.title.None? {
        if title.None? {
          escaped := true;
          return;
        }
        continue;
      }
      title := Some(Strip(entry.title.value));
      if entry.summary.None? || entry.id.None? {
        continue;
      }
      var summary := Strip(entry.summary.value);
      var pdfUrl := ArxivPdfUrl(entry.id.value);
      var filenameBase := BaseName(svc.isAlnum, title.value);
      var mdPath, pdfPath := Path(SummaryDir, filenameBase + ".md"), Path(PdfDir, filenameBase + ".pdf");
      fs := fs[mdPath := Text(AbstractRecord(title.value, summary, ARXIV_LINK, pdfUrl))];
      var url := DownloadUrl(pdfUrl);
      requests := requests + [url];
      var pdfRes := svc.download(url);
      if pdfRes.None? {
        continue;
      }
      fs := fs[pdfPath := Binary(pdfRes.value)];
      fs := fs - {pdfPath};
    }
  }

  /** A complete entry leaves its abstract file with the record text, asks for
      its PDF URL plus `.pdf`, and, when the download succeeds, leaves no PDF
      behind (written, then removed); when it fails the PDF path is untouched. */
  lemma SaveEntryEffect(svc: Services, st: State, title: string, summary: string, pdfUrl: string)
    ensures var st' := SaveEntry(svc, st, title, summary, pdfUrl);
      var base := BaseName(svc.isAlnum, title);
      && st'.title == Some(title)
      && st'.fs[Path(SummaryDir, base + ".md")] == Text(AbstractRecord(title, summary, ARXIV_LINK, pdfUrl))
      && st'.requests == st.requests + [DownloadUrl(pdfUrl)]
      && (svc.download(DownloadUrl(pdfUrl)).Some? ==> Path(PdfDir, base + ".pdf") !in st'.fs)
      && (svc.download(DownloadUrl(pdfUrl)).None? ==> SameAt(st.fs, st'.fs, Path(PdfDir, base + ".pdf")))
  {
    var base := BaseName(svc.isAlnum, title);
    assert Path(SummaryDir, base + ".md") != Path(PdfDir, base + ".pdf");
  }

  /** Saving a complete entry touches no path but its abstract file and its
      PDF. */
  lemma SaveEntryFrame(svc: Services, st: State, title: string, summary: string, pdfUrl: string, q: Path)
    requires q != Path(SummaryDir, BaseName(svc.isAlnum, title) + ".md")
    requires q != Path(PdfDir, BaseName(svc.isAlnum, title) + ".pdf")
    ensures SameAt(st.fs, SaveEntry(svc, st, title, summary, pdfUrl).fs, q)
  {
  }

  /** The entry's fields are stripped, and its id rewritten from `abs` to
      `pdf`, before they are saved. */
  lemma CompleteEntry(svc: Services, st: State, e: Entry)
    requires e.title.Some? && e.summary.Some? && e.id.Some?
    ensures Step(svc, st, e) == Some(SaveEntry(svc, st, Strip(e.title.value), Strip(e.summary.value), ArxivPdfUrl(e.id.value)))
  {
  }

  /** Once a title has been read, a failing entry is logged and skipped: the
      files and the requests stay as they were. */
  lemma FailureAfterTitle(svc: Services, st: State, e: Entry)
    requires st.title.Some? || e.title.Some?
    requires e.title.None? || e.summary.None? || e.id.None?
    ensures var st' := Step(svc, st, e);
      st'.Some? && st'.value.fs == st.fs && st'.value.requests == st.requests && st'.value.title.Some?
  {
  }

  /** Only the very first entry can make the exception escape, and it does so
      exactly when it has no title. */
  lemma {:induction false} EscapesOnlyOnFirstEntry(svc: Services, entries: seq<Entry>, fs: FileSystem)
    ensures StepAll(svc, State(fs, None, []), entries).escaped <==> (entries != [] && entries[0].title.None?)
  {
    if entries != [] && entries[0].title.Some? {
      var st := Step(svc, State(fs, None, []), entries[0]).value;
      NeverEscapesOnceBound(svc, st, entries[1..]);
    }
  }

  lemma {:induction false} NeverEscapesOnceBound(svc: Services, st: State, entries: seq<Entry>)
    requires st.title.Some?
    ensures !StepAll(svc, st, entries).escaped
    decreases |entries|
  {
    if entries != [] {
      var st' := Step(svc, st, entries[0]).value;
      NeverEscapesOnceBound(svc, st', entries[1..]);
    }
  }

  /** `fetch_arxiv` adds no PDF and changes none: every file in the PDF
      directory afterwards was there before, with the same content.  (A PDF
      that was already there under an entry's name is removed when that
      entry's download succeeds.) */
  lemma {:induction false} NoNewPdfs(svc: Services, st: State, entries: seq<Entry>, q: Path)
    requires q.dir == PdfDir
    ensures q in StepAll(svc, st, entries).st.fs ==> q in st.fs && StepAll(svc, st, entries).st.fs[q] == st.fs[q]
    decreases |entries|
  {
    if entries != [] && Step(svc, st, entries[0]).Some? {
      var st' := Step(svc, st, entries[0]).value;
      StepKeepsPdfs(svc, st, entries[0], q);
      NoNewPdfs(svc, st', entries[1..], q);
    }
  }

  /** Saving an entry adds no PDF and changes none; it may only remove the
      one stored under the entry's name. */
  lemma SaveEntryKeepsPdfs(svc: Services, st: State, title: string, summary: string, pdfUrl: string, q: Path)
    requires q.dir == PdfDir
    ensures var fs' := SaveEntry(svc, st, title, summary, pdfUrl).fs;
      q in fs' ==> q in st.fs && fs'[q] == st.fs[q]
  {
  }

  lemma StepKeepsPdfs(svc: Services, st: State, e: Entry, q: Path)
    requires q.dir == PdfDir && Step(svc, st, e).Some?
    ensures q in Step(svc, st, e).value.fs ==> q in st.fs && Step(svc, st, e).value.fs[q] == st.fs[q]
  {
    if e.title.Some? && e.summary.Some? && e.id.Some? {
      var title, summary, pdfUrl := Strip(e.title.value), Strip(e.summary.value), ArxivPdfUrl(e.id.value);
      CompleteEntry(svc, st, e);
      SaveEntryKeepsPdfs(svc, st, title, summary, pdfUrl, q);
    }
  }
}
