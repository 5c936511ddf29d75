/** scripts/pipeline.py: fetch papers from Semantic Scholar (a paper with a
    null title or abstract ends the run), then walk the PDF directory; a PDF
    with text is cut into tagged chunks for the vector index, summarised (the
    summary saved when there is one) and deleted.

    The HTTP client, pdfplumber, `textwrap.wrap` and the OpenAI client are the
    fields of `Services`; the directory listing is an argument, in whatever
    order the operating system returns it. */
module Pipeline {
  import opened Wrappers
  import opened PyStr
  import opened Storage
  import opened FileNames

  /** A JSON value under one key of a search result: missing, `null`, or a string. */
  datatype Field = Absent | Null | Value(text: string)

  /** One element of the `data` array of the search response. */
  datatype Paper = Paper(title: Field, abstractField: Field, url: Field)

  /** A LangChain `Document` built for the index: the chunk and its metadata. */
  datatype Document = Document(pageContent: string, source: string, chunkIdx: nat)

  datatype Services = Services(
    isAlnum: char -> bool,               // str.isalnum
    download: string -> Option<Bytes>,   // requests.get(url) + raise_for_status; None when either raises
    readPdf: Content -> string,          // pdfplumber, stripped; "" on failure
    chunk: string -> seq<string>,        // chunk_text: textwrap.wrap(text, width=CHUNK_SIZE)
    summarize: string -> string)         // summarize_text: the stripped answer, "" on failure

  /** `paper.get(key, "")`, ready for `.strip()`: None is a JSON null, on
      which `.strip()` raises. */
  function GetOrEmpty(f: Field): Option<string> {
    match f
    case Absent => Some("")
    case Null => None
    case Value(s) => Some(s)
  }

  /** `paper.get("url", "")` as a truth value: null and "" are both false. */
  function LinkOf(f: Field): string {
    match f
    case Value(s) => s
    case _ => ""
  }

  function MdPath(svc: Services, title: string): Path {
    Path(SummaryDir, AbstractFileName(svc.isAlnum, title))
  }

  function PdfPath(svc: Services, title: string): Path {
    Path(PdfDir, PdfFileName(svc.isAlnum, title))
  }

  /** A paper whose title or abstract is null stops the fetch: `.strip()` on
      None raises outside any `try`. */
  predicate Aborts(p: Paper) {
    GetOrEmpty(p.title).None? || GetOrEmpty(p.abstractField).None?
  }

  /** One pass of the loop in `fetch_semantic_scholar`; None when it raises. */
  function FetchPaper(svc: Services, fs: FileSystem, p: Paper): (r: Option<FileSystem>)
    ensures r.None? <==> Aborts(p)
  {
    if Aborts(p) then None
    else
      var title := Strip(GetOrEmpty(p.title).value);
      var abstractText := Strip(GetOrEmpty(p.abstractField).value);
      var url := LinkOf(p.url);
      if url == "" then Some(fs)
      else
        var fs1 := fs[MdPath(svc, title) := Text(AbstractRecord(title, abstractText, SEMANTIC_SCHOLAR_LINK, url))];
        match svc.download(url)
        case None => Some(fs1)
        case Some(b) => Some(fs1[PdfPath(svc, title) := Binary(b)])
  }

  /** The files after the loop, and whether it was cut short by an exception. */
  datatype FetchRun = FetchRun(fs: FileSystem, aborted: bool)

  function FetchAll(svc: Services, fs: FileSystem, papers: seq<Paper>): FetchRun
    decreases |papers|
  {
    if papers == [] then FetchRun(fs, false)
    else match FetchPaper(svc, fs, papers[0])
      case None => FetchRun(fs, true)
      case Some(fs') => FetchAll(svc, fs', papers[1..])
  }

  /** `fetch_semantic_scholar()`: `response` is the decoded `data` array, or
      None when the search request fails (the function then returns `[]`). */
  method FetchSemanticScholar(svc: Services, response: Option<seq<Paper>>, fs0: FileSystem)
    returns (papers: seq<Paper>, fs: FileSystem, aborted: bool)
    ensures response.None? ==> papers == [] && fs == fs0 && !aborted
    ensures response.Some? ==> FetchRun(fs, aborted) == FetchAll(svc, fs0, response.value)
    ensures response.Some? && !aborted ==> papers == response.value
  {
    papers, fs, aborted := [], fs0, false;
    if response.None? {
      return;
    }
    var all := response.value;
    var i := 0;
    while i < |all|
      invariant 0 <= i <= |all|
      invariant FetchAll(svc, fs0, all) == FetchAll(svc, fs, all[i..])
    {
      var paper := all[i];
      assert all[i..][0] == paper && all[i..][1..] == all[i + 1..];
      var title := GetOrEmpty(paper.title);
      if title.None? {
        aborted := true;
        return;
      }
      var abstractText := GetOrEmpty(paper.abstractField);
      if abstractText.None? {
        aborted := true;
        return;
      }
      var t, a, url := Strip(title.value), Strip(abstractText.value), LinkOf(paper.url);
      if url == "" {
        i := i + 1;
        continue;
      }
      fs := fs[MdPath(svc, t) := Text(AbstractRecord(t, a, SEMANTIC_SCHOLAR_LINK, url))];
      var pdf := svc.download(url);
      if pdf.Some? {
        fs := fs[PdfPath(svc, t) := Binary(pdf.value)];
      }
      i := i + 1;
    }
    papers := all;
  }

  /** A paper with no link writes nothing. */
  lemma NoLinkNoFile(svc: Services, fs: FileSystem, p: Paper)
    requires !Aborts(p) && LinkOf(p.url) == ""
    ensures FetchPaper(svc, fs, p) == Some(fs)
  {
  }

  /** A paper with a link gets its abstract file with exactly the record text,
      and its PDF when the download succeeds. */
  lemma FetchPaperWrites(svc: Services, fs: FileSystem, p: Paper)
    requires !Aborts(p) && LinkOf(p.url) != ""
    ensures var title := Strip(GetOrEmpty(p.title).value);
      var url := LinkOf(p.url);
      var fs' := FetchPaper(svc, fs, p).value;
      && fs'[MdPath(svc, title)] == Text(AbstractRecord(title, Strip(GetOrEmpty(p.abstractField).value), SEMANTIC_SCHOLAR_LINK, url))
      && (svc.download(url).Some? ==> fs'[PdfPath(svc, title)] == Binary(svc.download(url).value))
      && (svc.download(url).None? ==> SameAt(fs, fs', PdfPath(svc, title)))
  {
    var title := Strip(GetOrEmpty(p.title).value);
    var md, pdf := MdPath(svc, title), PdfPath(svc, title);
    assert md != pdf by { assert md.dir != pdf.dir; }
  }

  /** The paths a paper may write. */
  predicate Touches(svc: Services, p: Paper, q: Path) {
    GetOrEmpty(p.title).Some?
    && var title := Strip(GetOrEmpty(p.title).value);
       q == MdPath(svc, title) || q == PdfPath(svc, title)
  }

  /** A paper leaves every other path alone. */
  lemma FetchPaperFrame(svc: Services, fs: FileSystem, p: Paper, q: Path)
    requires !Aborts(p) && !Touches(svc, p, q)
    ensures SameAt(fs, FetchPaper(svc, fs, p).value, q)
  {
    var title := Strip(GetOrEmpty(p.title).value);
    var abstractText := Strip(GetOrEmpty(p.abstractField).value);
    var url := LinkOf(p.url);
    var md, pdf := MdPath(svc, title), PdfPath(svc, title);
    assert q != md && q != pdf;
    if url != "" {
      var fs1 := fs[md := Text(AbstractRecord(title, abstractText, SEMANTIC_SCHOLAR_LINK, url))];
      assert SameAt(fs, fs1, q);
      if svc.download(url).None? {
        assert FetchPaper(svc, fs, p) == Some(fs1);
      } else {
        var fs2 := fs1[pdf := Binary(svc.download(url).value)];
        assert FetchPaper(svc, fs, p) == Some(fs2);
        assert SameAt(fs1, fs2, q);
      }
    }
  }

  /** The fetch changes no file other than the abstract and PDF files named
      after the papers it was given. */
  lemma {:induction false} FetchAllFrame(svc: Services, fs: FileSystem, papers: seq<Paper>, q: Path)
    requires forall k :: 0 <= k < |papers| ==> !Touches(svc, papers[k], q)
    ensures SameAt(fs, FetchAll(svc, fs, papers).fs, q)
    decreases |papers|
  {
    if papers != [] && !Aborts(papers[0]) {
      var fs' := FetchPaper(svc, fs, papers[0]).value;
      FetchPaperFrame(svc, fs, papers[0], q);
      FetchAllFrame(svc, fs', papers[1..], q);
    }
  }

  /** The fetch is aborted exactly when some paper has a null title or abstract. */
  lemma {:induction false} FetchAllAborts(svc: Services, fs: FileSystem, papers: seq<Paper>)
    ensures FetchAll(svc, fs, papers).aborted <==> exists k :: 0 <= k < |papers| && Aborts(papers[k])
    decreases |papers|
  {
    if papers != [] {
      match FetchPaper(svc, fs, papers[0])
      case None =>
      case Some(fs') =>
        FetchAllAborts(svc, fs', papers[1..]);
        if exists k :: 0 <= k < |papers| && Aborts(papers[k]) {
          var k :| 0 <= k < |papers| && Aborts(papers[k]);
          assert k != 0 && papers[1..][k - 1] == papers[k];
        }
        if exists k :: 0 <= k < |papers[1..]| && Aborts(papers[1..][k]) {
          var k :| 0 <= k < |papers[1..]| && Aborts(papers[1..][k]);
          assert papers[k + 1] == papers[1..][k];
        }
    }
  }

  /** The documents `run_pipeline` builds from one PDF's chunks. */
  function Tagged(chunks: seq<string>, source: string): seq<Document> {
    seq(|chunks|, i requires 0 <= i < |chunks| => Document(chunks[i], source, i))
  }

  /** The inner loop of `run_pipeline`: one document per chunk, tagged with the
      PDF's file name and the chunk's position, appended in chunk order. */
  method AppendChunks(docs: seq<Document>, chunks: seq<string>, source: string)
    returns (docs': seq<Document>)
    ensures |docs'| == |docs| + |chunks| && docs'[..|docs|] == docs
    ensures forall i :: 0 <= i < |chunks| ==>
      docs'[|docs| + i].pageContent == chunks[i] && docs'[|docs| + i].source == source && docs'[|docs| + i].chunkIdx == i
    ensures docs' == docs + Tagged(chunks, source)
  {
    docs' := docs;
    var idx := 0;
    while idx < |chunks|
      invariant 0 <= idx <= |chunks|
      invariant docs' == docs + Tagged(chunks[..idx], source)
    {
      assert Tagged(chunks[..idx + 1], source) == Tagged(chunks[..idx], source) + [Document(chunks[idx], source, idx)];
      docs' := docs' + [Document(chunks[idx], source, idx)];
      idx := idx + 1;
    }
    assert chunks[..idx] == chunks;
  }

  datatype PipelineState = PipelineState(fs: FileSystem, docs: seq<Document>)

  /** One pass of the directory loop of `run_pipeline`. */
  function ProcessEntry(svc: Services, st: PipelineState, name: string): PipelineState {
    if !EndsWith(name, ".pdf") then st
    else
      var pdf := Path(PdfDir, name);
      var text := ExtractText(svc.readPdf, st.fs, pdf);
      if text == "" then st
      else
        var docs := st.docs + Tagged(svc.chunk(text), name);
        var summary := svc.summarize(text);
        var title := SummaryTitle(name);
        var fs1 := if summary != "" then st.fs[Path(SummaryDir, SummaryFileName(svc.isAlnum, title)) := Text(SummaryRecord(title, summary))]
                   else st.fs;
        PipelineState(fs1 - {pdf}, docs)
  }

  function ProcessAll(svc: Services, st: PipelineState, names: seq<string>): PipelineState
    decreases |names|
  {
    if names == [] then st else ProcessAll(svc, ProcessEntry(svc, st, names[0]), names[1..])
  }

  /** The files after the fetch that opens `run_pipeline`. */
  function Fetched(svc: Services, response: Option<seq<Paper>>, fs0: FileSystem): FetchRun {
    if response.None? then FetchRun(fs0, false) else FetchAll(svc, fs0, response.value)
  }

  /** `run_pipeline()`: fetch, then process every entry of `listing` (the
      names `os.listdir(PDF_DIR)` returns).  `docs` is what goes into the
      vector index, which is built only when it is non-empty. */
  method RunPipeline(svc: Services, response: Option<seq<Paper>>, fs0: FileSystem, listing: seq<string>)
    returns (fs: FileSystem, docs: seq<Document>, aborted: bool)
    ensures aborted == Fetched(svc, response, fs0).aborted
    ensures aborted ==> fs == Fetched(svc, response, fs0).fs && docs == []
    ensures !aborted ==> PipelineState(fs, docs) == ProcessAll(svc, PipelineState(Fetched(svc, response, fs0).fs, []), listing)
  {
    var papers;
    papers, fs, aborted := FetchSemanticScholar(svc, response, fs0);
    docs := [];
    if aborted {
      return;
    }
    ghost var start := PipelineState(fs, docs);
    var i := 0;
    while i < |listing|
      invariant 0 <= i <= |listing|
      invariant ProcessAll(svc, start, listing) == ProcessAll(svc, PipelineState(fs, docs), listing[i..])
    {
      var filename := listing[i];
      assert listing[i..][0] == filename && listing[i..][1..] == listing[i + 1..];
      i := i + 1;
      if !EndsWith(filename, ".pdf") {
        continue;
      }
      var pdfPath := Path(PdfDir, filename);
      var text := ExtractText(svc.readPdf, fs, pdfPath);
      if text == "" {
        continue;
      }
      docs := AppendChunks(docs, svc.chunk(text), filename);
      var summary := svc.summarize(text);
      if summary != "" {
        var title := SummaryTitle(filename);
        fs := fs[Path(SummaryDir, SummaryFileName(svc.isAlnum, title)) := Text(SummaryRecord(title, summary))];
      }
      fs := fs - {pdfPath};
    }
  }

  /** A `.pdf` entry with text adds one document per chunk and loses its
      PDF; its summary file gets the summary record exactly when the
      summariser answered, and is left as it was otherwise; no other path
      changes. */
  lemma ProcessEntryEffect(svc: Services, st: PipelineState, name: string, q: Path)
    requires EndsWith(name, ".pdf") && ExtractText(svc.readPdf, st.fs, Path(PdfDir, name)) != ""
    ensures var text := ExtractText(svc.readPdf, st.fs, Path(PdfDir, name));
      var title := SummaryTitle(name);
      var md := Path(SummaryDir, SummaryFileName(svc.isAlnum, title));
      var st' := ProcessEntry(svc, st, name);
      && st'.docs == st.docs + Tagged(svc.chunk(text), name)
      && Path(PdfDir, name) !in st'.fs
      && (svc.summarize(text) != "" ==> st'.fs[md] == Text(SummaryRecord(title, svc.summarize(text))))
      && (svc.summarize(text) == "" ==> SameAt(st.fs, st'.fs, md))
      && (q != md && q != Path(PdfDir, name) ==> SameAt(st.fs, st'.fs, q))
  {
    assert Path(SummaryDir, SummaryFileName(svc.isAlnum, SummaryTitle(name))) != Path(PdfDir, name);
  }

  /** A listed name that `run_pipeline` deletes from the PDF directory: a
      `.pdf` entry whose text could be extracted. */
  predicate Deleted(svc: Services, fs: FileSystem, names: seq<string>, m: string) {
    m in names && EndsWith(m, ".pdf") && ExtractText(svc.readPdf, fs, Path(PdfDir, m)) != ""
  }

  /** Entries that are not PDFs, and PDFs without text, are skipped: no file
      changes and no document is added. */
  lemma SkippedEntry(svc: Services, st: PipelineState, name: string)
    requires !EndsWith(name, ".pdf") || ExtractText(svc.readPdf, st.fs, Path(PdfDir, name)) == ""
    ensures ProcessEntry(svc, st, name) == st
  {
  }

  /** After the loop the PDF directory is what it was, minus exactly the
      listed PDFs with text, whether or not a summary was written for them. */
  lemma {:induction false} PdfDirAfter(svc: Services, st: PipelineState, names: seq<string>, m: string)
    ensures var fs' := ProcessAll(svc, st, names).fs;
      if Deleted(svc, st.fs, names, m) then Path(PdfDir, m) !in fs'
      else SameAt(st.fs, fs', Path(PdfDir, m))
    decreases |names|
  {
    if names != [] {
      var st1 := ProcessEntry(svc, st, names[0]);
      var p := Path(PdfDir, m);
      assert m == names[0] && Deleted(svc, st.fs, names, m) ==> p !in st1.fs;
      assert m != names[0] || !Deleted(svc, st.fs, names, m) ==> SameAt(st.fs, st1.fs, p);
      PdfDirAfter(svc, st1, names[1..], m);
      assert m in names <==> m == names[0] || m in names[1..];
    }
  }

  /** Every document added comes from a listed `.pdf` entry. */
  lemma {:induction false} DocsFromListedPdfs(svc: Services, st: PipelineState, names: seq<string>)
    ensures var docs := ProcessAll(svc, st, names).docs;
      && |st.docs| <= |docs| && docs[..|st.docs|] == st.docs
      && forall k :: |st.docs| <= k < |docs| ==> docs[k].source in names && EndsWith(docs[k].source, ".pdf")
    decreases |names|
  {
    if names != [] {
      var st1 := ProcessEntry(svc, st, names[0]);
      DocsFromListedPdfs(svc, st1, names[1..]);
      var docs := ProcessAll(svc, st, names).docs;
      assert |st.docs| <= |st1.docs| && st1.docs[..|st.docs|] == st.docs;
      forall k | |st.docs| <= k < |docs|
        ensures docs[k].source in names && EndsWith(docs[k].source, ".pdf")
      {
        if k < |st1.docs| {
          assert st1.docs[k] == docs[k];
          assert st1.docs[k].source == names[0];
        } else {
          assert docs[k].source in names[1..];
        }
      }
    }
  }
}
