/** backup/summarize_all_pdfs.py: summarise every PDF in the PDF directory in
    two passes (each chunk, then the joined partial summaries); when there is
    text and the final summary is not empty, save it as markdown and delete
    the PDF. */
module SummarizeAllPdfs {
  import opened PyStr
  import opened Storage
  import opened FileNames

  datatype Services = Services(
    isAlnum: char -> bool,              // str.isalnum
    readPdf: Content -> string,         // pdfplumber, stripped; "" on failure
    chunk: string -> seq<string>,       // chunk_text: textwrap.wrap(text, width=4000)
    summarizeChunk: string -> string)   // summarize_single_chunk: the stripped answer, "" on failure

  /** The partial summaries `summarize_text` keeps: the non-empty ones, in
      chunk order. */
  function KeptSummaries(summarize: string -> string, chunks: seq<string>): (r: seq<string>)
    ensures |r| <= |chunks|
    ensures forall i :: 0 <= i < |r| ==> r[i] != ""
    decreases |chunks|
  {
    if chunks == [] then []
    else
      var s := summarize(chunks[|chunks| - 1]);
      KeptSummaries(summarize, chunks[..|chunks| - 1]) + (if s != "" then [s] else [])
  }

  /** Nothing is kept exactly when every chunk's summary came back empty. */
  lemma {:induction false} NothingKept(summarize: string -> string, chunks: seq<string>)
    ensures KeptSummaries(summarize, chunks) == [] <==> forall i :: 0 <= i < |chunks| ==> summarize(chunks[i]) == ""
    decreases |chunks|
  {
    if chunks != [] {
      var init := chunks[..|chunks| - 1];
      NothingKept(summarize, init);
      assert forall i :: 0 <= i < |init| ==> init[i] == chunks[i];
    }
  }

  /** Each kept summary is the summary of a chunk, and the kept summaries of a
      longer list extend those of its prefix. */
  lemma {:induction false} KeptAreSummaries(summarize: string -> string, chunks: seq<string>)
    ensures forall s :: s in KeptSummaries(summarize, chunks) ==> exists i :: 0 <= i < |chunks| && summarize(chunks[i]) == s
    decreases |chunks|
  {
    if chunks != [] {
      var init := chunks[..|chunks| - 1];
      KeptAreSummaries(summarize, init);
      forall s | s in KeptSummaries(summarize, chunks)
        ensures exists i :: 0 <= i < |chunks| && summarize(chunks[i]) == s
      {
        if s in KeptSummaries(summarize, init) {
          var i :| 0 <= i < |init| && summarize(init[i]) == s;
          assert chunks[i] == init[i];
        } else {
          assert summarize(chunks[|chunks| - 1]) == s;
        }
      }
    }
  }

  /** The first pass keeps summaries chunk by chunk: the kept summaries of a
      concatenation are those of each part, in order.  With the one-chunk
      case (a chunk contributes its summary exactly when it is not empty),
      this pins `KeptSummaries` down to the filter of the loop. */
  lemma {:induction false} KeptConcat(summarize: string -> string, a: seq<string>, b: seq<string>)
    ensures KeptSummaries(summarize, a + b) == KeptSummaries(summarize, a) + KeptSummaries(summarize, b)
    decreases |b|
  {
    if b == [] {
      assert a + b == a;
    } else {
      var b' := b[..|b| - 1];
      KeptConcat(summarize, a, b');
      assert (a + b)[..|a + b| - 1] == a + b';
      assert (a + b)[|a + b| - 1] == b[|b| - 1];
    }
  }

  /** One chunk contributes its summary exactly when it is not empty. */
  lemma KeptOne(summarize: string -> string, c: string)
    ensures KeptSummaries(summarize, [c]) == (if summarize(c) != "" then [summarize(c)] else [])
  {
    assert [c][..0] == [];
  }

  /** The kept summaries around one chunk. */
  lemma KeptAround(summarize: string -> string, before: seq<string>, c: string, after: seq<string>)
    ensures KeptSummaries(summarize, before + [c] + after)
      == KeptSummaries(summarize, before) + KeptSummaries(summarize, [c]) + KeptSummaries(summarize, after)
  {
    KeptConcat(summarize, before, [c]);
    KeptConcat(summarize, before + [c], after);
  }

  /** Every non-empty chunk summary is kept, at its chunk's place: the kept
      summaries split into those of the earlier chunks, this one, and those
      of the later chunks. */
  lemma KeptComplete(summarize: string -> string, chunks: seq<string>, i: nat)
    requires i < |chunks| && summarize(chunks[i]) != ""
    ensures KeptSummaries(summarize, chunks)
      == KeptSummaries(summarize, chunks[..i]) + [summarize(chunks[i])] + KeptSummaries(summarize, chunks[i + 1..])
    ensures summarize(chunks[i]) in KeptSummaries(summarize, chunks)
  {
    var before, after := chunks[..i], chunks[i + 1..];
    assert chunks == before + [chunks[i]] + after;
    KeptAround(summarize, before, chunks[i], after);
    KeptOne(summarize, chunks[i]);
    InMiddle(KeptSummaries(summarize, before), summarize(chunks[i]), KeptSummaries(summarize, after));
  }

  lemma InMiddle<T>(a: seq<T>, x: T, b: seq<T>)
    ensures x in a + [x] + b
  {
    assert (a + [x] + b)[|a|] == x;
  }

  /** Joining non-empty parts gives "" exactly when there are no parts. */
  lemma {:induction false} JoinEmpty(parts: seq<string>, sep: string)
    requires forall i :: 0 <= i < |parts| ==> parts[i] != ""
    ensures Join(parts, sep) == "" <==> parts == []
  {
    if |parts| > 1 {
      assert |Join(parts, sep)| >= |parts[0]| > 0;
    }
  }

  /** The text given to the final pass: the kept partial summaries joined
      with newlines. */
  function Combined(svc: Services, text: string): string {
    Join(KeptSummaries(svc.summarizeChunk, svc.chunk(text)), "\n")
  }

  /** The combined text is empty exactly when no partial summary was kept. */
  lemma CombinedEmpty(svc: Services, text: string)
    ensures Combined(svc, text) == "" <==> forall i :: 0 <= i < |svc.chunk(text)| ==> svc.summarizeChunk(svc.chunk(text)[i]) == ""
  {
    var chunks := svc.chunk(text);
    NothingKept(svc.summarizeChunk, chunks);
    JoinEmpty(KeptSummaries(svc.summarizeChunk, chunks), "\n");
  }

  /** What `summarize_text(text)` returns. */
  function TwoPassSummary(svc: Services, text: string): string {
    svc.summarizeChunk(Combined(svc, text))
  }

  /** `summarize_text(text)`: `prompts` lists, in order, the texts handed to
      the summariser: every chunk, then the combined partial summaries, even
      when that is empty. */
  method SummarizeText(svc: Services, text: string) returns (finalSummary: string, prompts: seq<string>)
    ensures prompts == svc.chunk(text) + [Combined(svc, text)]
    ensures |prompts| == |svc.chunk(text)| + 1
    ensures finalSummary == svc.summarizeChunk(prompts[|prompts| - 1]) == TwoPassSummary(svc, text)
  {
    var chunks := svc.chunk(text);
    var partialSummaries: seq<string> := [];
    prompts := [];
    var idx := 0;
    while idx < |chunks|
      invariant 0 <= idx <= |chunks|
      invariant prompts == chunks[..idx]
      invariant partialSummaries == KeptSummaries(svc.summarizeChunk, chunks[..idx])
    {
      assert chunks[..idx + 1][..idx] == chunks[..idx];
      var partialSummary := svc.summarizeChunk(chunks[idx]);
      prompts := prompts + [chunks[idx]];
      if partialSummary != "" {
        partialSummaries := partialSummaries + [partialSummary];
      }
      idx := idx + 1;
    }
    assert chunks[..idx] == chunks;
    var combinedSummary := Join(partialSummaries, "\n");
    prompts := prompts + [combinedSummary];
    finalSummary := svc.summarizeChunk(combinedSummary);
  }

  function SummaryPath(svc: Services, title: string): Path {
    Path(SummaryDir, SummaryFileName(svc.isAlnum, title))
  }

  /** The PDF entries `run_pipeline` summarises and deletes: text could be
      extracted and the final summary is not empty. */
  predicate Summarised(svc: Services, fs: FileSystem, name: string) {
    EndsWith(name, ".pdf")
    && var text := ExtractText(svc.readPdf, fs, Path(PdfDir, name));
       text != "" && TwoPassSummary(svc, text) != ""
  }

  /** One pass of the directory loop of `run_pipeline`. */
  function ProcessFile(svc: Services, fs: FileSystem, name: string): FileSystem {
    if !Summarised(svc, fs, name) then fs
    else
      var title := SummaryTitle(name);
      var summary := TwoPassSummary(svc, ExtractText(svc.readPdf, fs, Path(PdfDir, name)));
      fs[SummaryPath(svc, title) := Text(SummaryRecord(title, summary))] - {Path(PdfDir, name)}
  }

  function ProcessAll(svc: Services, fs: FileSystem, names: seq<string>): FileSystem
    decreases |names|
  {
    if names == [] then fs else ProcessAll(svc, ProcessFile(svc, fs, names[0]), names[1..])
  }

  /** `run_pipeline()` over the names `os.listdir(PDF_DIR)` returns. */
  method RunPipeline(svc: Services, fs0: FileSystem, listing: seq<string>) returns (fs: FileSystem)
    ensures fs == ProcessAll(svc, fs0, listing)
  {
    fs := fs0;
    var i := 0;
    while i < |listing|
      invariant 0 <= i <= |listing|
      invariant ProcessAll(svc, fs0, listing) == ProcessAll(svc, fs, listing[i..])
    {
      var filename := listing[i];
      assert listing[i..][0] == filename && listing[i..][1..] == listing[i + 1..];
      i := i + 1;
      if !EndsWith(filename, ".pdf") {
        continue;
      }
      var pdfPath := Path(PdfDir, filename);
      var text := ExtractText(svc.readPdf, fs, pdfPath);
      if text == "" {
        continue;
      }
      var summary, _ := SummarizeText(svc, text);
      if summary == "" {
        continue;
      }
      var title := SummaryTitle(filename);
      fs := fs[SummaryPath(svc, title) := Text(SummaryRecord(title, summary))];
      fs := fs - {pdfPath};
    }
  }

  /** A PDF that is not summarised stays where it is and nothing is written;
      a summarised one gets its summary file and is removed. */
  lemma ProcessFileEffect(svc: Services, fs: FileSystem, name: string)
    ensures !Summarised(svc, fs, name) ==> ProcessFile(svc, fs, name) == fs
    ensures Summarised(svc, fs, name) ==>
      var title := SummaryTitle(name);
      var fs' := ProcessFile(svc, fs, name);
      && Path(PdfDir, name) !in fs'
      && fs'[SummaryPath(svc, title)]
         == Text(SummaryRecord(title, TwoPassSummary(svc, ExtractText(svc.readPdf, fs, Path(PdfDir, name)))))
  {
    if Summarised(svc, fs, name) {
      var title := SummaryTitle(name);
      assert SummaryPath(svc, title) != Path(PdfDir, name);
    }
  }

  /** Processing one PDF touches no path but that PDF and its summary file. */
  lemma ProcessFileFrame(svc: Services, fs: FileSystem, name: string, q: Path)
    requires q != Path(PdfDir, name) && q != SummaryPath(svc, SummaryTitle(name))
    ensures SameAt(fs, ProcessFile(svc, fs, name), q)
  {
  }

  /** A listed name whose PDF `run_pipeline` deletes. */
  predicate Deleted(svc: Services, fs: FileSystem, names: seq<string>, m: string) {
    m in names && Summarised(svc, fs, m)
  }

  /** After the loop the PDF directory is what it was, minus exactly the
      listed PDFs that had both text and a non-empty final summary. */
  lemma {:induction false} PdfDirAfter(svc: Services, fs: FileSystem, names: seq<string>, m: string)
    ensures var fs' := ProcessAll(svc, fs, names);
      if Deleted(svc, fs, names, m) then Path(PdfDir, m) !in fs'
      else SameAt(fs, fs', Path(PdfDir, m))
    decreases |names|
  {
    if names != [] {
      var fs1 := ProcessFile(svc, fs, names[0]);
      var p := Path(PdfDir, m);
      ProcessFileEffect(svc, fs, names[0]);
      assert m == names[0] && Summarised(svc, fs, m) ==> p !in fs1;
      assert m != names[0] || !Summarised(svc, fs, m) ==> SameAt(fs, fs1, p);
      assert SameAt(fs, fs1, p) ==> ExtractText(svc.readPdf, fs, p) == ExtractText(svc.readPdf, fs1, p);
      PdfDirAfter(svc, fs1, names[1..], m);
      assert m in names <==> m == names[0] || m in names[1..];
    }
  }
}
