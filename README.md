# learnmate in Dafny

learnmate collects education research papers, summarises them with a
language model, and indexes them for a question-answering chatbot. This
project models the scripts that fill that collection and the retrieval
evaluation, and proves properties about them:

- `scripts/pipeline.py` (module `Pipeline`) searches Semantic Scholar and
  goes through the hits in order. A hit whose title or abstract is null
  stops the run there, because `.strip()` on null raises outside any `try`.
  A hit without a link writes nothing. A hit with a link gets an abstract
  file, and its PDF is downloaded. Unless a null title or abstract stopped
  it, and even when the search request failed, it then walks the PDF
  directory and, for every PDF with text:
  - cuts the text into chunks tagged with the file name and the chunk
    position, for the vector index;
  - writes a summary file when the summariser answers;
  - deletes the PDF.
- `backup/fetch_papers.py` (module `FetchPapers`) queries arXiv. An Atom
  entry with a title, an abstract and an id gets an abstract file; its PDF
  is downloaded and removed again at once. An entry that lacks one of them
  is logged and skipped and writes nothing. The exception is a first entry
  without a title: the handler's message then reads the unbound `title`,
  and the exception escapes `fetch_arxiv` before anything is written.
- `backup/summarize_all_pdfs.py` (module `SummarizeAllPdfs`) summarises
  every PDF in two passes: each chunk first, then the joined partial
  summaries. It writes the summary and deletes the PDF only when that final
  summary is not empty.
- `scripts/evaluation.py` (module `Evaluation`) scores a retrieval against
  expected passages. It reports precision, recall and F1 under a
  cosine-similarity threshold, and how close the chatbot's answer is to the
  expected passages.

Shared pieces have modules of their own:
- `PyStr` holds the Python `str` operations the scripts use (`strip`,
  `rstrip`, slicing, `replace`, `join`, `endswith`).
- `FileNames` holds the file-name sanitiser, the derived file names, the
  arXiv PDF URL, and the exact text of the markdown files.
- `Storage` holds the two directories as a map from paths to contents.
- `Wrappers` holds `Option`.

The HTTP client, pdfplumber, `textwrap.wrap`, the OpenAI client, the
embedding similarity and `str.isalnum` are parameters (fields of a
`Services` value, or function arguments). As functions, they give the same
answer to the same question; beyond that, every property holds whatever
they return. Each loop of the scripts is a `method` with a `while` or `for`
loop. It is proved equal to a recursive function over the same list, and the
properties are lemmas about that function. The file system is a value that
the loop threads through; the directory listing is an argument, in any
order.

## Model

| member | source | states |
|---|---|---|
| PyStr.IsSpace | scripts/pipeline.py:37 | the characters Python's `str.strip` and `str.rstrip` remove by default (stated by `RstripRemovesSpaces` and `LstripRemovesSpaces`) |
| PyStr.EndsWith | scripts/pipeline.py:143 | `s.endswith(suffix)`: the last characters of `s` are `suffix` (used by `Pipeline.SkippedEntry` and `Pipeline.ProcessEntryEffect`) |
| PyStr.Rstrip | scripts/pipeline.py:37 | `rstrip()` returns a prefix of its input that does not end in whitespace |
| PyStr.RstripRemovesSpaces | scripts/pipeline.py:37 | everything `rstrip()` cuts off is whitespace |
| PyStr.Lstrip | backup/fetch_papers.py:48 | the leading-whitespace half of `strip()`: no longer than the input, and not starting with whitespace |
| PyStr.LstripRemovesSpaces | backup/fetch_papers.py:48-50 | the leading-whitespace half of `strip()` returns a suffix of its input, and what it cuts off is whitespace |
| PyStr.StripTrimmed | scripts/pipeline.py:64-65 | `strip()` leaves text alone when it has no whitespace at either end |
| PyStr.Strip | backup/fetch_papers.py:48 | `s.strip()`: the leading and then the trailing whitespace removed (its properties are those of `Lstrip` and `Rstrip` above) |
| PyStr.Take | scripts/pipeline.py:72 | `title[:TITLE_SLICE]` is the whole title when it is no longer than TITLE_SLICE, and exactly its first TITLE_SLICE characters otherwise |
| PyStr.ReplaceSameLength | scripts/pipeline.py:128 | a `replace` whose replacement has the pattern's length keeps the length |
| PyStr.ReplaceChar | scripts/pipeline.py:128 | `replace(" ", "_")` substitutes position by position: a space becomes `_`, and every other character stays |
| PyStr.ReplaceCharRemoves | scripts/pipeline.py:128 | after `replace(" ", "_")` no space is left |
| PyStr.ReplaceAbsent | backup/fetch_papers.py:50 | `replace` leaves text without the pattern unchanged |
| PyStr.Replace | scripts/pipeline.py:128 | `s.replace(pat, rep)`: occurrences found left to right, without overlap, and the replacement never rescanned (stated by the `Replace*` lemmas and `FileNames.AbsRewrite`) |
| PyStr.Join | backup/summarize_all_pdfs.py:61 | `sep.join(parts)` (stated by `SummarizeAllPdfs.JoinEmpty`) |
| FileNames.KeepAllowed | scripts/pipeline.py:37 | the filter keeps only alphanumerics and ` ._-`, and never lengthens the text |
| FileNames.KeepAllowedComplete | scripts/pipeline.py:37 | every alphanumeric or ` ._-` character of the input survives the filter |
| FileNames.KeepAllowedConcat | scripts/pipeline.py:37 | the filter works position by position: filtering a concatenation filters each part, so every allowed position survives in place and nothing else does |
| FileNames.KeepAllowedChar | scripts/pipeline.py:37 | one character is kept exactly when it is alphanumeric or one of ` ._-` |
| FileNames.KeepAllowedSubsequence | scripts/pipeline.py:37 | the filter keeps characters in their original order |
| FileNames.KeepAllowedOfAllowed | scripts/pipeline.py:37 | the filter is the identity on text made only of allowed characters |
| FileNames.SanitizeFilename | scripts/pipeline.py:36-37 | `sanitize_filename` returns only allowed characters, does not end in whitespace, and is no longer than its input |
| FileNames.SanitizeSubsequence | backup/fetch_papers.py:14-15 | `sanitize_filename` returns a subsequence of its input (characters are dropped, never added or reordered) |
| FileNames.SanitizeIdempotent | scripts/pipeline.py:36-37 | sanitising a sanitised name changes nothing |
| FileNames.BaseName | scripts/pipeline.py:72 | a file-name base has at most 60 characters, all allowed |
| FileNames.BaseNameDependsOnPrefix | scripts/pipeline.py:72-74 | two titles that agree on their first 60 characters get the same abstract and PDF file names |
| FileNames.BaseNameFixpoint | backup/fetch_papers.py:52 | deriving the base again from a base gives the same base |
| FileNames.AbstractFileName | scripts/pipeline.py:73 | the abstract file name `<base>.md` (stated by `BaseNameDependsOnPrefix` and `SummaryOfBaseName`) |
| FileNames.PdfFileName | scripts/pipeline.py:74 | the PDF file name `<base>.pdf`, the same name in backup/fetch_papers.py:54 (stated by `BaseNameDependsOnPrefix` and `FetchedPdfSummaryName`) |
| FileNames.SummaryFileNameShape | scripts/pipeline.py:128 | a summary file name ends in `.md` and has no space before it |
| FileNames.SummaryOfBaseName | scripts/pipeline.py:127-129 | the summary file name of a title is its abstract file name with spaces turned into `_` |
| FileNames.SummaryFileName | scripts/pipeline.py:128 | the summary file name of `save_summary_to_md` (stated by `SummaryFileNameShape` and `SummaryOfBaseName`) |
| FileNames.RemovePdfSuffix | scripts/pipeline.py:163 | `filename.replace(".pdf", "")` gives back the base when `.pdf` occurs only as the suffix |
| FileNames.SummaryTitle | scripts/pipeline.py:163 | `filename.replace(".pdf", "")` (stated by `RemovePdfSuffix` and `PdfInBaseNameSplitsNames`) |
| FileNames.FetchedPdfSummaryName | scripts/pipeline.py:163 | a PDF named after a title whose base has no `.pdf` gets the summary file name of that title |
| FileNames.PdfInBaseNameSplitsNames | scripts/pipeline.py:163 | a title `.pdf d` gets the abstract file `.pdf d.md`, but the summary of its PDF goes to `_d.md`, because `replace` removes every `.pdf` |
| FileNames.AbsReplaced | backup/fetch_papers.py:50 | `replace("abs", "pdf")` keeps the length and leaves no `abs` behind |
| FileNames.AbsToPdfAt | backup/fetch_papers.py:50 | an independent statement of the rewrite at one position: the matching letter of `pdf` inside an occurrence of `abs`, the original character elsewhere |
| FileNames.AbsRewrite | backup/fetch_papers.py:50 | at every position, `replace("abs", "pdf")` gives the letter of `pdf` where an `abs` occurred and keeps every other character |
| FileNames.ArxivPdfUrl | backup/fetch_papers.py:50 | the PDF link: the stripped `atom:id` with `abs` rewritten to `pdf` (stated by `AbsRewrite` and `ArxivPdfUrlWithoutAbs`) |
| FileNames.ArxivPdfUrlWithoutAbs | backup/fetch_papers.py:50 | an id without `abs` becomes the PDF URL only stripped |
| FileNames.AbstractRecord | scripts/pipeline.py:77-80 | the text of an abstract file (stated by `AbstractRecordShape` and `AbstractRecordHeading`) |
| FileNames.SummaryRecord | scripts/pipeline.py:131 | the text of a summary file (stated by `SummaryRecordRoundTrip`) |
| FileNames.AbstractRecordShape | scripts/pipeline.py:77-80 | for any title, an abstract file starts with `# <title>` and a blank line, and ends with the markdown link to the paper's URL |
| FileNames.AbstractRecordHeading | scripts/pipeline.py:77-80 | for a title without a line break, the heading read back from an abstract file is the title, and the file ends with the markdown link to the paper's URL |
| FileNames.SummaryRecordRoundTrip | scripts/pipeline.py:130-131 | for a title without a line break, the title and the summary can be read back from a summary file |
| Storage.ExtractText | scripts/pipeline.py:97-106 | a path with no file yields no text |
| Pipeline.GetOrEmpty | scripts/pipeline.py:64-65 | `paper.get(key, "")`: a missing key gives `""`, a JSON null gives none, on which `.strip()` raises (stated by `FetchAllAborts`) |
| Pipeline.LinkOf | scripts/pipeline.py:66-68 | `paper.get("url", "")` as `if not pdf_url` reads it: null and `""` both mean no link (stated by `NoLinkNoFile`) |
| Pipeline.MdPath | scripts/pipeline.py:73 | `os.path.join(SUMMARY_DIR, f"{filename_base}.md")` (stated by `FetchPaperWrites` and `FetchPaperFrame`) |
| Pipeline.PdfPath | scripts/pipeline.py:74 | `os.path.join(PDF_DIR, f"{filename_base}.pdf")` (stated by `FetchPaperWrites` and `FetchPaperFrame`) |
| Pipeline.FetchPaper | scripts/pipeline.py:63-92 | one paper raises exactly when its title or abstract is JSON null (`.strip()` on None) |
| Pipeline.FetchAll | scripts/pipeline.py:63-92 | the loop of `fetch_semantic_scholar` over the papers, stopping at the first paper that raises (stated by `FetchAllAborts` and `FetchAllFrame`) |
| Pipeline.FetchSemanticScholar | scripts/pipeline.py:53-94 | a failed search returns `[]` and writes nothing; otherwise the files and the abort flag are those of the loop over the papers, and a finished loop returns the papers |
| Pipeline.NoLinkNoFile | scripts/pipeline.py:68-70 | a paper without a link writes nothing |
| Pipeline.FetchPaperWrites | scripts/pipeline.py:72-92 | a paper with a link gets its abstract file with the exact record text; its PDF gets the downloaded bytes, or stays untouched when the download fails |
| Pipeline.FetchPaperFrame | scripts/pipeline.py:72-89 | one paper changes no path other than its own abstract and PDF files |
| Pipeline.FetchAllFrame | scripts/pipeline.py:63-92 | the whole fetch changes no file that is not named after one of the papers |
| Pipeline.FetchAllAborts | scripts/pipeline.py:63-65 | the fetch is cut short exactly when some paper has a null title or abstract |
| Pipeline.Tagged | scripts/pipeline.py:156-157 | the documents of one PDF: one per chunk, in chunk order, with the chunk's text, the PDF's file name and the chunk's index (stated by `AppendChunks` and `ProcessEntryEffect`) |
| Pipeline.AppendChunks | scripts/pipeline.py:155-158 | one document per chunk is appended, in order, with the chunk's text, the PDF's file name and the chunk's index |
| Pipeline.ProcessEntry | scripts/pipeline.py:143-167 | one pass of the directory loop of `run_pipeline` (stated by `SkippedEntry`, `ProcessEntryEffect`, `PdfDirAfter` and `DocsFromListedPdfs`) |
| Pipeline.ProcessEntryEffect | scripts/pipeline.py:143-166 | a `.pdf` entry with text adds its chunks as documents tagged with its name and loses its PDF; its summary file holds the summary record exactly when the summariser answered and is untouched otherwise; every other path is unchanged |
| Pipeline.ProcessAll | scripts/pipeline.py:142-167 | the directory loop of `run_pipeline` over the listing (stated by `PdfDirAfter` and `DocsFromListedPdfs`) |
| Pipeline.RunPipeline | scripts/pipeline.py:137-167 | `run_pipeline` fetches first; an aborted fetch ends the run; otherwise files and documents are those of the loop over the listing |
| Pipeline.SkippedEntry | scripts/pipeline.py:142-152 | a name that is not a `.pdf`, or a PDF without text, changes no file and adds no document |
| Pipeline.PdfDirAfter | scripts/pipeline.py:142-166 | after the loop a listed PDF is gone exactly when it had text, with or without a summary; every other PDF path is as before |
| Pipeline.DocsFromListedPdfs | scripts/pipeline.py:142-158 | the documents are only appended, and each new one comes from a listed `.pdf` name |
| FetchPapers.DownloadUrl | backup/fetch_papers.py:64 | the PDF is requested from the PDF URL followed by `.pdf` |
| FetchPapers.SaveEntry | backup/fetch_papers.py:52-72 | the body of the `try` for a complete entry (stated by `SaveEntryEffect`) |
| FetchPapers.Step | backup/fetch_papers.py:47-75 | one pass of the loop, with the handler that reads `title` (stated by `CompleteEntry` and `FailureAfterTitle`) |
| FetchPapers.StepAll | backup/fetch_papers.py:46-75 | the loop over the entries, keeping the state where an exception escapes (stated by `EscapesOnlyOnFirstEntry` and `NoNewPdfs`) |
| FetchPapers.FetchArxiv | backup/fetch_papers.py:33-75 | a failed search changes nothing; otherwise the files, the requests and whether an exception escapes are those of the loop over the entries; when an exception escapes, nothing has been written or requested |
| FetchPapers.SaveEntryEffect | backup/fetch_papers.py:52-72 | a complete entry leaves its abstract file with the record text and requests its PDF; a downloaded PDF is gone again, and a failed download leaves the PDF path untouched |
| FetchPapers.SaveEntryFrame | backup/fetch_papers.py:52-72 | saving a complete entry changes no path other than its abstract file and its PDF |
| FetchPapers.CompleteEntry | backup/fetch_papers.py:48-50 | the title, abstract and id are stripped, and `abs` in the id becomes `pdf`, before an entry is saved |
| FetchPapers.FailureAfterTitle | backup/fetch_papers.py:74-75 | once a title has been bound, a failing entry is logged and skipped: files and requests are unchanged |
| FetchPapers.EscapesOnlyOnFirstEntry | backup/fetch_papers.py:46-75 | an exception escapes `fetch_arxiv` exactly when the first entry has no title (the handler reads the unbound `title`) |
| FetchPapers.NeverEscapesOnceBound | backup/fetch_papers.py:74-75 | once `title` is bound, no later entry lets an exception escape |
| FetchPapers.NoNewPdfs | backup/fetch_papers.py:67-71 | `fetch_arxiv` adds no PDF and changes none: every PDF afterwards was there before with the same bytes (one already stored under an entry's name is removed when that entry's download succeeds) |
| FetchPapers.SaveEntryKeepsPdfs | backup/fetch_papers.py:67-71 | saving one entry adds or changes no PDF; it may only remove one |
| FetchPapers.StepKeepsPdfs | backup/fetch_papers.py:47-75 | one pass of the loop adds or changes no PDF; it may only remove one |
| SummarizeAllPdfs.KeptSummaries | backup/summarize_all_pdfs.py:55-59 | the partial summaries kept are non-empty and at most one per chunk |
| SummarizeAllPdfs.NothingKept | backup/summarize_all_pdfs.py:55-59 | no partial summary is kept exactly when every chunk's summary was empty |
| SummarizeAllPdfs.KeptAreSummaries | backup/summarize_all_pdfs.py:57-59 | every kept partial summary is the summary of some chunk |
| SummarizeAllPdfs.KeptConcat | backup/summarize_all_pdfs.py:55-59 | the first pass keeps summaries chunk by chunk: the kept summaries of a concatenation are those of each part, in order |
| SummarizeAllPdfs.KeptOne | backup/summarize_all_pdfs.py:57-59 | one chunk contributes its summary exactly when that summary is not empty |
| SummarizeAllPdfs.KeptComplete | backup/summarize_all_pdfs.py:55-59 | every non-empty chunk summary is kept, between those of the earlier and those of the later chunks |
| SummarizeAllPdfs.JoinEmpty | backup/summarize_all_pdfs.py:61 | joining non-empty parts gives "" exactly when there are none |
| SummarizeAllPdfs.CombinedEmpty | backup/summarize_all_pdfs.py:55-61 | the text of the second pass is empty exactly when every chunk's summary was empty |
| SummarizeAllPdfs.Combined | backup/summarize_all_pdfs.py:61 | the text of the second pass: the kept partial summaries joined with newlines (stated by `CombinedEmpty`) |
| SummarizeAllPdfs.TwoPassSummary | backup/summarize_all_pdfs.py:65-66 | the summariser's answer to the combined text (stated by `SummarizeText`) |
| SummarizeAllPdfs.SummarizeText | backup/summarize_all_pdfs.py:50-66 | the summariser sees every chunk in order and then the joined partial summaries (even when empty); the result is its answer to the last of these |
| SummarizeAllPdfs.RunPipeline | backup/summarize_all_pdfs.py:77-98 | `run_pipeline` gives the files of the loop over the listing |
| SummarizeAllPdfs.ProcessFile | backup/summarize_all_pdfs.py:81-98 | one pass of the directory loop (stated by `ProcessFileEffect` and `PdfDirAfter`) |
| SummarizeAllPdfs.ProcessFileEffect | backup/summarize_all_pdfs.py:80-97 | a PDF without text or without a final summary stays and nothing is written; otherwise its summary file is written and the PDF is removed |
| SummarizeAllPdfs.ProcessFileFrame | backup/summarize_all_pdfs.py:80-97 | processing one PDF changes no path other than that PDF and its summary file |
| SummarizeAllPdfs.SummaryPath | backup/summarize_all_pdfs.py:71 | `os.path.join(SUMMARY_DIR, filename)` with the summary file name (stated by `ProcessFileEffect` and `ProcessFileFrame`) |
| SummarizeAllPdfs.ProcessAll | backup/summarize_all_pdfs.py:80-98 | the directory loop of `run_pipeline` over the listing (stated by `RunPipeline` and `PdfDirAfter`) |
| SummarizeAllPdfs.PdfDirAfter | backup/summarize_all_pdfs.py:80-97 | after the loop a listed PDF is gone exactly when it had text and a non-empty final summary; every other PDF path is as before |
| Evaluation.AnyMatch | scripts/evaluation.py:52 | an expected passage is found exactly when some retrieved passage reaches the threshold against it |
| Evaluation.MatchCount | scripts/evaluation.py:51-55 | the true positives never outnumber the expected passages |
| Evaluation.Ratio | scripts/evaluation.py:57-58 | `num / den if den else 0` (stated by `PrecisionBounds`, `RecallBounds` and `EmptyRetrievalScoresZero`) |
| Evaluation.Precision | scripts/evaluation.py:56-57 | `tp / (tp + fp)` with `fp = len(retrieved) - tp`, so true positives over retrieved, 0 when nothing is retrieved (stated by `PrecisionBounds` and `PrecisionCanExceedOne`) |
| Evaluation.Recall | scripts/evaluation.py:58 | true positives over expected, 0 when nothing is expected (stated by `RecallBounds`) |
| Evaluation.F1Score | scripts/evaluation.py:59 | the harmonic mean, 0 when both scores are 0 (stated by `F1Zero` and `F1Between`) |
| Evaluation.EvaluateAccuracy | scripts/evaluation.py:49-60 | precision is true positives over retrieved, recall is true positives over expected, each 0 on a zero denominator, and F1 is their harmonic mean (0 when both are 0) |
| Evaluation.RecallBounds | scripts/evaluation.py:58 | recall lies in [0, 1] and is 0 when nothing is expected |
| Evaluation.PrecisionBounds | scripts/evaluation.py:56-57 | precision is non-negative and at most expected over retrieved, not at most 1 |
| Evaluation.PrecisionCanExceedOne | scripts/evaluation.py:52-57 | one retrieved passage that matches two expected ones gives precision 2, because `fp` goes negative |
| Evaluation.NothingRetrievedNothingMatched | scripts/evaluation.py:52 | with nothing retrieved, no expected passage is found |
| Evaluation.EmptyRetrievalScoresZero | scripts/evaluation.py:56-59 | an empty retrieval scores 0 precision, 0 recall and 0 F1 |
| Evaluation.F1Zero | scripts/evaluation.py:59 | for non-negative scores, F1 is 0 exactly when precision or recall is 0 |
| Evaluation.F1Between | scripts/evaluation.py:59 | for positive scores, F1 lies between precision and recall |
| Evaluation.MatchCountMonotone | scripts/evaluation.py:51-55 | retrieving more passages never finds fewer expected ones |
| Evaluation.PageContents | scripts/evaluation.py:66 | the retrieved texts are the documents' `page_content`, position by position |
| Evaluation.TopK | scripts/evaluation.py:66 | `results[:10]` is a prefix of at most 10 results, all of them when there are no more than 10 |
| Evaluation.EvaluateQuery | scripts/evaluation.py:62-68 | the retrieved texts are the page contents of the first 10 results, and the scores are those of `evaluate_accuracy` on them with the given threshold |
| Evaluation.TruncationLowersRecall | scripts/evaluation.py:66-67 | cutting the results at 10 never raises recall |
| Evaluation.MaxSimilarity | scripts/evaluation.py:76 | the answer's score is the largest similarity to an expected passage, and some passage attains it |
| Evaluation.EvaluateAnswer | scripts/evaluation.py:70-79 | an answer gives the elapsed time, the answer and its best similarity; a raised error gives `(0, message, 0)`; no expected passage makes `max()` raise and gives `(0, message, 0)` |

## Left out

- Network access is left out: the HTTP search, the Semantic Scholar JSON decoding (`res.json().get('data', [])`) and the arXiv Atom parsing with ElementTree. Their results are inputs: a list of papers or entries, or none when the request fails. A body that is not JSON, or Atom that is not well formed, raises; that is not modelled.
- `str.isalnum` depends on Unicode tables, so it is a parameter. Python's whitespace set for `strip` is modelled exactly.
- pdfplumber's page loop and `.strip()` are folded into one text-extraction parameter. It returns "" on failure.
- `textwrap.wrap` (the chunker) is a parameter; the wrapping algorithm is not modelled. The same goes for the OpenAI calls (`summarize_text`, `summarize_single_chunk`), which return "" when they fail.
- `FAISS.from_documents` and `save_local` (scripts/pipeline.py:169-175) are not modelled. `Pipeline.RunPipeline` returns the documents that would be indexed.
- Printing, timestamps, `os.makedirs` and the `.env` and API-key loading are left out; they do not affect the files or the results, with one exception. The handler's message at backup/fetch_papers.py:75 reads `title`; when no title was ever bound, that read raises and the exception escapes `fetch_arxiv`. The model keeps this as the `escaped` flag of `FetchPapers.StepAll`.
- `Pipeline.RunPipeline` ignores the paper list that `fetch_semantic_scholar` returns, as the source does.
- Errors from writing or removing files are not modelled; every `open(..., "w")`, `write` and `os.remove` succeeds. A download is either its bytes or "none", a failed request or a refused status from `raise_for_status`.
- A PDF write that fails part-way is not modelled. In scripts/pipeline.py:88-89 it would leave a truncated PDF on disk. In backup/fetch_papers.py:67-71 the truncated PDF would also never be removed, and `FetchPapers.NoNewPdfs` would not hold for such a run.
- The services are modelled as functions: the same URL always downloads the same bytes, and the same text is always extracted, chunked and summarised the same way. The OpenAI calls run at temperature 0.3, so in reality two calls on the same text may answer differently. The model does not capture that: two identical chunks in backup/summarize_all_pdfs.py get the same partial summary in the model.
- `FetchPapers.FetchArxiv`: backup/fetch_papers.py repeats its whole text from line 80 on. The second copy redefines the same functions identically, so the model holds one copy. Run as a script, the file calls `fetch_arxiv()` twice; the model describes one call.
- `Evaluation.EvaluateAccuracy`: scores are real numbers, not floating-point numbers. Python returns the integer 0 for a zero denominator; the model returns 0.0.
- The default thresholds of `evaluate_accuracy` (0.4) and `evaluate_query` (0.35) are not modelled; the threshold is always an argument.
- `Evaluation.EvaluateQuery`: the elapsed time is not returned, because it comes from the clock. The retriever is a parameter; scripts/evaluation.py:27 configures it to return 5 documents.
- `Evaluation.EvaluateAnswer`: the elapsed time is a parameter. Any exception from the chain, including a missing `"result"` key, is the `Raised` outcome with its message. The cosine similarity is total, so its own exceptions are not modelled.
- `Evaluation.EvaluateAnswer`: the `max()` message on an empty iterable is the one of CPython 3.12 and later. Older versions say `max() arg is an empty sequence`.
- The module-level setup of scripts/evaluation.py (environment checks, loading the vector store, building the chain) and its `__main__` test loop are left out.
- scripts/chatbot.py, scripts/embed.py and app.py are not part of this model.
