/** The local storage the scripts share: a directory of downloaded PDFs and a
    directory of markdown files (the abstracts written by the fetchers and the
    summaries written by the summarisers live in the same one). */
module Storage {
  type Bytes = seq<bv8>

  /** `PDF_DIR` / `SAVE_PDF_DIR` and `SUMMARY_DIR` / `SAVE_MD_DIR`: two distinct
      directories, so a PDF and a markdown file never share a path. */
  datatype Dir = PdfDir | SummaryDir

  datatype Path = Path(dir: Dir, name: string)

  /** What a file holds: text written in UTF-8, or the bytes of a download. */
  datatype Content = Text(text: string) | Binary(bytes: Bytes)

  type FileSystem = map<Path, Content>

  /** `extract_text_from_pdf(path)`: the stripped text of the file's pages, or
      "" when the file cannot be opened or parsed.  `read` stands for
      pdfplumber on the file's content and already returns "" on failure; a
      path with no file raises inside the `try` and gives "" as well. */
  function ExtractText(read: Content -> string, fs: FileSystem, p: Path): (text: string)
    ensures p !in fs ==> text == ""
  {
    if p in fs then read(fs[p]) else ""
  }

  /** Two file systems agree on one path. */
  predicate SameAt(fs: FileSystem, fs': FileSystem, p: Path) {
    (p in fs <==> p in fs') && (p in fs ==> fs[p] == fs'[p])
  }
}
