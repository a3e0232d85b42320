/**
  `read_document_content`: turns an uploaded file into its text, choosing the
  reader by the lower-cased extension of the file name, and reports every
  failure as a string that begins with "Error" instead of raising.

  The foreign readers (UTF-8 decoding, pypdf, python-docx) are inputs: a
  `Readers` value says what each one yields for given bytes, and whether the
  optional libraries could be imported at start-up.
 */
module Reader {
  import opened Wrappers
  import opened Strings
  import opened PathSplit

  newtype byte = x: int | 0 <= x < 256

  /** An upload as the web framework hands it over. */
  datatype UploadedFile = UploadedFile(name: string, bytes: seq<byte>)

  /** The outcome of a foreign call: its value, or an exception with its text `str(e)`. */
  datatype Parsed<+T> = Parsed(value: T) | Failed(msg: string)

  /** What `page.extract_text()` does for one PDF page: a string, `None`, or an exception. */
  datatype PageText = Text(s: string) | NoText | Raises(msg: string)

  /**
    The foreign readers. `pdfReader` is `None` when `from pypdf import PdfReader`
    failed, `docxDocument` is `None` when `from docx import Document` failed;
    otherwise each maps the file's bytes to the pages (or paragraph texts) the
    library produces, or to the exception it raises while opening the file.
   */
  datatype Readers = Readers(
    decodeUtf8: seq<byte> -> Parsed<string>,
    pdfReader: Option<seq<byte> -> Parsed<seq<PageText>>>,
    docxDocument: Option<seq<byte> -> Parsed<seq<string>>>)

  /** The branch of the dispatch that a lower-cased extension selects. */
  datatype Format = PlainText | Pdf | Docx | Unknown

  function FormatOf(ext: string): Format {
    if ext == ".txt" || ext == ".md" then PlainText
    else if ext == ".pdf" then Pdf
    else if ext == ".docx" then Docx
    else Unknown
  }

  /** `os.path.splitext(name)[1].lower()`, then the dispatch. */
  function FileFormat(name: string): Format {
    FormatOf(Lower(Extension(name)))
  }

  /** The optional libraries. */
  datatype Library = PyPdf | PythonDocx

  /** What reading a document amounts to, before it is flattened into one string. */
  datatype Reading =
    | Loaded(text: string)
    | UnsupportedType
    | NotInstalled(library: Library)
    | ReadFailed(msg: string)

  /** The fixed messages of the failure branches. */
  const UnsupportedMessage := "Error: Unsupported file type"
  const PyPdfMissing := "Error: pypdf not installed"
  const PythonDocxMissing := "Error: python-docx not installed"
  const ReadErrorPrefix := "Error reading file: "

  /** The string `read_document_content` returns for a reading. */
  function Message(r: Reading): string {
    match r
    case Loaded(t) => t
    case UnsupportedType => UnsupportedMessage
    case NotInstalled(PyPdf) => PyPdfMissing
    case NotInstalled(PythonDocx) => PythonDocxMissing
    case ReadFailed(m) => ReadErrorPrefix + m
  }

  /** `page.extract_text() or ""` for a page that does not raise. A page that raises
      never contributes text, since `PdfReading` reports the first such page before it
      uses any text; its `""` here is only a placeholder, so that `PagesText` is total. */
  function PageString(p: PageText): string {
    match p
    case Text(s) => s
    case NoText => ""
    case Raises(_) => ""
  }

  /** The page texts, in document order, one after another. */
  function PagesText(pages: seq<PageText>): string
    decreases |pages|
  {
    if |pages| == 0 then "" else PagesText(pages[..|pages| - 1]) + PageString(pages[|pages| - 1])
  }

  /** The index of the first page whose extraction raises, or `|pages|` if none does. */
  function FirstRaising(pages: seq<PageText>): (k: nat)
    ensures k <= |pages|
    ensures k < |pages| ==> pages[k].Raises?
    ensures forall j :: 0 <= j < k ==> !pages[j].Raises?
    decreases |pages|
  {
    if |pages| == 0 then 0
    else if pages[0].Raises? then 0
    else 1 + FirstRaising(pages[1..])
  }

  /** The PDF branch once the reader has opened the file. */
  function PdfReading(pages: seq<PageText>): Reading {
    var k := FirstRaising(pages);
    if k < |pages| then ReadFailed(pages[k].msg) else Loaded(PagesText(pages))
  }

  /** What reading `file` amounts to (main.py, lines 20-46). */
  function Read(file: UploadedFile, readers: Readers): Reading {
    ReadAs(FileFormat(file.name), file.bytes, readers)
  }

  /** The branch for `format` applied to the file's bytes. */
  function ReadAs(format: Format, bytes: seq<byte>, readers: Readers): Reading {
    match format
    case PlainText =>
      (match readers.decodeUtf8(bytes)
       case Parsed(t) => Loaded(t)
       case Failed(m) => ReadFailed(m))
    case Pdf =>
      if readers.pdfReader.None? then NotInstalled(PyPdf)
      else
        (match readers.pdfReader.value(bytes)
         case Parsed(pages) => PdfReading(pages)
         case Failed(m) => ReadFailed(m))
    case Docx =>
      if readers.docxDocument.None? then NotInstalled(PythonDocx)
      else
        (match readers.docxDocument.value(bytes)
         case Parsed(paragraphs) => Loaded(Join("\n", paragraphs))
         case Failed(m) => ReadFailed(m))
    case Unknown => UnsupportedType
  }

  /** The loop over `reader.pages` (main.py, lines 31-34): the text grows by each page's
      text in turn, and the first page that raises ends the read with its message. */
  method ExtractPages(pages: seq<PageText>) returns (content: string)
    ensures content == Message(PdfReading(pages))
  {
    var text := "";
    for i := 0 to |pages|
      invariant text == PagesText(pages[..i])
      invariant forall j :: 0 <= j < i ==> !pages[j].Raises?
    {
      assert pages[..i + 1][..i] == pages[..i];
      match pages[i]
      case Raises(m) =>
        return ReadErrorPrefix + m;
      case Text(s) =>
        text := text + s;
      case NoText =>
        text := text + "";
    }
    assert pages[..|pages|] == pages;
    return text;
  }

  /** `read_document_content(uploaded_file)`. */
  method ReadDocumentContent(file: UploadedFile, readers: Readers) returns (content: string)
    ensures content == Message(Read(file, readers))
  {
    var ext := Lower(Extension(file.name));
    var format := FormatOf(ext);
    assert Read(file, readers) == ReadAs(format, file.bytes, readers);
    match format {
      case PlainText =>
        match readers.decodeUtf8(file.bytes) {
          case Parsed(t) => return t;
          case Failed(m) => return ReadErrorPrefix + m;
        }
      case Pdf =>
        if readers.pdfReader.None? {
          return PyPdfMissing;
        }
        match readers.pdfReader.value(file.bytes) {
          case Failed(m) => return ReadErrorPrefix + m;
          case Parsed(pages) => content := ExtractPages(pages);
        }
      case Docx =>
        if readers.docxDocument.None? {
          return PythonDocxMissing;
        }
        match readers.docxDocument.value(file.bytes) {
          case Failed(m) => return ReadErrorPrefix + m;
          case Parsed(paragraphs) => return Join("\n", paragraphs);
        }
      case Unknown =>
        return UnsupportedMessage;
    }
  }

  // ------------------------------------------------------------------ dispatch

  /** Names whose lower-case forms agree are read by the same branch. */
  lemma CaseInsensitiveDispatch(name1: string, name2: string)
    requires Lower(name1) == Lower(name2)
    ensures FileFormat(name1) == FileFormat(name2)
  {
    ExtensionLower(name1);
    ExtensionLower(name2);
    LowerIdempotent(Extension(name1));
    LowerIdempotent(Extension(name2));
  }

  /** A name whose final component has a non-dot character before its last dot is
      dispatched on everything from that dot on, lower-cased. */
  lemma SuffixDispatch(dir: string, stem: string, ext: string)
    requires '/' !in stem && !AllDots(stem)
    requires |ext| >= 1 && ext[0] == '.' && '.' !in ext[1..] && '/' !in ext[1..]
    ensures FileFormat(dir + stem + ext) == FormatOf(Lower(ext))
  {
    ExtensionOfSuffix(dir, stem, ext);
  }

  /** Only the last suffix counts, in any letter case: "a.b.TXT" is a text file. */
  lemma LastSuffixDispatch(dir: string, stem: string)
    requires '/' !in stem && !AllDots(stem)
    ensures FileFormat(dir + stem + ".TXT") == PlainText
  {
    var ext := ".TXT";
    assert ext[1..] == ['T', 'X', 'T'];
    SuffixDispatch(dir, stem, ext);
    LowerIs(ext, ".txt");
  }

  /** A dot-file such as ".txt" has no extension and is refused. */
  lemma DotfileUnsupported(dir: string)
    requires dir == "" || dir[|dir| - 1] == '/'
    ensures Extension(dir + ".txt") == "" && FileFormat(dir + ".txt") == Unknown
  {
    var name := ".txt";
    assert name[1..] == ['t', 'x', 't'];
    ExtensionOfDotName(dir, name);
    assert |Lower("")| == 0;
  }

  /** A name ending in a dot has the lone dot as its extension and is refused. */
  lemma TrailingDotUnsupported(dir: string, stem: string)
    requires '/' !in stem && !AllDots(stem)
    ensures Extension(dir + stem + ".") == "." && FileFormat(dir + stem + ".") == Unknown
  {
    ExtensionOfSuffix(dir, stem, ".");
  }

  /** A ".csv" upload is refused as unsupported, whatever its bytes. */
  lemma CsvUnsupported(dir: string, stem: string, bytes: seq<byte>, readers: Readers)
    requires '/' !in stem && !AllDots(stem)
    ensures Message(Read(UploadedFile(dir + stem + ".csv", bytes), readers)) == UnsupportedMessage
  {
    var ext := ".csv";
    assert ext[1..] == ['c', 's', 'v'];
    SuffixDispatch(dir, stem, ext);
    CsvFormat();
  }

  lemma CsvFormat()
    ensures FormatOf(Lower(".csv")) == Unknown
  {
    var ext := ".csv";
    LowerIs(ext, ext);
    assert ext[1] != ".txt"[1] && ext[1] != ".pdf"[1];
  }

  /** Exactly the extensions outside {.txt, .md, .pdf, .docx} (after lowering) are
      refused, with one fixed message. */
  lemma UnsupportedIff(file: UploadedFile, readers: Readers)
    ensures Read(file, readers) == UnsupportedType
        <==> Lower(Extension(file.name)) !in {".txt", ".md", ".pdf", ".docx"}
    ensures Read(file, readers) == UnsupportedType
        ==> Message(Read(file, readers)) == "Error: Unsupported file type"
  {
  }

  /** Without pypdf a PDF gives its own error, whatever its bytes. */
  lemma PdfWithoutLibrary(name: string, bytes: seq<byte>, readers: Readers)
    requires FileFormat(name) == Pdf && readers.pdfReader.None?
    ensures Message(Read(UploadedFile(name, bytes), readers)) == "Error: pypdf not installed"
  {
  }

  /** Without python-docx a DOCX gives its own error, whatever its bytes. */
  lemma DocxWithoutLibrary(name: string, bytes: seq<byte>, readers: Readers)
    requires FileFormat(name) == Docx && readers.docxDocument.None?
    ensures Message(Read(UploadedFile(name, bytes), readers))
         == "Error: python-docx not installed"
  {
  }

  // ------------------------------------------------------------------ PDF

  /** The concatenation of exactly one page after another. */
  lemma {:induction false} PagesTextAppend(a: seq<PageText>, b: seq<PageText>)
    ensures PagesText(a + b) == PagesText(a) + PagesText(b)
    decreases |b|
  {
    if |b| > 0 {
      var b' := b[..|b| - 1];
      assert (a + b)[..|a + b| - 1] == a + b';
      PagesTextAppend(a, b');
    } else {
      assert a + b == a;
    }
  }

  /** The PDF text is as long as all page texts together. */
  lemma {:induction false} PagesTextLength(pages: seq<PageText>)
    ensures |PagesText(pages)| == PageLengths(pages)
    decreases |pages|
  {
    if |pages| > 0 {
      PagesTextLength(pages[..|pages| - 1]);
    }
  }

  function PageLengths(pages: seq<PageText>): nat
    decreases |pages|
  {
    if |pages| == 0 then 0 else PageLengths(pages[..|pages| - 1]) + |PageString(pages[|pages| - 1])|
  }

  /** Page `i`'s text sits in the PDF text between the texts of the pages before it
      and those of the pages after it. */
  lemma PageTextInPlace(pages: seq<PageText>, i: nat)
    requires i < |pages|
    ensures PagesText(pages)
         == PagesText(pages[..i]) + PageString(pages[i]) + PagesText(pages[i + 1..])
  {
    var before, after := pages[..i + 1], pages[i + 1..];
    assert pages == before + after;
    PagesTextAppend(before, after);
    assert before[..i] == pages[..i];
    assert PagesText(before) == PagesText(pages[..i]) + PageString(pages[i]);
  }

  /** Pages with no text contribute nothing: no pages, or only empty ones, read as "". */
  lemma EmptyPagesReadEmpty(pages: seq<PageText>)
    requires forall i :: 0 <= i < |pages| ==> pages[i].NoText? || pages[i] == Text("")
    ensures PdfReading(pages) == Loaded("")
  {
    PagesTextLength(pages);
    ZeroLengths(pages);
  }

  lemma {:induction false} ZeroLengths(pages: seq<PageText>)
    requires forall i :: 0 <= i < |pages| ==> pages[i].NoText? || pages[i] == Text("")
    ensures PageLengths(pages) == 0 && FirstRaising(pages) == |pages|
    decreases |pages|
  {
    if |pages| > 0 {
      ZeroLengths(pages[..|pages| - 1]);
    }
  }

  /** A page that raises makes the whole PDF a read error carrying the first such message. */
  lemma RaisingPageFails(pages: seq<PageText>, i: nat)
    requires i < |pages| && pages[i].Raises?
    requires forall j :: 0 <= j < i ==> !pages[j].Raises?
    ensures PdfReading(pages) == ReadFailed(pages[i].msg)
  {
    var k := FirstRaising(pages);
    assert k < |pages| ==> pages[k].Raises?;
  }

  /** The same for a whole upload: a PDF whose pages open but one of them raises on
      `extract_text()` reads as "Error reading file: " and the first such message. */
  lemma RaisingPageReported(file: UploadedFile, readers: Readers, pages: seq<PageText>, i: nat)
    requires FileFormat(file.name) == Pdf && readers.pdfReader.Some?
    requires readers.pdfReader.value(file.bytes) == Parsed(pages)
    requires i < |pages| && pages[i].Raises?
    requires forall j :: 0 <= j < i ==> !pages[j].Raises?
    ensures Message(Read(file, readers)) == "Error reading file: " + pages[i].msg
  {
    RaisingPageFails(pages, i);
    assert Read(file, readers) == ReadFailed(pages[i].msg);
  }

  // ------------------------------------------------------------------ DOCX

  /** The DOCX text holds the paragraphs in order, separated by single newlines: it
      splits back into them when none contains a newline itself, and has
      length (sum of paragraph lengths) + n - 1. */
  lemma DocxTextIsJoinedParagraphs(name: string, bytes: seq<byte>, readers: Readers,
                                   paragraphs: seq<string>)
    requires FileFormat(name) == Docx && readers.docxDocument.Some?
    requires readers.docxDocument.value(bytes) == Parsed(paragraphs)
    requires |paragraphs| >= 1
    requires forall i :: 0 <= i < |paragraphs| ==> '\n' !in paragraphs[i]
    ensures Read(UploadedFile(name, bytes), readers).Loaded?
    ensures Split(Read(UploadedFile(name, bytes), readers).text, '\n') == paragraphs
    ensures |Read(UploadedFile(name, bytes), readers).text| == TotalLength(paragraphs) + |paragraphs| - 1
  {
    SplitJoin('\n', paragraphs);
    DocxTextLength(name, bytes, readers, paragraphs);
  }

  /** Whatever the paragraphs hold, the DOCX text is as long as they are together,
      plus one newline between each two. */
  lemma DocxTextLength(name: string, bytes: seq<byte>, readers: Readers,
                       paragraphs: seq<string>)
    requires FileFormat(name) == Docx && readers.docxDocument.Some?
    requires readers.docxDocument.value(bytes) == Parsed(paragraphs)
    requires |paragraphs| >= 1
    ensures Read(UploadedFile(name, bytes), readers).Loaded?
    ensures |Read(UploadedFile(name, bytes), readers).text| == TotalLength(paragraphs) + |paragraphs| - 1
  {
    JoinLength('\n', paragraphs);
  }

  /** A document with no paragraphs reads as "". */
  lemma EmptyDocxReadsEmpty(name: string, bytes: seq<byte>, readers: Readers)
    requires FileFormat(name) == Docx && readers.docxDocument.Some?
    requires readers.docxDocument.value(bytes) == Parsed([])
    ensures Read(UploadedFile(name, bytes), readers) == Loaded("")
  {
  }

  // ------------------------------------------------------------------ errors

  /** Every failure is reported as a string that starts with "Error". */
  lemma FailuresStartWithError(r: Reading)
    requires !r.Loaded?
    ensures StartsWith(Message(r), "Error")
  {
    if r.ReadFailed? {
      assert Message(r)[..5] == ReadErrorPrefix[..5];
    }
  }

  /** A ".txt" or ".md" file reads as its decoded text. */
  lemma PlainTextIsDecoded(file: UploadedFile, readers: Readers, t: string)
    requires FileFormat(file.name) == PlainText && readers.decodeUtf8(file.bytes) == Parsed(t)
    ensures Message(Read(file, readers)) == t
  {
  }

  /** A parser exception is reported as "Error reading file: " and its message. */
  lemma ParserExceptionReported(file: UploadedFile, readers: Readers, m: string)
    requires FileFormat(file.name) == PlainText && readers.decodeUtf8(file.bytes) == Failed(m)
    ensures Message(Read(file, readers)) == "Error reading file: " + m
  {
    assert Read(file, readers) == ReadFailed(m);
  }

  /** A PDF that pypdf cannot open is reported as "Error reading file: " and the
      exception's message. */
  lemma PdfOpenFailureReported(file: UploadedFile, readers: Readers, m: string)
    requires FileFormat(file.name) == Pdf && readers.pdfReader.Some?
    requires readers.pdfReader.value(file.bytes) == Failed(m)
    ensures Message(Read(file, readers)) == "Error reading file: " + m
  {
    assert Read(file, readers) == ReadFailed(m);
  }

  /** A DOCX that python-docx cannot open is reported as "Error reading file: " and
      the exception's message. */
  lemma DocxOpenFailureReported(file: UploadedFile, readers: Readers, m: string)
    requires FileFormat(file.name) == Docx && readers.docxDocument.Some?
    requires readers.docxDocument.value(file.bytes) == Failed(m)
    ensures Message(Read(file, readers)) == "Error reading file: " + m
  {
    assert Read(file, readers) == ReadFailed(m);
  }
}
