# Document question answering: reader, caller guards and prompt

A Dafny model of the text pipeline of a small Streamlit application (`main.py`)
that answers questions about an uploaded document with a hosted language model.
The model covers the three parts of the script that have an exact answer for any input:

1. `read_document_content`: the file name's extension, as `os.path.splitext`
   computes it and lower-cased, selects one of four branches (`.txt`/`.md`,
   `.pdf`, `.docx`, anything else). Text files are decoded, PDF page texts are
   concatenated in order (a page without text adds `""`), DOCX paragraph texts
   are joined with `"\n"`. Every failure becomes a string that starts with
   `"Error"`, and exceptions are never raised past the function.
2. The caller: a result that starts with `"Error"` is refused and leaves
   `doc_text` as it was. Any other result replaces `doc_text`. A `doc_text`
   that is empty or only whitespace stops the script before a question can be asked.
3. The prompt: a blank question is refused before anything is built.
   Otherwise the document is cut to its first 12000 characters and placed,
   with the question, into a fixed template. The template holds a role line,
   an instruction to reply with the exact sentence
   "I cannot find the answer in the provided document.", a `DOCUMENT:` section
   and a `QUESTION:` section, in that order.

Files:

- `wrappers.dfy`: `Option`.
- `strings.dfy` (module `Strings`): the Python `str` operations used:
  `startswith`, `isspace` and `strip`, `lower` on ASCII letters, and
  `sep.join` with its inverse `split`.
- `splitext.dfy` (module `PathSplit`): the extension half of POSIX `os.path.splitext`.
- `reader.dfy` (module `Reader`): `read_document_content`.
  - `Read` is the specification: it gives a structured `Reading`, and `Message` turns that into the returned string.
  - `ReadDocumentContent` is the method, and `ExtractPages` is its loop over the PDF pages. Both are proved against `Read`.
- `prompt.dfy` (module `Prompt`): the truncation and the f-string template, as pure functions.
- `session.dfy` (module `App`): `Session`, a class that holds the two session
  fields `docText` and `answer`. Its methods are the upload step, the
  document guard, the guarded model call, and one whole run of the script.

The foreign libraries are inputs, described by a `Readers` value:

- UTF-8 decoding is a function from bytes to a string or an exception message.
- pypdf is `None` when its import failed. Otherwise it is a function from bytes to the pages, or to an exception.
  - Each page's `extract_text()` gives a string, `None`, or an exception.
- python-docx is `None` when its import failed. Otherwise it is a function from bytes to the paragraph texts, or to an exception.
- The language model is a function `generate` from a prompt to the response text.

Every function is deterministic. In particular, the prompt depends only on `(doc_text, question)`.

Three facts about `main.py` shape the prompt model:

- The document text is not whitespace-normalised before it is cut.
- The cut keeps the first 12000 characters.
- The prompt is a single string.

## Model

| member | source | states |
|---|---|---|
| PathSplit.LastIndexOf | main.py:21 | `str.rfind` on one character, as `splitext` uses it for `/` and `.`: the last index holding it, or -1; always between -1 and the last index |
| PathSplit.LastIndexOfSpec | main.py:21 | `rfind`: the result is -1 or an index holding the character, and no later index holds it |
| PathSplit.LeadingDots | main.py:21 | the number of dots a final path component starts with, which `splitext` skips before looking for an extension; never more than its length |
| PathSplit.LeadingDotsSpec | main.py:21 | the leading dots of a path component are exactly its first `LeadingDots` characters, and the next one is not a dot |
| PathSplit.Extension | main.py:21 | `os.path.splitext(p)[1]` for POSIX paths: from the last `.` on when the final component has a non-dot character before that dot, otherwise `""`; never longer than the path |
| PathSplit.ExtensionShape | main.py:21 | the extension is `""` or a suffix of the name starting with `.`, with no further `.` or `/` in it (only the last suffix counts) |
| PathSplit.ExtensionOfSuffix | main.py:21 | for a final component with a non-dot character before its last dot, the extension is everything from that dot on. For example `"a.b.TXT"` gives `".TXT"` and `"foo."` gives `"."` |
| PathSplit.ExtensionOfDotfile | main.py:21 | a final component made of leading dots and a dot-free rest has no extension: `".txt"`, `"README"`, `"..."` |
| PathSplit.ExtensionLower | main.py:21 | taking the extension commutes with lower-casing |
| Strings.StartsWith | main.py:87 | `s.startswith(prefix)`: `prefix` is no longer than `s` and equals its first characters |
| Strings.Strip | main.py:98 | `s.strip()`: `rstrip` applied after `lstrip`, so both whitespace ends are removed |
| Strings.Lower | main.py:21 | `s.lower()` on ASCII: the same length, each `A`-`Z` mapped to its lower-case letter, every other character kept |
| Strings.Join | main.py:40 | `sep.join(parts)`: `""` for no parts, the part itself for one, otherwise the parts in order with `sep` between each two |
| Strings.TrimStart | main.py:98 | `lstrip`: removes exactly the longest all-whitespace prefix |
| Strings.TrimEnd | main.py:98 | `rstrip`: removes exactly the longest all-whitespace suffix |
| Strings.IsBlank | main.py:98 | `not s.strip()` holds iff every character is whitespace |
| Strings.JoinLength | main.py:40 | joining n ≥ 1 parts with one character inserts exactly n-1 separators |
| Strings.SplitJoin | main.py:40 | splitting the joined text on `"\n"` gives back the parts when none contains `"\n"` |
| Strings.JoinSplit | main.py:40 | joining the pieces of any split restores the string, so join and split are inverses |
| Reader.FormatOf | main.py:24-43 | the `if`/`elif` chain on the lower-cased extension: `.txt` or `.md` is text, `.pdf` is PDF, `.docx` is DOCX, anything else is unsupported |
| Reader.FileFormat | main.py:21-43 | the branch for a file name: its extension, lower-cased, is `.txt` or `.md` (text), `.pdf`, `.docx`, or anything else (unsupported) |
| Reader.Message | main.py:20-46 | the returned string for each reading: the text itself, `"Error: Unsupported file type"`, `"Error: pypdf not installed"`, `"Error: python-docx not installed"`, or `"Error reading file: "` followed by the exception message |
| Reader.Read | main.py:20-46 | the reading of an upload: the branch chosen by `FileFormat` applied to its bytes |
| Reader.ReadAs | main.py:23-46 | one branch: decode the bytes, or open them with pypdf or python-docx when the library is present, and turn each exception into `ReadFailed` with its message |
| Reader.PageString | main.py:33 | `page.extract_text() or ""`: the page's text, or `""` when it has none |
| Reader.PagesText | main.py:31-34 | the page texts concatenated in document order, a page without text adding `""` |
| Reader.PdfReading | main.py:31-34 | the PDF branch after the file is open: a read error with the first raising page's message, otherwise the concatenated page texts |
| Reader.FirstRaising | main.py:32-33 | the first page whose extraction raises: every earlier page does not raise |
| Reader.ReadDocumentContent | main.py:20-46 | returns exactly `Message(Read(file, readers))` |
| Reader.ExtractPages | main.py:31-34 | the page loop returns `Message(PdfReading(pages))`. It keeps the text equal to the concatenation of the pages seen so far, and the first page that raises ends it with that page's message |
| Reader.CaseInsensitiveDispatch | main.py:21-24 | names with equal lower-case forms go to the same branch |
| Reader.SuffixDispatch | main.py:21-43 | a name whose final component has a non-dot character before its last dot is dispatched on that last suffix, lower-cased |
| Reader.LastSuffixDispatch | main.py:21-24 | any name ending in `.TXT` after a stem with a non-dot character (such as `"a.b.TXT"`) is read as a text file |
| Reader.DotfileUnsupported | main.py:21-43 | a final component `".txt"`, in any directory, has extension `""` and is unsupported |
| Reader.TrailingDotUnsupported | main.py:21-43 | a name ending in a dot after a stem with a non-dot character (such as `"foo."`) has extension `"."` and is unsupported |
| Reader.CsvUnsupported | main.py:42-43 | a `.csv` upload yields `"Error: Unsupported file type"` whatever its bytes and readers |
| Reader.UnsupportedIff | main.py:42-43 | the result is "unsupported" iff the lower-cased extension is not one of `.txt`, `.md`, `.pdf`, `.docx`, and then the message is `"Error: Unsupported file type"` |
| Reader.PdfWithoutLibrary | main.py:27-29 | a PDF without pypdf yields `"Error: pypdf not installed"` for all bytes |
| Reader.DocxWithoutLibrary | main.py:36-38 | a DOCX without python-docx yields `"Error: python-docx not installed"` for all bytes |
| Reader.PlainTextIsDecoded | main.py:24-25 | a `.txt`/`.md` file reads as its decoded text |
| Reader.PagesTextAppend | main.py:31-34 | the PDF text of two runs of pages is the text of the first followed by that of the second |
| Reader.PagesTextLength | main.py:31-34 | the PDF text is as long as all page texts together |
| Reader.PageTextInPlace | main.py:31-34 | page i's text sits between the texts of the pages before and after it |
| Reader.EmptyPagesReadEmpty | main.py:31-34 | zero pages, or only pages without text, read successfully as `""` |
| Reader.RaisingPageFails | main.py:31-34 | the first page whose extraction raises makes the PDF reading a read error with that page's message |
| Reader.RaisingPageReported | main.py:30-46 | for an opened PDF whose page raises, the whole read returns `"Error reading file: "` followed by the first such message |
| Reader.DocxTextLength | main.py:39-40 | for any n ≥ 1 paragraphs, the DOCX text is as long as the paragraphs together plus n-1 newlines |
| Reader.DocxTextIsJoinedParagraphs | main.py:39-40 | the DOCX text splits on `"\n"` back into its paragraphs, and its length is the sum of their lengths plus n-1 |
| Reader.EmptyDocxReadsEmpty | main.py:40 | a document with no paragraphs reads as `""` |
| Reader.FailuresStartWithError | main.py:23-46 | every failure message starts with `"Error"` |
| Reader.ParserExceptionReported | main.py:45-46 | a decoding exception is reported as `"Error reading file: "` followed by its message |
| Reader.PdfOpenFailureReported | main.py:30-46 | a PDF that pypdf fails to open returns `"Error reading file: "` followed by the exception message |
| Reader.DocxOpenFailureReported | main.py:39-46 | a DOCX that python-docx fails to open returns `"Error reading file: "` followed by the exception message |
| Prompt.Render | main.py:121-133 | the f-string: role line and instruction, the quoted refusal sentence, `DOCUMENT:` and the context, `QUESTION:` and the question, each part on its own lines |
| Prompt.Context | main.py:119 | the context is a prefix of the document, at most 12000 characters; the whole document when it is shorter, exactly 12000 characters when it is longer |
| Prompt.Compose | main.py:112-133 | no prompt iff the question is all whitespace |
| Prompt.RenderLayout | main.py:121-133 | the prompt holds the role and instruction text, the refusal sentence, `DOCUMENT:`, the context, `QUESTION:` and the question, at increasing fixed offsets |
| Prompt.RenderSeparators | main.py:121-133 | between and after those parts stand only the template's quotes and line breaks, so the prompt holds nothing else |
| Prompt.ComposeLayout | main.py:112-133 | a composed prompt embeds `doc_text[:12000]` and the question in that layout, and its length is bounded by the template, 12000 and the question |
| Prompt.BlankQuestionsRefused | main.py:112-113 | `""` and `"   "` as questions give no prompt |
| Prompt.ShortDocumentPrompt | main.py:119-133 | a short document and its question appear verbatim after the refusal sentence, in order |
| App.IsErrorText | main.py:87 | the caller's test for a failed read: the content starts with `"Error"` |
| App.Session.HasDocument | main.py:98 | the session holds a usable document: `doc_text.strip()` is not empty |
| App.Session.constructor | main.py:71-75 | both session fields start as `""`, so there is no document yet |
| App.Session.Load | main.py:87-91 | a result starting with `"Error"` is refused and leaves `doc_text` unchanged; any other result replaces it exactly; `answer` is untouched |
| App.Session.Ask | main.py:111-136 | a blank question changes nothing; otherwise the prompt is `Compose(doc_text, question)` and `answer` becomes the model's response to it |
| App.Session.Rerun | main.py:84-136 | one run: the run stops with `LoadFailed` exactly when the upload is read and refused, and then the state is unchanged; an accepted reading becomes `doc_text`; no usable document means no prompt; the model is only called with a loaded document, the button pressed and a non-blank question |
| App.RejectedIff | main.py:87 | the caller refuses a reading iff it is a failure or its text starts with `"Error"` |
| App.ErrorLookingTextRefused | main.py:84-91 | a `.txt` whose decoded text starts with `"Error"` is read successfully but refused |
| App.BlankPdfLeavesNoDocument | main.py:84-100 | a PDF with one empty page reads as `""`, is not refused, and leaves no usable document |

## Left out

- Streamlit calls are not modelled: page set-up, titles, widgets, spinner, banners and `st.stop`. They are presentation. `Session.Rerun` models `st.stop` as an early return.
- The 2000-character preview (main.py:95) and the display of the answer (main.py:140-142) are display only.
- The `google.generativeai` client and its configuration are not modelled. The model is the parameter `generate`, and a failing call is not modelled.
- Reading `API_KEY` from the environment, and stopping at start-up without it, is environment I/O.
- The internals of pypdf, python-docx, UTF-8 decoding and `BytesIO` are foreign libraries. Their results are inputs.
- The upload widget's extension filter (main.py:81) is enforced by the framework. `read_document_content` is modelled for every name.
- PathSplit.Extension: models POSIX paths (separator `/`). The Windows rules, with `\`, `/` and drive letters, are not modelled.
- Strings.Lower: lower-cases ASCII letters only and keeps every other character. Python's `str.lower` also changes non-ASCII letters. This cannot change which branch is taken, because no non-ASCII character lowercases to a string of the ASCII letters in `txt`, `md`, `pdf` or `docx`.
- App.Session.Ask: requires a loaded document, because the script only reaches the button after the document guard (main.py:98-100). `Session.Rerun` performs that guard.
- Reader.DocxTextIsJoinedParagraphs: the round trip (not the length, see `DocxTextLength`) holds only for paragraphs without `"\n"`. python-docx may give paragraph texts that contain line breaks, and then the join loses the paragraph boundaries.
