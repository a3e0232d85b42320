/**
  The script around the reader and the prompt (main.py, lines 70-136): two
  session fields, `doc_text` and `answer`, that survive between reruns, the
  caller's test for a failed read, the guard that asks for a document, and the
  guarded call of the language model. The model itself is a parameter
  `generate` that maps a prompt to the response text.
 */
module App {
  import opened Wrappers
  import opened Strings
  import opened Reader
  import opened Prompt

  /** `content.startswith("Error")`: how the caller recognises a failed read. */
  predicate IsErrorText(content: string) {
    StartsWith(content, "Error")
  }

  /** Where one rerun of the script ends. */
  datatype RunOutcome =
    | LoadFailed(message: string)   // the read failed: its message is shown, the run stops
    | NoDocument                    // no usable document yet: the run stops
    | Waiting                       // a document is loaded, the button was not pressed
    | QuestionMissing               // the button was pressed with a blank question
    | Answered(prompt: string)      // the model was called with this prompt

  /** `st.session_state` as far as the application uses it. */
  class Session {
    var docText: string
    var answer: string

    /** The first run sets both fields to "". */
    constructor ()
      ensures docText == "" && answer == ""
      ensures !HasDocument()
    {
      docText := "";
      answer := "";
    }

    /** `st.session_state.doc_text.strip()` is non-empty. */
    predicate HasDocument()
      reads this
    {
      !IsBlank(docText)
    }

    /** The result of reading an upload: refused when it starts with "Error", otherwise
        it replaces the document text. */
    method Load(content: string) returns (accepted: bool)
      modifies this
      ensures accepted <==> !IsErrorText(content)
      ensures docText == (if accepted then content else old(docText))
      ensures answer == old(answer)
    {
      if IsErrorText(content) {
        return false;
      }
      docText := content;
      return true;
    }

    /** The "Get Answer" button with a document loaded: a blank question is refused and
        nothing changes; otherwise the prompt is built from the document and the
        question and the model's response becomes the answer. */
    method Ask(question: string, generate: string -> string) returns (prompt: Option<string>)
      requires HasDocument()
      modifies this
      ensures prompt == Compose(docText, question)
      ensures prompt.None? <==> IsBlank(question)
      ensures docText == old(docText)
      ensures answer == (if prompt.Some? then generate(prompt.value) else old(answer))
    {
      if IsBlank(question) {
        return None;
      }
      var documentContext := Context(docText);
      var p := Render(documentContext, question);
      answer := generate(p);
      return Some(p);
    }

    /** One run of the script: read the upload if there is one, stop on a failed read,
        stop while there is no usable document, and answer when the button was pressed. */
    method Rerun(upload: Option<UploadedFile>, readers: Readers, pressed: bool,
                 question: string, generate: string -> string)
      returns (outcome: RunOutcome)
      modifies this
      ensures upload.Some? && IsErrorText(Message(Read(upload.value, readers))) ==>
        && outcome == LoadFailed(Message(Read(upload.value, readers)))
        && docText == old(docText) && answer == old(answer)
      ensures outcome.LoadFailed? ==> upload.Some? && IsErrorText(Message(Read(upload.value, readers)))
      ensures !outcome.LoadFailed? ==>
        docText == (if upload.Some? then Message(Read(upload.value, readers)) else old(docText))
      ensures !outcome.LoadFailed? ==> (outcome == NoDocument <==> !HasDocument())
      ensures outcome == Waiting ==> HasDocument() && !pressed
      ensures outcome == QuestionMissing ==> HasDocument() && pressed && IsBlank(question)
      ensures outcome.Answered? ==>
        && HasDocument() && pressed && !IsBlank(question)
        && Compose(docText, question) == Some(outcome.prompt)
        && answer == generate(outcome.prompt)
      ensures !outcome.Answered? ==> answer == old(answer)
    {
      if upload.Some? {
        var content := ReadDocumentContent(upload.value, readers);
        var accepted := Load(content);
        if !accepted {
          return LoadFailed(content);
        }
      }
      if !HasDocument() {
        return NoDocument;
      }
      if !pressed {
        return Waiting;
      }
      var prompt := Ask(question, generate);
      if prompt.None? {
        return QuestionMissing;
      }
      return Answered(prompt.value);
    }
  }

  /** The caller refuses exactly the failures and the texts that happen to start with
      "Error". */
  lemma RejectedIff(r: Reading)
    ensures IsErrorText(Message(r)) <==> (!r.Loaded? || IsErrorText(r.text))
  {
    if !r.Loaded? {
      FailuresStartWithError(r);
    }
  }

  /** A text file that was read without error but whose text starts with "Error" is
      refused all the same. */
  lemma ErrorLookingTextRefused(name: string, bytes: seq<byte>, readers: Readers, t: string)
    requires FileFormat(name) == PlainText && readers.decodeUtf8(bytes) == Parsed(t)
    requires IsErrorText(t)
    ensures Read(UploadedFile(name, bytes), readers) == Loaded(t)
    ensures IsErrorText(Message(Read(UploadedFile(name, bytes), readers)))
  {
  }

  /** A PDF whose one page has no text is read successfully as "", is not
      refused, and still leaves the session without a usable document. */
  lemma BlankPdfLeavesNoDocument(name: string, bytes: seq<byte>, readers: Readers)
    requires FileFormat(name) == Pdf && readers.pdfReader.Some?
    requires readers.pdfReader.value(bytes) == Parsed([Text("")])
    ensures Read(UploadedFile(name, bytes), readers) == Loaded("")
    ensures !IsErrorText(Message(Read(UploadedFile(name, bytes), readers)))
    ensures IsBlank(Message(Read(UploadedFile(name, bytes), readers)))
  {
    EmptyPagesReadEmpty([Text("")]);
  }
}
