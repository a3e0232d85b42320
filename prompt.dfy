/**
  The prompt sent to the language model (main.py, lines 111-133): the question
  must not be blank; the document is cut to a raw prefix of at most 12000
  characters; the prefix and the question are placed into a fixed template
  after a role line and an instruction to answer with one exact refusal
  sentence when the document does not hold the answer.
 */
module Prompt {
  import opened Wrappers
  import opened Strings

  /** The number of document characters a prompt may carry. */
  const MaxContext := 12000

  /** The sentence the model is told to reply with when the answer is absent. */
  const Refusal := "I cannot find the answer in the provided document."

  /** The f-string's text up to the quoted refusal sentence. */
  const Intro := "\nYou are a strict RAG system.\n\nAnswer ONLY using the document below.\nIf the answer is not present, reply exactly:\n"

  const DocumentHeading := "DOCUMENT:"
  const QuestionHeading := "QUESTION:"

  /** Where each part of the template starts, for a context of length `n`. */
  const RefusalAt := |Intro| + 1
  const DocumentAt := RefusalAt + |Refusal| + 3
  const ContextAt := DocumentAt + |DocumentHeading| + 1
  function QuestionHeadingAt(n: nat): nat { ContextAt + n + 2 }
  function QuestionAt(n: nat): nat { QuestionHeadingAt(n) + |QuestionHeading| + 1 }

  predicate OccursAt(s: string, part: string, i: nat) {
    i + |part| <= |s| && s[i..i + |part|] == part
  }

  /** `doc_text[:12000]` */
  function Context(docText: string): (ctx: string)
    ensures |ctx| <= MaxContext && |ctx| <= |docText|
    ensures ctx == docText[..|ctx|]
    ensures |docText| <= MaxContext ==> ctx == docText
    ensures |docText| > MaxContext ==> |ctx| == MaxContext
  {
    if |docText| <= MaxContext then docText else docText[..MaxContext]
  }

  /** The f-string of main.py, lines 121-133, with the context and the question filled in. */
  function Render(ctx: string, question: string): string {
    Intro + "\"" + Refusal + "\"\n\n" + DocumentHeading + "\n" + ctx + "\n\n"
      + QuestionHeading + "\n" + question + "\n"
  }

  /** The prompt for a question about `docText`, or `None` when the question is blank
      (main.py, line 112): in that case nothing is built and no model is called. */
  function Compose(docText: string, question: string): (prompt: Option<string>)
    ensures prompt.None? <==> forall i :: 0 <= i < |question| ==> IsSpace(question[i])
  {
    if IsBlank(question) then None else Some(Render(Context(docText), question))
  }

  /** The rendered prompt holds, in this order and nowhere overlapping: the role and
      instruction text, the refusal sentence, the DOCUMENT heading, the context, the
      QUESTION heading and the question (the separators are in `RenderSeparators`). */
  lemma RenderLayout(ctx: string, question: string)
    ensures var p := Render(ctx, question);
      && OccursAt(p, Intro, 0)
      && OccursAt(p, Refusal, RefusalAt)
      && OccursAt(p, DocumentHeading, DocumentAt)
      && OccursAt(p, ctx, ContextAt)
      && OccursAt(p, QuestionHeading, QuestionHeadingAt(|ctx|))
      && OccursAt(p, question, QuestionAt(|ctx|))
      && |p| == QuestionAt(|ctx|) + |question| + 1
  {
    TemplateLayout(Intro, Refusal, DocumentHeading, ctx, QuestionHeading, question);
  }

  /** Between and after those parts the prompt holds only the template's own quotes and
      line breaks. */
  lemma RenderSeparators(ctx: string, question: string)
    ensures var p := Render(ctx, question);
      && OccursAt(p, "\"", |Intro|)
      && OccursAt(p, "\"\n\n", RefusalAt + |Refusal|)
      && OccursAt(p, "\n", DocumentAt + |DocumentHeading|)
      && OccursAt(p, "\n\n", ContextAt + |ctx|)
      && OccursAt(p, "\n", QuestionHeadingAt(|ctx|) + |QuestionHeading|)
      && OccursAt(p, "\n", QuestionAt(|ctx|) + |question|)
  {
    TemplateLayout(Intro, Refusal, DocumentHeading, ctx, QuestionHeading, question);
  }

  /** The layout of the template for any fixed parts, so that the proof does not
      depend on the text of the constants. */
  lemma TemplateLayout(intro: string, refusal: string, docHeading: string, ctx: string,
                       questionHeading: string, question: string)
    ensures var p := intro + "\"" + refusal + "\"\n\n" + docHeading + "\n" + ctx + "\n\n"
                     + questionHeading + "\n" + question + "\n";
      var ctxAt := |intro| + |refusal| + |docHeading| + 5;
      var questionAt := ctxAt + |ctx| + |questionHeading| + 3;
      && OccursAt(p, intro, 0)
      && OccursAt(p, refusal, |intro| + 1)
      && OccursAt(p, docHeading, |intro| + |refusal| + 4)
      && OccursAt(p, ctx, ctxAt)
      && OccursAt(p, questionHeading, ctxAt + |ctx| + 2)
      && OccursAt(p, question, questionAt)
      && |p| == questionAt + |question| + 1
      && OccursAt(p, "\"", |intro|)
      && OccursAt(p, "\"\n\n", |intro| + 1 + |refusal|)
      && OccursAt(p, "\n", |intro| + |refusal| + 4 + |docHeading|)
      && OccursAt(p, "\n\n", ctxAt + |ctx|)
      && OccursAt(p, "\n", ctxAt + |ctx| + 2 + |questionHeading|)
      && OccursAt(p, "\n", questionAt + |question|)
  {
    var a := intro + "\"";
    var b := a + refusal;
    var c := b + "\"\n\n";
    var d := c + docHeading;
    var e := d + "\n";
    var f := e + ctx;
    var g := f + "\n\n";
    var h := g + questionHeading;
    var k := h + "\n";
    var l := k + question;
    var p := l + "\n";
    PrefixOfAppend(l, "\n");
    PrefixOfAppend(k, question);
    PrefixOfAppend(h, "\n");
    PrefixOfAppend(g, questionHeading);
    PrefixOfAppend(f, "\n\n");
    PrefixOfAppend(e, ctx);
    PrefixOfAppend(d, "\n");
    PrefixOfAppend(c, docHeading);
    PrefixOfAppend(b, "\"\n\n");
    PrefixOfAppend(a, refusal);
    PrefixOfAppend(intro, "\"");
    assert p[|k|..|l|] == question by { assert p[..|l|] == l; }
    assert p[|g|..|h|] == questionHeading by { assert p[..|h|] == h; }
    assert p[|e|..|f|] == ctx by { assert p[..|f|] == f; }
    assert p[|c|..|d|] == docHeading by { assert p[..|d|] == d; }
    assert p[|a|..|b|] == refusal by { assert p[..|b|] == b; }
    assert p[..|intro|] == intro by { assert p[..|a|] == a; }
    assert p[|l|..] == "\n";
    assert p[|k| - 1..|k|] == "\n" by { assert p[..|k|] == k; }
    assert p[|f|..|g|] == "\n\n" by { assert p[..|g|] == g; }
    assert p[|d|..|e|] == "\n" by { assert p[..|e|] == e; }
    assert p[|b|..|c|] == "\"\n\n" by { assert p[..|c|] == c; }
    assert p[|intro|..|a|] == "\"" by { assert p[..|a|] == a; }
  }

  /** Extending a string keeps it as a prefix, and keeps each of its own prefixes. */
  lemma PrefixOfAppend(x: string, y: string)
    ensures (x + y)[..|x|] == x
    ensures forall n :: 0 <= n <= |x| ==> (x + y)[..n] == x[..n]
  {
  }

  /** A composed prompt carries the text's bounded prefix and the question, after the
      refusal instruction, and is at most 12000 characters plus the question longer
      than the template itself. */
  lemma ComposeLayout(docText: string, question: string)
    requires !IsBlank(question)
    ensures Compose(docText, question).Some?
    ensures var p := Compose(docText, question).value;
      var ctx := docText[..if |docText| <= MaxContext then |docText| else MaxContext];
      && OccursAt(p, Refusal, RefusalAt)
      && OccursAt(p, DocumentHeading, DocumentAt)
      && OccursAt(p, ctx, ContextAt)
      && OccursAt(p, QuestionHeading, QuestionHeadingAt(|ctx|))
      && OccursAt(p, question, QuestionAt(|ctx|))
      && |p| <= QuestionAt(MaxContext) + |question| + 1
  {
    RenderLayout(Context(docText), question);
  }

  /** The empty question and a question of spaces are both refused. */
  lemma BlankQuestionsRefused(docText: string)
    ensures Compose(docText, "") == None
    ensures Compose(docText, "   ") == None
  {
    var spaces := "   ";
    assert IsSpace(spaces[0]) && IsSpace(spaces[1]) && IsSpace(spaces[2]);
  }

  /** A short document and a question appear verbatim, after the refusal
      instruction, in this order. */
  lemma ShortDocumentPrompt()
    ensures var p := Compose("The sky is blue.", "What color is the sky?");
      && p.Some?
      && OccursAt(p.value, Refusal, RefusalAt)
      && OccursAt(p.value, "The sky is blue.", ContextAt)
      && OccursAt(p.value, "What color is the sky?", QuestionAt(16))
      && RefusalAt < ContextAt < QuestionAt(16)
  {
    assert !IsSpace("What color is the sky?"[0]);
    RenderLayout("The sky is blue.", "What color is the sky?");
  }
}
