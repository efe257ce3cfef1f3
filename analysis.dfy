/** The analysis step of app.py (`get_llm_analysis`): the cleaned document
    is placed verbatim into a fixed instruction template, which is sent to
    the language model. The model is an input: a function from prompt to
    reply, where a reply is the generated text or the detail of the
    exception the client raised. */
module Analysis {
  import opened Wrappers

  /** What one call to the model yields. */
  datatype Reply = Generated(text: string) | ApiError(detail: string)

  /** The model call: `model.generate_content(prompt).text`, or the exception. */
  type Model = string -> Reply

  const NoTextMessage: string := "No text extracted from PDF for analysis."
  const ErrorPrefix: string := "Error communicating with Gemini API: "

  /** The template up to the line that introduces the document. */
  const Instructions: string :=
    "\n"
    + "    Analyze the following official document (likely a "
    + "consultation paper or draft circular from SEBI - Securities "
    + "and Exchange Board of India).\n"
    + "\n"
    + "    Please provide a concise summary in the following "
    + "structure, identifying the key sections:\n"
    + "\n"
    + "    ### Background & Objective\n"
    + "    [Summarize the background and the main objectives of "
    + "the document. Keep it factual and directly based on the "
    + "document's content.]\n"
    + "\n"
    + "    ### Key Provisions/Proposals\n"
    + "    [List and briefly explain the main proposals or key "
    + "provisions outlined in the document. Use bullet points or "
    + "numbered lists if appropriate for clarity. Focus on the "
    + "core changes or requirements.]\n"
    + "\n"
    + "    ### Our Opinion\n"
    + "    [Provide an informed opinion or analysis of the "
    + "document's proposals. Discuss potential positive "
    + "implications, benefits, or significance for the "
    + "stakeholders (e.g., investors, market participants, "
    + "regulatory transparency). This should be a synthesized "
    + "perspective based on the document's intent and common "
    + "regulatory goals.]\n"
    + "\n"
    + "    ---\n"

  /** The line that introduces the document, and the indentation in front of it. */
  const DocumentMarker: string := "    Document Text:\n    "

  /** The rule that closes the document. */
  const ClosingRule: string := "\n    ---"

  /** The template after the closing rule. */
  const Reminder: string :=
    "\n"
    + "\n"
    + "    Ensure the output strictly adheres to the requested "
    + "three main headings.\n"
    + "    \n"
    + "    "

  const PromptHead: string := Instructions + DocumentMarker
  const PromptTail: string := ClosingRule + Reminder

  /** The f-string of `get_llm_analysis` with `document_text` substituted. */
  function BuildPrompt(doc: string): string {
    PromptHead + doc + PromptTail
  }

  /** The part of `s` between a leading `head` and a trailing `tail`, or
      None when `s` does not have that shape. */
  function Between(head: string, tail: string, s: string): Option<string> {
    if |head| + |tail| <= |s| && s[..|head|] == head && s[|s| - |tail|..] == tail
    then Some(s[|head|..|s| - |tail|])
    else None
  }

  /** The document a prompt was built from, or None when it does not have
      the template's shape. */
  function DocumentOf(prompt: string): Option<string> {
    Between(PromptHead, PromptTail, prompt)
  }

  /** `get_llm_analysis`: the fixed message for an empty document, otherwise
      the model's text, or the error message when the call raised. */
  function LlmAnalysis(doc: string, model: Model): string {
    if doc == "" then NoTextMessage
    else
      match model(BuildPrompt(doc))
      case Generated(text) => text
      case ApiError(detail) => ErrorPrefix + detail
  }

  /** What is put between a head and a tail is found there again. */
  lemma BetweenOfConcat(h: string, d: string, t: string)
    ensures Between(h, t, h + d + t) == Some(d)
  {
    var s := h + d + t;
    assert s[..|h|] == h;
    assert s[|s| - |t|..] == t;
    assert s[|h|..|s| - |t|] == d;
  }

  /** A string of the right shape is its head, its middle and its tail. */
  lemma ConcatOfBetween(h: string, t: string, s: string)
    requires Between(h, t, s).Some?
    ensures h + Between(h, t, s).value + t == s
  {
    assert s == s[..|h|] + s[|h|..|s| - |t|] + s[|s| - |t|..];
  }

  /** The document can be read back from its prompt. */
  lemma DocumentOfBuildPrompt(doc: string)
    ensures DocumentOf(BuildPrompt(doc)) == Some(doc)
  {
    BetweenOfConcat(PromptHead, doc, PromptTail);
  }

  /** Every prompt the template accepts is the prompt of the document read
      back from it. */
  lemma BuildPromptOfDocument(prompt: string)
    requires DocumentOf(prompt).Some?
    ensures BuildPrompt(DocumentOf(prompt).value) == prompt
  {
    ConcatOfBetween(PromptHead, PromptTail, prompt);
  }

  /** Different documents give different prompts. */
  lemma BuildPromptInjective(a: string, b: string)
    requires BuildPrompt(a) == BuildPrompt(b)
    ensures a == b
  {
    DocumentOfBuildPrompt(a);
    DocumentOfBuildPrompt(b);
  }

  /** In `p`, `doc` starts at `i`, right after `marker`, and is followed at
      once by `rule`. */
  predicate EmbeddedAt(p: string, i: nat, marker: string, doc: string, rule: string) {
    && |marker| <= i && i + |doc| + |rule| <= |p|
    && p[i - |marker|..i] == marker
    && p[i..i + |doc|] == doc
    && p[i + |doc|..i + |doc| + |rule|] == rule
  }

  lemma EmbeddedBetween(pre: string, marker: string, doc: string, rule: string, post: string)
    ensures EmbeddedAt((pre + marker) + doc + (rule + post), |pre| + |marker|, marker, doc, rule)
  {
  }

  /** In the prompt the document follows the `Document Text:` line at once and
      is followed at once by the closing rule, unchanged. */
  lemma PromptEmbedsDocument(doc: string)
    ensures EmbeddedAt(BuildPrompt(doc), |Instructions| + |DocumentMarker|, DocumentMarker, doc, ClosingRule)
  {
    EmbeddedBetween(Instructions, DocumentMarker, doc, ClosingRule, Reminder);
  }

  /** An empty document gets the fixed message and the model is not consulted:
      the outcome is the same whatever the model would reply. */
  lemma EmptyDocumentSkipsModel(m1: Model, m2: Model)
    ensures LlmAnalysis("", m1) == NoTextMessage
    ensures LlmAnalysis("", m1) == LlmAnalysis("", m2)
  {
  }

  /** The model is consulted once, on the prompt of the document: models that
      agree there give the same outcome. */
  lemma OnlyThePromptMatters(doc: string, m1: Model, m2: Model)
    requires m1(BuildPrompt(doc)) == m2(BuildPrompt(doc))
    ensures LlmAnalysis(doc, m1) == LlmAnalysis(doc, m2)
  {
  }

  /** A failed call is reported, not raised: the result is the error prefix
      followed by the detail, which can be read back from it. */
  lemma ErrorIsWrapped(doc: string, model: Model)
    requires doc != "" && model(BuildPrompt(doc)).ApiError?
    ensures var r := LlmAnalysis(doc, model);
            && r[..|ErrorPrefix|] == ErrorPrefix
            && r[|ErrorPrefix|..] == model(BuildPrompt(doc)).detail
  {
    var r := LlmAnalysis(doc, model);
    assert r == ErrorPrefix + model(BuildPrompt(doc)).detail;
  }

  /** A successful call's text is returned unchanged. */
  lemma ReplyIsReturned(doc: string, model: Model)
    requires doc != "" && model(BuildPrompt(doc)).Generated?
    ensures LlmAnalysis(doc, model) == model(BuildPrompt(doc)).text
  {
  }
}
