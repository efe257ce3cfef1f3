# SEBI PDF analyser: a verified model of its text pipeline

`app.py` is a Streamlit page that takes an uploaded SEBI circular or
consultation paper (a PDF) through three steps:

1. it extracts the text of every page, falling back to OCR on pages with
   little native text;
2. it cleans that text of boilerplate;
3. it wraps the cleaned text in a fixed prompt for a Gemini model.

This project models the decision and string logic of those three functions
in Dafny and proves what that logic guarantees. The PDF library, the OCR
engine and the model are inputs to the model, not part of it.

* `text.dfy` (module `Text`): Python's string primitives, modelled on
  `seq<char>`. It has whitespace as `str.isspace` defines it, `strip`,
  ASCII `lower`, `startswith`, `sep.join`, and character counting. It also
  defines "is a subsequence of", which the cleaning properties use.
* `wrappers.dfy` (module `Wrappers`): an `Option` type.
* `extraction.dfy` (module `Extraction`): `extract_text_from_pdf`.
  * An opened PDF is its sequence of page text layers plus whether
    `doc.close()` succeeds. A page whose loading fails is `LoadFailed`, and
    a file that cannot be opened is `Unreadable`.
  * OCR is an oracle from page index to the recognised fragment texts, in
    the engine's order (`None` when rendering or recognition fails).
  * `NeedsOcr` is the fallback test of app.py:33. `PageText` is what one
    page contributes (app.py:29-41): its text layer, or its OCR fragments
    joined by `" "` (app.py:38), or `None` on a failure.
  * The page loop is the method `ExtractTextFromPdf` (app.py:21-46). Its
    accumulator is proved equal, page by page, to the fold `Accumulated`
    over the `PageText` outcomes; `Extraction` is the whole function's
    value. The fold's meaning is then proved as lemmas:
    * failure on any page gives `None`;
    * each page's text is placed, followed by a newline, right after the
      pages before it;
    * OCR is consulted only for short pages.
* `patterns.dfy` (module `Patterns`): the six regular expressions of
  `clean_extracted_text`.
  * Each is a language (a predicate on strings) plus a hand-written matcher.
  * Each matcher is proved to return the longest nonempty prefix in its
    language, or 0 when there is none. For these patterns that is exactly
    the match Python's backtracking `re` finds.
* `cleaning.dfy` (module `Cleaning`): `re.sub` as a leftmost,
  non-overlapping scan (`Substitute`), and `clean_extracted_text` as the
  chain of six passes followed by `strip` (`Clean`). The same scan is also
  written with the matcher as a parameter (`Scan`, proved equal to
  `Substitute` by `SubstituteIsScan`); the first-match property is proved
  on that form, where the solver need not unfold the six matchers.
* `analysis.dfy` (module `Analysis`): `get_llm_analysis`.
  * `BuildPrompt` is the f-string of app.py:69-90, given character for
    character. `DocumentOf` reads the document back out of a prompt.
  * `LlmAnalysis` is the whole function (app.py:62-96). The model call is
    an oracle that returns generated text or an error detail.

Three facts about `app.py` shape the model:

* **No page limit.** `extract_text_from_pdf` reads every page of the
  document (app.py:28); it takes no maximum page count.
* **A newline after every page.** `"\n"` follows every page's text,
  including the last page and empty pages (app.py:39, 41); it is not a
  separator between pages.
* **Cleaning is not idempotent.** Every `re.sub` is a single pass, and a
  deletion can join its neighbours into a new match. For example, the
  page-footer pass turns `Page 1 oPage 2 of 3f 4` into `Page 1 of 4`. The
  model therefore proves no idempotence. It proves instead that no run of
  three asterisks (`CleanRemovesStarRuns`) and no run of two or more blank
  lines (`CleanCollapsesBlankLines`) survives: for those two patterns a
  single pass is enough.

## Model

| member | source | states |
|---|---|---|
| Extraction.ExtractTextFromPdf | app.py:21-46 | The page loop returns exactly `Extraction(pdf, ocr)`: `None` for an unreadable file or a failed `doc.close()`, else the fold over all page outcomes in page order. |
| Extraction.ProcessPage | app.py:29-41 | One iteration of the loop yields `PageText`: the unchanged text layer, or the OCR fragments joined by `" "` when the page needs OCR, or `None` on a failure. |
| Extraction.AccumulatedFailsIff | app.py:28-45 | The accumulated text is `None` exactly when one of the outcomes folded in is a failure. |
| Extraction.ExtractionFailsIff | app.py:26-45 | Extraction returns `None` if and only if the file cannot be opened, some page fails to load or to be recognised, or the document fails to close; no partial text is returned. |
| Extraction.AccumulatedExtends | app.py:39-41 | The accumulator only grows at its end: an earlier state is a prefix of every later one. |
| Extraction.PageInPlace | app.py:28-41 | In a successful extraction, page `i`'s chosen text and a `"\n"` stand right after the text of pages `0..i-1`: no page is skipped or reordered. |
| Extraction.OcrOnlyForShortPages | app.py:33-41 | Two OCR oracles that agree on the pages needing OCR give the same extraction: OCR is consulted for no other page. |
| Extraction.NativeTextSuffices | app.py:33-42 | If every page loads and none needs OCR, extraction succeeds exactly when the document closes, and its result is the same whatever the OCR engine would do. |
| Extraction.NeedsOcrSpelledOut | app.py:33 | The OCR test holds exactly when the stripped text is shorter than 500 characters and does not begin with `s=3` or `S=3`. |
| Extraction.BlankPageNeedsOcr | app.py:33 | A page whose text layer is only whitespace always goes to OCR. |
| Text.StripCharacterised | app.py:59 | `strip` returns the slice after the leading whitespace; everything outside it is whitespace, and it neither begins nor ends with whitespace. |
| Text.StripAllSpace | app.py:33 | A whitespace-only string strips to `""`. |
| Text.LowerAt | app.py:33 | Lower-casing maps each character on its own, position by position. |
| Text.JoinSnoc | app.py:38 | Joining one more fragment appends one separator and that fragment, so fragments keep their order. |
| Text.JoinLength | app.py:38 | The joined text is as long as the fragments together plus one space between each pair of neighbours. |
| Patterns.LetterheadMatchIsLongest | app.py:53 | The letterhead matcher returns the length of the case-insensitive `S=3`/`S31` letterhead at the start of the text, or 0 if there is none. |
| Patterns.PageFooterMatchIsLongest | app.py:54 | The footer matcher returns the longest prefix of the form `Page <digits> of <digits>`, or 0 if there is none. |
| Patterns.IssuedOnMatchIsLongest | app.py:55 | The date matcher returns the prefix of the form `Issued on: <letters> <1-2 digits>, <4 digits>`, or 0 if there is none. |
| Patterns.SignoffMatchIsLongest | app.py:56 | The sign-off matcher returns 17 exactly when the text starts with `Yours faithfully,`, else 0. |
| Patterns.StarRunMatchIsLongest | app.py:57 | The asterisk matcher returns the whole leading run of asterisks when it has at least three, else 0. |
| Patterns.BlankLinesMatchIsLongest | app.py:58 | The blank-line matcher returns the longest whitespace-only prefix that starts and ends with a newline and holds at least three newlines, or 0 if there is none. |
| Patterns.MatchLengthIsLongest | app.py:53-58 | Every pattern's matcher returns the longest nonempty prefix in the pattern's language, or 0 if there is none. |
| Cleaning.ReplacementInMatch | app.py:58 | The replacement `"\n\n"` can be obtained from any blank-line match by deletion; every other replacement is empty. |
| Cleaning.SubstituteDeletes | app.py:53-58 | Every substitution pass yields a subsequence of its input. |
| Cleaning.SubstituteNoMatch | app.py:53-58 | A pass over text in which the pattern matches nowhere returns the text unchanged. |
| Cleaning.SubstituteIsScan | app.py:53-58 | Every pass is the generic leftmost, non-overlapping scan driven by the pattern's matcher. |
| Cleaning.SubstituteAtFirstMatch | app.py:53-58 | A pass keeps the text before the first match, replaces that match (the longest one starting there) and continues after it: with no match starting before `m` and the longest match at `m` of length `n`, the result is `s[..m]`, the replacement, then the pass over `s[m + n..]`. |
| Cleaning.FooterDeleted | app.py:54 | The page-footer pass deletes the footer `Page 1 of 1`. |
| Cleaning.CleanEmpty | app.py:51-52 | Empty input cleans to `""`. |
| Cleaning.CleanOnlyDeletes | app.py:49-59 | The cleaned text is a subsequence of the input, and so no longer than it. |
| Cleaning.CleanKeepsPlainText | app.py:49-59 | Text in which no pattern matches anywhere is only stripped. |
| Cleaning.CleanIsStripped | app.py:59 | The cleaned text neither begins nor ends with whitespace. |
| Cleaning.CleanBlankText | app.py:49-59 | Whitespace-only input cleans to `""`. |
| Cleaning.StarPassLead | app.py:57 | After the asterisk pass, the leading run of asterisks is unchanged when it was shorter than three, and gone otherwise. |
| Cleaning.StarPassLeavesShortRuns | app.py:57 | After the asterisk pass, every run of asterisks is shorter than three. |
| Cleaning.BlankPassKeepsShortRuns | app.py:58 | The blank-line pass adds no asterisks, so short runs stay short. |
| Cleaning.CleanRemovesStarRuns | app.py:57-59 | The asterisk pattern matches nowhere in the cleaned text. |
| Cleaning.BlankPassLead | app.py:58 | After the blank-line pass, the leading whitespace holds `min(n, 2)` newlines, where `n` is the number it held before. |
| Cleaning.BlankPassLeavesShortRuns | app.py:58 | After the blank-line pass, no whitespace stretch holds more than two newlines. |
| Cleaning.CleanCollapsesBlankLines | app.py:58-59 | The blank-line pattern matches nowhere in the cleaned text: at most one blank line remains in a row. |
| Analysis.DocumentOfBuildPrompt | app.py:69-90 | The document can be read back from the prompt built from it. |
| Analysis.BuildPromptOfDocument | app.py:69-90 | Every string of the template's shape is the prompt of the document read back from it. |
| Analysis.BuildPromptInjective | app.py:69-90 | Different documents give different prompts. |
| Analysis.PromptEmbedsDocument | app.py:84-86 | The document appears verbatim, right after the `Document Text:` line and right before the closing `---`. |
| Analysis.EmptyDocumentSkipsModel | app.py:66-67 | An empty document gives `No text extracted from PDF for analysis.`, whatever the model would reply. |
| Analysis.OnlyThePromptMatters | app.py:92-94 | The outcome depends on the model only through its reply to this document's prompt. |
| Analysis.ReplyIsReturned | app.py:93-94 | A successful reply's text is returned unchanged. |
| Analysis.ErrorIsWrapped | app.py:95-96 | A failed call returns `Error communicating with Gemini API: ` followed by the error detail. |

## Left out

- The Streamlit page (app.py:99-127) and the `st.error` calls: presentation and side effects only.
- Configuring the Gemini client and creating the OCR reader (app.py:12-19): setup with no logic.
- PDF parsing, rendering at 2x and PNG/PIL conversion: foreign library calls. A file is modelled as the text layers of its pages and whether `doc.close()` succeeds, or as unreadable. Why opening, loading, rendering or closing fails is not modelled, only that it does.
- The OCR engine's internals: it is an oracle returning the recognised texts in order. The model drops the bounding boxes and confidences of `readtext`, which the code discards anyway.
- The network call to Gemini: the model is an oracle whose reply is the text or the detail of the exception raised.
- `clean_extracted_text(None)` and `get_llm_analysis(None)`: the model takes strings, and the script only ever passes strings. The empty-string case is modelled.
- `Patterns.PageFooterMatch` and `Patterns.IssuedOnMatch`: `\d` is modelled as the ASCII digits only. Python's `re` also matches other Unicode decimal digits.
- `Patterns.LetterheadMatch`: `re.IGNORECASE` is modelled as ASCII case folding. Python additionally equates a few non-ASCII letters with ASCII ones (the long s, the dotless and dotted i, the Kelvin sign); the Devanagari part of the letterhead has no case.
- `Text.Lower`: only ASCII letters are lower-cased. This is exact for the only use, testing whether a page begins with `s=3`, since no other character lower-cases to a string beginning with `s`.
- Idempotence of cleaning: not asserted, because the code does not have it (see above).
