/** The PDF text extractor of app.py (`extract_text_from_pdf`): every page of
    the document, in order, contributes either its own text layer or, when
    that is too short, the text that OCR recognises on its rendering,
    followed by a newline. The PDF library and the OCR engine are inputs:
    the file is given as its pages' text layers, and OCR as an oracle from
    page index to recognised fragments. */
module Extraction {
  import opened Text
  import opened Wrappers

  /** Pages with fewer stripped characters than this go to OCR ... */
  const OcrThreshold: nat := 500

  /** ... unless their stripped, lower-cased text starts with this token. */
  const Sentinel: string := "s=3"

  /** What the PDF library yields for one page: its text layer, or a failure
      while loading the page or reading its text. */
  datatype NativePage = Loaded(text: string) | LoadFailed

  /** An uploaded file: one the PDF library cannot open, or its pages in order
      together with whether closing the document afterwards succeeds. */
  datatype PdfFile = Unreadable | Opened(pages: seq<NativePage>, closes: bool)

  /** Rendering page `i` and running OCR on the image: the fragment texts in
      the order the engine returns them, or None when either step fails. */
  type OcrOracle = nat -> Option<seq<string>>

  /** The per-page fallback test. */
  predicate NeedsOcr(text: string) {
    |Strip(text)| < OcrThreshold && !StartsWith(Lower(Strip(text)), Sentinel)
  }

  /** The text page `i` contributes before its newline: the text layer
      unchanged, or the OCR fragments joined by single spaces; None when
      loading the page or OCR fails. */
  function PageText(page: NativePage, i: nat, ocr: OcrOracle): Option<string> {
    match page
    case LoadFailed => None
    case Loaded(text) =>
      if NeedsOcr(text) then
        match ocr(i)
        case None => None
        case Some(fragments) => Some(Join(fragments, " "))
      else
        Some(text)
  }

  /** The outcomes of the first `n` pages, in page order. */
  function OutcomesUpTo(pages: seq<NativePage>, ocr: OcrOracle, n: nat): (r: seq<Option<string>>)
    requires n <= |pages|
    ensures |r| == n
    ensures forall i | 0 <= i < n :: r[i] == PageText(pages[i], i, ocr)
  {
    if n == 0 then [] else OutcomesUpTo(pages, ocr, n - 1) + [PageText(pages[n - 1], n - 1, ocr)]
  }

  /** Every page's outcome, in page order. */
  function Outcomes(pages: seq<NativePage>, ocr: OcrOracle): (r: seq<Option<string>>)
    ensures |r| == |pages|
    ensures forall i | 0 <= i < |pages| :: r[i] == PageText(pages[i], i, ocr)
  {
    OutcomesUpTo(pages, ocr, |pages|)
  }

  /** The accumulator after the first `n` page outcomes: their texts, each
      followed by a newline, or None once an outcome is a failure. */
  function Accumulated(outcomes: seq<Option<string>>, n: nat): Option<string>
    requires n <= |outcomes|
  {
    if n == 0 then Some("")
    else
      match Accumulated(outcomes, n - 1)
      case None => None
      case Some(acc) =>
        match outcomes[n - 1]
        case None => None
        case Some(t) => Some(acc + t + "\n")
  }

  /** The value `extract_text_from_pdf` returns: None when the file cannot be
      opened, any page fails or the document fails to close, else the text
      after all pages. */
  function Extraction(pdf: PdfFile, ocr: OcrOracle): Option<string> {
    match pdf
    case Unreadable => None
    case Opened(pages, closes) =>
      if closes then Accumulated(Outcomes(pages, ocr), |pages|) else None
  }

  /** The body of the page loop for page `pageNum`: the text layer when it
      passes the fallback test, otherwise the OCR fragments joined by spaces. */
  method ProcessPage(page: NativePage, pageNum: nat, ocr: OcrOracle) returns (pageText: Option<string>)
    ensures pageText == PageText(page, pageNum, ocr)
  {
    if page.LoadFailed? {
      return None;
    }
    var text := page.text;
    if NeedsOcr(text) {
      var ocrResult := ocr(pageNum);
      if ocrResult.None? {
        return None;
      }
      var ocrText := Join(ocrResult.value, " ");
      return Some(ocrText);
    }
    return Some(text);
  }

  /** The page loop: one pass over the pages, appending each page's text and
      a newline to the accumulator, abandoning everything on a failure. */
  method ExtractTextFromPdf(pdf: PdfFile, ocr: OcrOracle) returns (result: Option<string>)
    ensures result == Extraction(pdf, ocr)
  {
    if pdf.Unreadable? {
      return None;
    }
    var pages := pdf.pages;
    ghost var outcomes := Outcomes(pages, ocr);
    var allText := "";
    var pageNum := 0;
    while pageNum < |pages|
      invariant pageNum <= |pages|
      invariant Accumulated(outcomes, pageNum) == Some(allText)
    {
      var pageText := ProcessPage(pages[pageNum], pageNum, ocr);
      if pageText.None? {
        FailureIsFinal(outcomes, pageNum + 1, |pages|);
        return None;
      }
      AccumulatedStep(outcomes, pageNum, allText, pageText.value);
      allText := allText + pageText.value + "\n";
      pageNum := pageNum + 1;
    }
    if !pdf.closes {
      return None;
    }
    return Some(allText);
  }

  /** One more successful page appends its text and a newline. */
  lemma AccumulatedStep(outcomes: seq<Option<string>>, n: nat, acc: string, t: string)
    requires n < |outcomes|
    requires Accumulated(outcomes, n) == Some(acc) && outcomes[n] == Some(t)
    ensures Accumulated(outcomes, n + 1) == Some(acc + t + "\n")
  {
  }

  /** Once a page has failed, no later page brings the accumulator back. */
  lemma {:induction false} FailureIsFinal(outcomes: seq<Option<string>>, k: nat, n: nat)
    requires k <= n <= |outcomes|
    requires Accumulated(outcomes, k) == None
    ensures Accumulated(outcomes, n) == None
    decreases n - k
  {
    if k < n {
      FailureIsFinal(outcomes, k + 1, n);
    }
  }

  /** The accumulator of the first `n` outcomes fails exactly when one of them is a failure. */
  lemma {:induction false} AccumulatedFailsIff(outcomes: seq<Option<string>>, n: nat)
    requires n <= |outcomes|
    ensures Accumulated(outcomes, n) == None <==> exists i :: 0 <= i < n && outcomes[i] == None
  {
    if n > 0 {
      AccumulatedFailsIff(outcomes, n - 1);
    }
  }

  /** Extraction yields nothing exactly when the file cannot be opened, some
      page cannot be loaded or recognised, or the document fails to close:
      no partial text is returned. */
  lemma ExtractionFailsIff(pdf: PdfFile, ocr: OcrOracle)
    ensures Extraction(pdf, ocr) == None <==>
              (|| pdf.Unreadable?
               || !pdf.closes
               || exists i :: 0 <= i < |pdf.pages| && PageText(pdf.pages[i], i, ocr) == None)
  {
    if pdf.Opened? {
      AccumulatedFailsIff(Outcomes(pdf.pages, ocr), |pdf.pages|);
    }
  }

  /** The accumulator only grows at its end. */
  lemma {:induction false} AccumulatedExtends(outcomes: seq<Option<string>>, k: nat, n: nat)
    requires k <= n <= |outcomes|
    requires Accumulated(outcomes, n).Some?
    ensures Accumulated(outcomes, k).Some?
    ensures StartsWith(Accumulated(outcomes, n).value, Accumulated(outcomes, k).value)
    decreases n - k
  {
    var s := Accumulated(outcomes, n).value;
    if k < n {
      AccumulatedExtends(outcomes, k, n - 1);
      var s' := Accumulated(outcomes, n - 1).value;
      var pre := Accumulated(outcomes, k).value;
      assert s'[..|pre|] == pre;
      assert s[..|s'|] == s';
      assert s[..|pre|] == s'[..|pre|];
    } else {
      assert s[..|s|] == s;
    }
  }

  /** `s` begins with `before`, followed at once by `t` and a newline. */
  predicate PlacedAfter(s: string, before: string, t: string) {
    && |before| + |t| + 1 <= |s|
    && s[..|before|] == before
    && s[|before|..|before| + |t| + 1] == t + "\n"
  }

  /** In a successful fold, outcome `i` and a newline stand right after the
      text of the outcomes before it. */
  lemma OutcomePlaced(outcomes: seq<Option<string>>, i: nat)
    requires i < |outcomes|
    requires Accumulated(outcomes, |outcomes|).Some?
    ensures Accumulated(outcomes, i).Some? && outcomes[i].Some?
    ensures PlacedAfter(Accumulated(outcomes, |outcomes|).value, Accumulated(outcomes, i).value, outcomes[i].value)
  {
    AccumulatedExtends(outcomes, i + 1, |outcomes|);
    var s := Accumulated(outcomes, |outcomes|).value;
    var next := Accumulated(outcomes, i + 1).value;
    var before := Accumulated(outcomes, i).value;
    var t := outcomes[i].value;
    assert next == before + (t + "\n");
    assert s[..|before|] == before by {
      assert s[..|before|] == s[..|next|][..|before|];
    }
    assert s[|before|..|next|] == t + "\n" by {
      assert s[|before|..|next|] == s[..|next|][|before|..];
    }
  }

  /** No page is skipped or reordered: in a successful extraction, page `i`'s
      text and a newline stand right after the text of pages 0 .. i-1. */
  lemma PageInPlace(pages: seq<NativePage>, closes: bool, ocr: OcrOracle, i: nat)
    requires i < |pages|
    requires Extraction(Opened(pages, closes), ocr).Some?
    ensures Accumulated(Outcomes(pages, ocr), i).Some? && PageText(pages[i], i, ocr).Some?
    ensures PlacedAfter(Extraction(Opened(pages, closes), ocr).value,
                        Accumulated(Outcomes(pages, ocr), i).value,
                        PageText(pages[i], i, ocr).value)
  {
    OutcomePlaced(Outcomes(pages, ocr), i);
  }

  /** The OCR engine is consulted only for pages that fail the fallback test:
      two oracles that agree on those pages give the same extraction. */
  lemma OcrOnlyForShortPages(pages: seq<NativePage>, closes: bool, o1: OcrOracle, o2: OcrOracle)
    requires forall i | 0 <= i < |pages| && pages[i].Loaded? && NeedsOcr(pages[i].text) :: o1(i) == o2(i)
    ensures Extraction(Opened(pages, closes), o1) == Extraction(Opened(pages, closes), o2)
  {
    assert Outcomes(pages, o1) == Outcomes(pages, o2);
  }

  /** A document whose every page has enough text of its own never reaches
      OCR: extraction succeeds, provided the document closes, whatever the
      OCR engine would do. */
  lemma NativeTextSuffices(pages: seq<NativePage>, closes: bool, o1: OcrOracle, o2: OcrOracle)
    requires forall i | 0 <= i < |pages| :: pages[i].Loaded? && !NeedsOcr(pages[i].text)
    ensures Extraction(Opened(pages, closes), o1).Some? <==> closes
    ensures Extraction(Opened(pages, closes), o1) == Extraction(Opened(pages, closes), o2)
  {
    OcrOnlyForShortPages(pages, closes, o1, o2);
    ExtractionFailsIff(Opened(pages, closes), o1);
  }

  /** The fallback test spelled out: Python's `lower().startswith("s=3")` on
      the stripped text holds exactly when it begins with `s=3` or `S=3`. */
  lemma NeedsOcrSpelledOut(text: string)
    ensures var s := Strip(text);
            NeedsOcr(text) <==> |s| < 500 && !(|s| >= 3 && (s[0] == 's' || s[0] == 'S') && s[1] == '=' && s[2] == '3')
  {
    var s := Strip(text);
    LowerAt(s);
    if |s| >= 3 {
      assert Lower(s)[..3] == [LowerChar(s[0]), LowerChar(s[1]), LowerChar(s[2])];
    }
  }

  /** A page whose text layer is blank is always sent to OCR. */
  lemma BlankPageNeedsOcr(text: string)
    requires All(text, IsSpace)
    ensures NeedsOcr(text)
  {
    StripAllSpace(text);
  }
}
