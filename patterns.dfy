/** The six patterns that `clean_extracted_text` in app.py removes or
    rewrites, each as a language (the set of strings the regular expression
    matches) and a hand-written matcher. A matcher looks at the text from
    one position on and returns the length of the match there, or 0 when
    there is none. For these six patterns the backtracking matcher of
    Python's `re` picks the longest matching prefix, and that is the
    contract every matcher here is proved to meet. */
module Patterns {
  import opened Text

  /** The patterns, in the order the normaliser applies them. */
  datatype Pattern =
    | Letterhead  // (S=3|S31) प्रतिभूति और विनिमय बोर्ड\nSecurities and Exchange Board of India, ignoring case
    | PageFooter  // Page \d+ of \d+
    | IssuedOn    // Issued on: [A-Za-z]+ \d{1,2}, \d{4}
    | Signoff     // Yours faithfully,
    | StarRun     // \*{3,}
    | BlankLines  // \n\s*\n\s*\n

  /** The part of the letterhead after its first three characters: the
      Hindi name of the board, a newline and its English name. */
  const LetterheadTail: string :=
    " \U{92A}\U{94D}\U{930}\U{924}\U{93F}\U{92D}\U{942}\U{924}\U{93F} \U{914}\U{930} "
    + "\U{935}\U{93F}\U{928}\U{93F}\U{92E}\U{92F} \U{92C}\U{94B}\U{930}\U{94D}\U{921}"
    + "\nSecurities and Exchange Board of India"

  const LetterheadS3: string := "S=3" + LetterheadTail
  const LetterheadS31: string := "S31" + LetterheadTail
  const PagePrefix: string := "Page "
  const PageMiddle: string := " of "
  const IssuedPrefix: string := "Issued on: "
  const Signature: string := "Yours faithfully,"

  /** `re.IGNORECASE` on a literal: equal length, and equal characters after
      lower-casing both sides. */
  predicate EqualsIgnoringCase(a: string, b: string) {
    |a| == |b| && forall i | 0 <= i < |a| :: LowerChar(a[i]) == LowerChar(b[i])
  }

  predicate IsLetterhead(w: string) {
    EqualsIgnoringCase(w, LetterheadS3) || EqualsIgnoringCase(w, LetterheadS31)
  }

  /** `w` is `Page ` + digits + ` of ` + digits, the first digits ending at `j`. */
  predicate PageFooterAt(w: string, j: nat) {
    && |PagePrefix| < j && j + |PageMiddle| < |w|
    && w[..|PagePrefix|] == PagePrefix
    && All(w[|PagePrefix|..j], IsDigit)
    && w[j..j + |PageMiddle|] == PageMiddle
    && All(w[j + |PageMiddle|..], IsDigit)
  }

  predicate IsPageFooter(w: string) {
    exists j | 0 <= j <= |w| :: PageFooterAt(w, j)
  }

  /** `w` is `Issued on: ` + letters + ` ` + one or two digits + `, ` + four
      digits, the letters ending at `j` and the day at `k`. */
  predicate IssuedOnAt(w: string, j: nat, k: nat) {
    && |IssuedPrefix| < j && j + 1 < k <= j + 3 && k + 6 == |w|
    && w[..|IssuedPrefix|] == IssuedPrefix
    && All(w[|IssuedPrefix|..j], IsAsciiLetter)
    && w[j] == ' '
    && All(w[j + 1..k], IsDigit)
    && w[k..k + 2] == ", "
    && All(w[k + 2..], IsDigit)
  }

  predicate IsIssuedOn(w: string) {
    exists j, k | 0 <= j <= k <= |w| :: IssuedOnAt(w, j, k)
  }

  predicate IsStarRun(w: string) {
    |w| >= 3 && All(w, IsStar)
  }

  /** `\n\s*\n\s*\n`: whitespace only, a newline at both ends, at least three
      newlines in all. */
  predicate IsBlankLines(w: string) {
    && |w| > 0 && w[0] == '\n' && w[|w| - 1] == '\n'
    && All(w, IsSpace)
    && Count(w, '\n') >= 3
  }

  /** The strings pattern `p` matches. */
  predicate InLanguage(p: Pattern, w: string) {
    match p
    case Letterhead => IsLetterhead(w)
    case PageFooter => IsPageFooter(w)
    case IssuedOn => IsIssuedOn(w)
    case Signoff => w == Signature
    case StarRun => IsStarRun(w)
    case BlankLines => IsBlankLines(w)
  }

  /** `n` is the length of the longest nonempty prefix of `t` that `p`
      matches, or 0 when there is none. */
  predicate IsLongestMatch(p: Pattern, t: string, n: nat) {
    && n <= |t|
    && (n > 0 ==> InLanguage(p, t[..n]))
    && forall k | n < k <= |t| :: !InLanguage(p, t[..k])
  }

  // ---------------------------------------------------------------------
  // The matchers

  function LetterheadMatch(t: string): (n: nat)
    ensures n <= |t|
  {
    var m := |LetterheadS3|;
    if m <= |t| && (EqualsIgnoringCase(t[..m], LetterheadS3) || EqualsIgnoringCase(t[..m], LetterheadS31))
    then m else 0
  }

  function PageFooterMatch(t: string): (n: nat)
    ensures n <= |t|
  {
    if StartsWith(t, PagePrefix) then
      var d1 := PrefixRun(t[|PagePrefix|..], IsDigit);
      var m := |PagePrefix| + d1;
      if 0 < d1 && StartsWith(t[m..], PageMiddle) then
        var d2 := PrefixRun(t[m + |PageMiddle|..], IsDigit);
        if 0 < d2 then m + |PageMiddle| + d2 else 0
      else 0
    else 0
  }

  function IssuedOnMatch(t: string): (n: nat)
    ensures n <= |t|
  {
    if StartsWith(t, IssuedPrefix) then
      var letters := PrefixRun(t[|IssuedPrefix|..], IsAsciiLetter);
      var j := |IssuedPrefix| + letters;
      if 0 < letters && j < |t| && t[j] == ' ' then
        var day := PrefixRun(t[j + 1..], IsDigit);
        var k := j + 1 + day;
        if 1 <= day <= 2 && k + 6 <= |t| && t[k..k + 2] == ", " && All(t[k + 2..k + 6], IsDigit)
        then k + 6 else 0
      else 0
    else 0
  }

  function SignoffMatch(t: string): (n: nat)
    ensures n <= |t|
  {
    if StartsWith(t, Signature) then |Signature| else 0
  }

  function StarRunMatch(t: string): (n: nat)
    ensures n <= |t|
  {
    var stars := PrefixRun(t, IsStar);
    if stars >= 3 then stars else 0
  }

  /** Newlines in the whitespace run at the start of `t`: the `Count` of
      newlines in `t[..PrefixRun(t, IsSpace)]` (`RunNewlinesSplit` at the
      run's end), defined by its own recursion so that the blank-line lemmas
      need not unfold `PrefixRun` and `Count` together, which is costly for
      the solver. */
  function RunNewlines(t: string): nat {
    if t == [] || !IsSpace(t[0]) then 0
    else (if t[0] == '\n' then 1 else 0) + RunNewlines(t[1..])
  }

  /** The position just after the last newline of the whitespace run at the
      start of `t`, or 0 when that run has no newline. */
  function RunNewlineEnd(t: string): (e: nat)
    ensures e <= PrefixRun(t, IsSpace)
    ensures e > 0 ==> t[e - 1] == '\n'
    ensures forall i | e <= i < PrefixRun(t, IsSpace) :: t[i] != '\n'
  {
    if t == [] || !IsSpace(t[0]) then 0
    else
      var e := RunNewlineEnd(t[1..]);
      if e > 0 then e + 1 else if t[0] == '\n' then 1 else 0
  }

  function BlankLinesMatch(t: string): (n: nat)
    ensures n <= |t|
  {
    if |t| > 0 && t[0] == '\n' && RunNewlines(t) >= 3 then RunNewlineEnd(t) else 0
  }

  /** The match of pattern `p` at the start of `t`. */
  function MatchLength(p: Pattern, t: string): (n: nat)
    ensures n <= |t|
  {
    match p
    case Letterhead => LetterheadMatch(t)
    case PageFooter => PageFooterMatch(t)
    case IssuedOn => IssuedOnMatch(t)
    case Signoff => SignoffMatch(t)
    case StarRun => StarRunMatch(t)
    case BlankLines => BlankLinesMatch(t)
  }

  // ---------------------------------------------------------------------
  // Every matcher returns the longest match

  /** A run of `p`-characters that stops at `m` is the run `PrefixRun` finds. */
  lemma RunEndsAt(s: string, p: char -> bool, m: nat)
    requires m <= |s| && All(s[..m], p) && (m < |s| ==> !p(s[m]))
    ensures PrefixRun(s, p) == m
  {
    PrefixRunIsLongest(s, p, m);
    if m < |s| {
      PrefixRunStopsAt(s, p, m);
    }
  }

  lemma LetterheadMatchIsLongest(t: string)
    ensures IsLongestMatch(Letterhead, t, LetterheadMatch(t))
  {
    assert |LetterheadS3| == |LetterheadS31|;
  }

  lemma SignoffMatchIsLongest(t: string)
    ensures IsLongestMatch(Signoff, t, SignoffMatch(t))
  {
  }

  lemma StarRunMatchIsLongest(t: string)
    ensures IsLongestMatch(StarRun, t, StarRunMatch(t))
  {
    forall k | StarRunMatch(t) < k <= |t|
      ensures !IsStarRun(t[..k])
    {
      if All(t[..k], IsStar) {
        PrefixRunIsLongest(t, IsStar, k);
      }
    }
  }

  /** In a page footer at the start of `t`, the page number is the whole
      digit run after `Page `. */
  lemma PageNumberIsRun(t: string, k: nat, j: nat)
    requires k <= |t| && PageFooterAt(t[..k], j)
    ensures StartsWith(t, PagePrefix)
    ensures |PagePrefix| + PrefixRun(t[|PagePrefix|..], IsDigit) == j
  {
    var w := t[..k];
    var a := |PagePrefix|;
    assert t[..a] == w[..a];
    assert t[a..][..j - a] == w[a..j];
    assert t[a..][j - a] == w[j] == ' ';
    RunEndsAt(t[a..], IsDigit, j - a);
  }

  /** Any page footer at the start of `t` is covered by the match. */
  lemma PageFooterBound(t: string, k: nat, j: nat)
    requires k <= |t| && PageFooterAt(t[..k], j)
    ensures k <= PageFooterMatch(t)
  {
    PageNumberIsRun(t, k, j);
    var w := t[..k];
    var b := |PageMiddle|;
    assert j + b < k;
    assert w[j..j + b] == t[j..j + b] == t[j..][..b];
    assert w[j + b..] == t[j + b..k] == t[j + b..][..k - j - b];
    PrefixRunIsLongest(t[j + b..], IsDigit, k - j - b);
  }

  lemma PageFooterMatchIsLongest(t: string)
    ensures IsLongestMatch(PageFooter, t, PageFooterMatch(t))
  {
    var n := PageFooterMatch(t);
    if n > 0 {
      var a, b := |PagePrefix|, |PageMiddle|;
      var d1 := PrefixRun(t[a..], IsDigit);
      var d2 := PrefixRun(t[a + d1 + b..], IsDigit);
      var w := t[..n];
      assert w[..a] == t[..a];
      assert w[a..a + d1] == t[a..][..d1];
      assert w[a + d1..a + d1 + b] == t[a + d1..][..b];
      assert w[a + d1 + b..] == t[a + d1 + b..][..d2];
      assert PageFooterAt(w, a + d1);
    }
    forall k | n < k <= |t|
      ensures !IsPageFooter(t[..k])
    {
      if IsPageFooter(t[..k]) {
        var j :| PageFooterAt(t[..k], j);
        PageFooterBound(t, k, j);
      }
    }
  }

  /** In an issue date at the start of `t`, the month is the whole letter
      run after `Issued on: `. */
  lemma MonthIsRun(t: string, m: nat, j: nat, k: nat)
    requires m <= |t| && IssuedOnAt(t[..m], j, k)
    ensures StartsWith(t, IssuedPrefix)
    ensures |IssuedPrefix| + PrefixRun(t[|IssuedPrefix|..], IsAsciiLetter) == j
  {
    var w := t[..m];
    var a := |IssuedPrefix|;
    assert t[..a] == w[..a];
    assert t[a..][..j - a] == w[a..j];
    assert t[a..][j - a] == w[j];
    RunEndsAt(t[a..], IsAsciiLetter, j - a);
  }

  /** In an issue date at the start of `t`, the day is the whole digit run
      after the month and its space. */
  lemma DayIsRun(t: string, m: nat, j: nat, k: nat)
    requires m <= |t| && IssuedOnAt(t[..m], j, k)
    ensures j + 1 + PrefixRun(t[j + 1..], IsDigit) == k
  {
    var w := t[..m];
    assert t[j + 1..][..k - j - 1] == w[j + 1..k];
    assert t[j + 1..][k - j - 1] == w[k] == ',';
    RunEndsAt(t[j + 1..], IsDigit, k - j - 1);
  }

  /** In an issue date at the start of `t`, the month is followed by a space
      and the day by `, ` and four digits. */
  lemma YearFollowsDay(t: string, m: nat, j: nat, k: nat)
    requires m <= |t| && IssuedOnAt(t[..m], j, k)
    ensures j < |t| && t[j] == ' '
    ensures k + 6 <= |t| && t[k..k + 2] == ", " && All(t[k + 2..k + 6], IsDigit)
  {
    var w := t[..m];
    assert t[j] == w[j];
    assert t[k..k + 2] == w[k..k + 2];
    assert t[k + 2..k + 6] == w[k + 2..];
  }

  /** Any `Issued on:` date at the start of `t` is covered by the match. */
  lemma IssuedOnBound(t: string, m: nat, j: nat, k: nat)
    requires m <= |t| && IssuedOnAt(t[..m], j, k)
    ensures m <= IssuedOnMatch(t)
  {
    MonthIsRun(t, m, j, k);
    DayIsRun(t, m, j, k);
    YearFollowsDay(t, m, j, k);
  }

  /** What the date matcher finds is an issue date. */
  lemma IssuedOnMatchIsDate(t: string)
    requires IssuedOnMatch(t) > 0
    ensures IsIssuedOn(t[..IssuedOnMatch(t)])
  {
    var n := IssuedOnMatch(t);
    var a := |IssuedPrefix|;
    var letters := PrefixRun(t[a..], IsAsciiLetter);
    var j := a + letters;
    var day := PrefixRun(t[j + 1..], IsDigit);
    var k := j + 1 + day;
    var w := t[..n];
    assert w[..a] == t[..a];
    assert w[a..j] == t[a..][..letters];
    assert w[j + 1..k] == t[j + 1..][..day];
    assert w[k..k + 2] == t[k..k + 2];
    assert w[k + 2..] == t[k + 2..k + 6];
    assert IssuedOnAt(w, j, k);
  }

  lemma IssuedOnMatchIsLongest(t: string)
    ensures IsLongestMatch(IssuedOn, t, IssuedOnMatch(t))
  {
    var n := IssuedOnMatch(t);
    if n > 0 {
      IssuedOnMatchIsDate(t);
    }
    forall m | n < m <= |t|
      ensures !IsIssuedOn(t[..m])
    {
      if IsIssuedOn(t[..m]) {
        var j, k :| IssuedOnAt(t[..m], j, k);
        IssuedOnBound(t, m, j, k);
      }
    }
  }


  /** One step into the whitespace run at the start of `t`. */
  lemma RunNewlinesStep(t: string, k: nat)
    requires 0 < k <= PrefixRun(t, IsSpace)
    ensures k - 1 <= PrefixRun(t[1..], IsSpace)
    ensures RunNewlines(t) == (if t[0] == '\n' then 1 else 0) + RunNewlines(t[1..])
    ensures Count(t[..k], '\n') == (if t[0] == '\n' then 1 else 0) + Count(t[1..][..k - 1], '\n')
    ensures t[1..][k - 1..] == t[k..]
  {
    assert t != [] && IsSpace(t[0]) by {
      assert t[..PrefixRun(t, IsSpace)][0] == t[0];
    }
    assert t[..k][0] == t[0];
    assert t[..k][1..] == t[1..][..k - 1];
  }

  /** Within the whitespace run at the start of `t`, the newlines of a prefix
      and those after it add up to the run's newlines. */
  lemma {:induction false} RunNewlinesSplit(t: string, k: nat)
    requires k <= PrefixRun(t, IsSpace)
    ensures RunNewlines(t) == Count(t[..k], '\n') + RunNewlines(t[k..])
  {
    if k > 0 {
      RunNewlinesStep(t, k);
      RunNewlinesSplit(t[1..], k - 1);
    } else {
      assert t[..0] == [] && t[0..] == t;
    }
  }


  /** After the last newline of the leading whitespace run, no newline is left
      in what remains of that run. */
  lemma {:induction false} NoNewlineAfterRunEnd(t: string)
    ensures RunNewlines(t[RunNewlineEnd(t)..]) == 0
  {
    if t != [] && IsSpace(t[0]) {
      var e := RunNewlineEnd(t[1..]);
      NoNewlineAfterRunEnd(t[1..]);
      if e > 0 {
        assert t[1..][e..] == t[e + 1..];
      } else if t[0] == '\n' {
        assert t[1..] == t[1..][0..];
      } else {
        assert t[0..] == t && t[1..][0..] == t[1..];
      }
    } else {
      assert t[0..] == t;
    }
  }

  lemma BlankLinesMatchIsLongest(t: string)
    ensures IsLongestMatch(BlankLines, t, BlankLinesMatch(t))
  {
    var n := BlankLinesMatch(t);
    var run := PrefixRun(t, IsSpace);
    if n > 0 {
      RunNewlinesSplit(t, n);
      NoNewlineAfterRunEnd(t);
      assert t[..n][0] == t[0];
      assert t[..n] == t[..run][..n];
    }
    forall k | n < k <= |t|
      ensures !IsBlankLines(t[..k])
    {
      if IsBlankLines(t[..k]) {
        BlankLinesBound(t, k);
      }
    }
  }

  /** Any run of blank lines at the start of `t` is covered by the match. */
  lemma BlankLinesBound(t: string, k: nat)
    requires k <= |t| && IsBlankLines(t[..k])
    ensures k <= BlankLinesMatch(t)
  {
    var w := t[..k];
    PrefixRunIsLongest(t, IsSpace, k);
    RunNewlinesSplit(t, k);
    assert t[0] == w[0] && t[k - 1] == w[k - 1];
  }

  /** Every matcher returns the longest match of its pattern. */
  lemma MatchLengthIsLongest(p: Pattern, t: string)
    ensures IsLongestMatch(p, t, MatchLength(p, t))
  {
    match p
    case Letterhead => LetterheadMatchIsLongest(t);
    case PageFooter => PageFooterMatchIsLongest(t);
    case IssuedOn => IssuedOnMatchIsLongest(t);
    case Signoff => SignoffMatchIsLongest(t);
    case StarRun => StarRunMatchIsLongest(t);
    case BlankLines => BlankLinesMatchIsLongest(t);
  }
}
