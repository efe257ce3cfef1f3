/** The boilerplate normaliser of app.py (`clean_extracted_text`): six
    regular-expression substitutions, each a single left-to-right pass over
    the whole text, followed by stripping the ends. */
module Cleaning {
  import opened Text
  import opened Patterns

  /** What a match of each pattern is replaced by: runs of blank lines become
      one blank line, everything else is deleted. */
  function Replacement(p: Pattern): string {
    if p == BlankLines then "\n\n" else ""
  }

  /** `re.sub` with a pattern that never matches the empty string: at each
      position a match is replaced and skipped, otherwise one character is
      copied. */
  function Substitute(p: Pattern, s: string): string
    decreases |s|
  {
    if s == [] then []
    else
      var n := MatchLength(p, s);
      if n > 0 then Replacement(p) + Substitute(p, s[n..])
      else [s[0]] + Substitute(p, s[1..])
  }

  /** The text after the four deletions of letterhead, page footers, issue
      dates and sign-offs, in that order. */
  function WithoutBoilerplate(text: string): string {
    Substitute(Signoff, Substitute(IssuedOn, Substitute(PageFooter, Substitute(Letterhead, text))))
  }

  /** `clean_extracted_text`. */
  function Clean(text: string): string {
    if text == "" then ""
    else Strip(Substitute(BlankLines, Substitute(StarRun, WithoutBoilerplate(text))))
  }

  // ---------------------------------------------------------------------
  // Substitution only deletes

  /** The replacement of a match can be obtained from the match by deletion. */
  lemma ReplacementInMatch(p: Pattern, s: string)
    requires MatchLength(p, s) > 0
    ensures IsSubsequence(Replacement(p), s[..MatchLength(p, s)])
  {
    if p == BlankLines {
      var n := MatchLength(p, s);
      var w := s[..n];
      MatchLengthIsLongest(p, s);
      CountAtMostLength(w, '\n');
      var u := w[1..];
      SubsequenceSlice(u, |u| - 1, |u|);
      assert u[|u| - 1..|u|] == "\n";
      assert "\n\n"[1..] == "\n";
    }
  }

  /** Every substitution pass keeps the characters it does not delete, in
      order (a blank-line run keeps two of its newlines). */
  lemma {:induction false} SubstituteDeletes(p: Pattern, s: string)
    ensures IsSubsequence(Substitute(p, s), s)
    decreases |s|
  {
    if s != [] {
      var n := MatchLength(p, s);
      if n > 0 {
        SubstituteDeletes(p, s[n..]);
        ReplacementInMatch(p, s);
        SubsequenceSplit(Replacement(p), Substitute(p, s[n..]), s, n);
      } else {
        SubstituteDeletes(p, s[1..]);
        SubsequenceSplit([s[0]], Substitute(p, s[1..]), s, 1);
      }
    }
  }

  /** Cleaning deletes characters and never adds any: the result is a
      subsequence of the input, so never longer. */
  lemma CleanOnlyDeletes(text: string)
    ensures IsSubsequence(Clean(text), text)
    ensures |Clean(text)| <= |text|
  {
    if text != "" {
      var s1 := Substitute(Letterhead, text);
      var s2 := Substitute(PageFooter, s1);
      var s3 := Substitute(IssuedOn, s2);
      var s4 := Substitute(Signoff, s3);
      var s5 := Substitute(StarRun, s4);
      var s6 := Substitute(BlankLines, s5);
      SubstituteDeletes(Letterhead, text);
      SubstituteDeletes(PageFooter, s1);
      SubstituteDeletes(IssuedOn, s2);
      SubstituteDeletes(Signoff, s3);
      SubstituteDeletes(StarRun, s4);
      SubstituteDeletes(BlankLines, s5);
      StripCharacterised(s6);
      var k := PrefixRun(s6, IsSpace);
      SubsequenceSlice(s6, k, k + |Clean(text)|);
      SubsequenceTransitive(Clean(text), s6, s5);
      SubsequenceTransitive(Clean(text), s5, s4);
      SubsequenceTransitive(Clean(text), s4, s3);
      SubsequenceTransitive(Clean(text), s3, s2);
      SubsequenceTransitive(Clean(text), s2, s1);
      SubsequenceTransitive(Clean(text), s1, text);
    }
    SubsequenceLength(Clean(text), text);
  }

  /** A pass over text in which the pattern matches nowhere changes nothing. */
  lemma {:induction false} SubstituteNoMatch(p: Pattern, s: string)
    requires forall i, j | 0 <= i <= j <= |s| :: !InLanguage(p, s[i..j])
    ensures Substitute(p, s) == s
    decreases |s|
  {
    if s != [] {
      var n := MatchLength(p, s);
      MatchLengthIsLongest(p, s);
      assert s[..n] == s[0..n];
      NoMatchInSuffix(p, s, 1);
      SubstituteNoMatch(p, s[1..]);
      assert [s[0]] + s[1..] == s;
    }
  }

  lemma NoMatchInSuffix(p: Pattern, s: string, k: nat)
    requires k <= |s|
    requires forall i, j | 0 <= i <= j <= |s| :: !InLanguage(p, s[i..j])
    ensures forall i, j | 0 <= i <= j <= |s[k..]| :: !InLanguage(p, s[k..][i..j])
  {
    forall i, j | 0 <= i <= j <= |s[k..]|
      ensures !InLanguage(p, s[k..][i..j])
    {
      assert s[k..][i..j] == s[k + i..k + j];
    }
  }

  /** A prefix has at most one longest match. */
  lemma LongestUnique(p: Pattern, t: string, a: nat, b: nat)
    requires IsLongestMatch(p, t, a) && IsLongestMatch(p, t, b)
    ensures a == b
  {
  }

  /** The matcher finds the longest match at the start of the text. */
  lemma MatchAtStart(p: Pattern, t: string, n: nat)
    requires n > 0 && IsLongestMatch(p, t, n)
    ensures MatchLength(p, t) == n
  {
    MatchLengthIsLongest(p, t);
    LongestUnique(p, t, MatchLength(p, t), n);
  }

  /** No match of `p` starts at any of the first `m` positions of `s`. */
  predicate NoMatchBefore(p: Pattern, s: string, m: nat) {
    forall i, j | 0 <= i < m && i <= j <= |s| :: !InLanguage(p, s[i..j])
  }

  // The first-match property is proved for a scan whose matcher is a
  // parameter. `Substitute` is that scan with the pattern's matcher
  // (`SubstituteIsScan`); stating the induction generically keeps the
  // solver from unfolding all six matchers at every slice of the text.

  /** The leftmost, non-overlapping scan of `Substitute` with matcher `find`
      and replacement `r`. */
  function Scan(find: string -> nat, r: string, s: string): string
    decreases |s|
  {
    if s == [] then []
    else
      var n := find(s);
      if 0 < n <= |s| then r + Scan(find, r, s[n..])
      else [s[0]] + Scan(find, r, s[1..])
  }

  /** The matcher of pattern `p`. */
  function Finder(p: Pattern): string -> nat {
    t => MatchLength(p, t)
  }

  lemma {:induction false} SubstituteIsScan(p: Pattern, s: string)
    ensures Substitute(p, s) == Scan(Finder(p), Replacement(p), s)
    decreases |s|
  {
    if s != [] {
      var n := MatchLength(p, s);
      if n > 0 {
        SubstituteIsScan(p, s[n..]);
      } else {
        SubstituteIsScan(p, s[1..]);
      }
    }
  }

  /** The matcher finds nothing at any of the first `m` positions of `s`. */
  predicate SilentBefore(find: string -> nat, s: string, m: nat)
    requires m <= |s|
  {
    forall i | 0 <= i < m :: find(s[i..]) == 0
  }

  /** Where no match starts, the matcher finds nothing. */
  lemma NoMatchSilencesMatcher(p: Pattern, s: string, m: nat)
    requires m <= |s| && NoMatchBefore(p, s, m)
    ensures SilentBefore(Finder(p), s, m)
  {
    forall i | 0 <= i < m
      ensures Finder(p)(s[i..]) == 0
    {
      var n := MatchLength(p, s[i..]);
      MatchLengthIsLongest(p, s[i..]);
      assert s[i..][..n] == s[i..i + n];
    }
  }

  /** Where the matcher finds nothing, the scan copies one character. */
  lemma ScanCopiesOne(find: string -> nat, r: string, s: string)
    requires s != [] && find(s) == 0
    ensures Scan(find, r, s) == [s[0]] + Scan(find, r, s[1..])
  {
  }

  /** The scan copies the text before the first position where its matcher
      finds something. */
  lemma {:induction false} ScanCopiesPrefix(find: string -> nat, r: string, s: string, m: nat)
    requires m <= |s| && SilentBefore(find, s, m)
    ensures Scan(find, r, s) == s[..m] + Scan(find, r, s[m..])
  {
    if m == 0 {
      assert s[0..] == s;
    } else {
      var k := m - 1;
      ScanCopiesPrefix(find, r, s, k);
      var u := s[k..];
      ScanCopiesOne(find, r, u);
      assert u[1..] == s[m..];
      var rest := Scan(find, r, s[m..]);
      assert s[..k] + [s[k]] == s[..m];
      assert s[..k] + ([u[0]] + rest) == (s[..k] + [s[k]]) + rest;
    }
  }

  /** The scan keeps the text before the first position where its matcher
      finds something, replaces what it finds there and carries on after. */
  lemma ScanAtFirst(find: string -> nat, r: string, s: string, m: nat, n: nat)
    requires m + n <= |s| && SilentBefore(find, s, m) && find(s[m..]) == n > 0
    ensures Scan(find, r, s) == s[..m] + r + Scan(find, r, s[m + n..])
  {
    ScanCopiesPrefix(find, r, s, m);
    assert s[m..][n..] == s[m + n..];
  }

  /** A pass keeps the text before the first match, replaces that match (the
      longest one starting there) and carries on after it: when no match of
      `p` starts before position `m` and the longest match at `m` has length
      `n`, the pass over `s` is `s[..m]`, the replacement, and the pass over
      the text after the match. */
  lemma SubstituteAtFirstMatch(p: Pattern, s: string, m: nat, n: nat)
    requires m + n <= |s| && n > 0
    requires NoMatchBefore(p, s, m)
    requires IsLongestMatch(p, s[m..], n)
    ensures Substitute(p, s) == s[..m] + Replacement(p) + Substitute(p, s[m + n..])
  {
    NoMatchSilencesMatcher(p, s, m);
    MatchAtStart(p, s[m..], n);
    ScanAtFirst(Finder(p), Replacement(p), s, m, n);
    SubstituteIsScan(p, s);
    SubstituteIsScan(p, s[m + n..]);
  }

  /** `Page 1 of 1` is a page footer, and the longest match on itself. */
  lemma FooterExample()
    ensures IsLongestMatch(PageFooter, "Page 1 of 1", 11)
  {
    var w := "Page 1 of 1";
    assert PageFooterAt(w, 6);
    assert w[..11] == w;
  }

  /** The page-footer pass deletes the footer `Page 1 of 1`. */
  lemma FooterDeleted()
    ensures Substitute(PageFooter, "Page 1 of 1") == ""
  {
    var w := "Page 1 of 1";
    FooterExample();
    assert w[0..] == w;
    SubstituteAtFirstMatch(PageFooter, w, 0, 11);
    assert w[11..] == [];
  }

  /** Text without any boilerplate is only stripped. */
  lemma CleanKeepsPlainText(text: string)
    requires forall p, i, j | 0 <= i <= j <= |text| :: !InLanguage(p, text[i..j])
    ensures Clean(text) == Strip(text)
  {
    SubstituteNoMatch(Letterhead, text);
    SubstituteNoMatch(PageFooter, text);
    SubstituteNoMatch(IssuedOn, text);
    SubstituteNoMatch(Signoff, text);
    SubstituteNoMatch(StarRun, text);
    SubstituteNoMatch(BlankLines, text);
  }

  /** The cleaned text begins and ends with a character that is not whitespace. */
  lemma CleanIsStripped(text: string)
    ensures Trimmed(Clean(text))
  {
    if text != "" {
      var s6 := Substitute(BlankLines, Substitute(StarRun, WithoutBoilerplate(text)));
      StripEnds(s6);
    }
  }

  /** Empty input is returned as the empty string. */
  lemma CleanEmpty()
    ensures Clean("") == ""
  {
  }

  /** A text of whitespace only cleans to the empty string. */
  lemma CleanBlankText(text: string)
    requires All(text, IsSpace)
    ensures Clean(text) == ""
  {
    CleanOnlyDeletes(text);
    CleanIsStripped(text);
    SubsequenceAll(Clean(text), text, IsSpace);
  }

  // ---------------------------------------------------------------------
  // No run of three asterisks survives

  /** The number of asterisks at the start of `s`: `PrefixRun(s, IsStar)`
      (`LeadingStarsIsRun`), restated without `PrefixRun`'s quantified
      postconditions so that the inductions below stay cheap for the solver. */
  function LeadingStars(s: string): nat {
    if s == [] || s[0] != '*' then 0 else 1 + LeadingStars(s[1..])
  }

  lemma {:induction false} LeadingStarsIsRun(s: string)
    ensures LeadingStars(s) == PrefixRun(s, IsStar)
  {
    if s != [] && s[0] == '*' {
      LeadingStarsIsRun(s[1..]);
    }
  }

  lemma {:induction false} LeadingStarsOfPrefix(s: string, k: nat)
    requires k <= |s|
    ensures LeadingStars(s[..k]) <= LeadingStars(s)
  {
    if k > 0 {
      LeadingStarsOfPrefix(s[1..], k - 1);
      assert s[..k][1..] == s[1..][..k - 1];
    }
  }

  /** Every run of asterisks in `s` is shorter than three. */
  predicate StarRunsShort(s: string) {
    forall i | 0 <= i <= |s| :: LeadingStars(s[i..]) < 3
  }

  lemma StarRunsShortSuffix(s: string, k: nat)
    requires k <= |s| && StarRunsShort(s)
    ensures StarRunsShort(s[k..])
  {
    forall i | 0 <= i <= |s[k..]|
      ensures LeadingStars(s[k..][i..]) < 3
    {
      assert s[k..][i..] == s[k + i..];
    }
  }

  /** The asterisk pass leaves a leading run alone when it is short and
      removes it when it is long. */
  lemma {:induction false} StarPassLead(s: string)
    ensures LeadingStars(Substitute(StarRun, s)) ==
            if LeadingStars(s) >= 3 then 0 else LeadingStars(s)
    decreases |s|
  {
    if s != [] {
      LeadingStarsIsRun(s);
      var run := PrefixRun(s, IsStar);
      if run >= 3 {
        StarPassLead(s[run..]);
        assert run < |s| ==> s[run..][0] == s[run];
        assert Substitute(StarRun, s) == Substitute(StarRun, s[run..]);
      } else {
        StarPassLead(s[1..]);
        var y := Substitute(StarRun, s[1..]);
        assert ([s[0]] + y)[1..] == y;
      }
    }
  }

  /** After the asterisk pass, every run of asterisks is shorter than three. */
  lemma {:induction false} StarPassLeavesShortRuns(s: string)
    ensures StarRunsShort(Substitute(StarRun, s))
    decreases |s|
  {
    var o := Substitute(StarRun, s);
    if s == [] {
      assert o[0..] == [];
    } else {
      var n := MatchLength(StarRun, s);
      if n > 0 {
        StarPassLeavesShortRuns(s[n..]);
        assert o == Substitute(StarRun, s[n..]);
      } else {
        StarPassLeavesShortRuns(s[1..]);
        StarPassLead(s);
        LeadingStarsIsRun(s);
        var y := Substitute(StarRun, s[1..]);
        forall i | 0 <= i <= |o|
          ensures LeadingStars(o[i..]) < 3
        {
          if i > 0 {
            assert o[i..] == y[i - 1..];
          } else {
            assert o[0..] == o;
          }
        }
      }
    }
  }

  /** The blank-line pass keeps the leading run of asterisks. */
  lemma {:induction false} BlankPassKeepsStarLead(s: string)
    ensures LeadingStars(Substitute(BlankLines, s)) == LeadingStars(s)
    decreases |s|
  {
    if s != [] {
      var n := MatchLength(BlankLines, s);
      var o := Substitute(BlankLines, s);
      if n == 0 {
        BlankPassKeepsStarLead(s[1..]);
        assert o[1..] == Substitute(BlankLines, s[1..]);
      }
    }
  }

  lemma {:induction false} BlankPassKeepsShortRuns(s: string)
    requires StarRunsShort(s)
    ensures StarRunsShort(Substitute(BlankLines, s))
    decreases |s|
  {
    var o := Substitute(BlankLines, s);
    if s == [] {
      assert o[0..] == [];
    } else {
      var n := MatchLength(BlankLines, s);
      var len := if n > 0 then 2 else 1;
      var rest := if n > 0 then s[n..] else s[1..];
      var y := Substitute(BlankLines, rest);
      StarRunsShortSuffix(s, |s| - |rest|);
      BlankPassKeepsShortRuns(rest);
      BlankPassKeepsStarLead(s);
      assert s[0..] == s;
      assert o == o[..len] + y;
      forall i | 0 <= i <= |o|
        ensures LeadingStars(o[i..]) < 3
      {
        if i >= len {
          assert o[i..] == y[i - len..];
        } else if i == 0 {
          assert o[0..] == o;
        } else {
          assert o[i..][0] == '\n';
        }
      }
    }
  }

  lemma ShortRunsSlice(s: string, a: nat, b: nat, r: string)
    requires a <= b <= |s| && StarRunsShort(s) && r == s[a..b]
    ensures StarRunsShort(r)
  {
    forall i | 0 <= i <= |r|
      ensures LeadingStars(r[i..]) < 3
    {
      assert r[i..] == s[a + i..][..b - a - i];
      LeadingStarsOfPrefix(s[a + i..], b - a - i);
    }
  }

  lemma StripKeepsShortRuns(s: string)
    requires StarRunsShort(s)
    ensures StarRunsShort(Strip(s))
  {
    StripIsSlice(s);
    var k := PrefixRun(s, IsSpace);
    var r := Strip(s);
    ShortRunsSlice(s, k, k + |r|, r);
  }

  lemma ShortRunsNoStarMatch(s: string)
    requires StarRunsShort(s)
    ensures forall i, j | 0 <= i <= j <= |s| :: !InLanguage(StarRun, s[i..j])
  {
    forall i, j | 0 <= i <= j <= |s|
      ensures !IsStarRun(s[i..j])
    {
      assert s[i..][..j - i] == s[i..j];
      if All(s[i..j], IsStar) {
        PrefixRunIsLongest(s[i..], IsStar, j - i);
        LeadingStarsIsRun(s[i..]);
      }
    }
  }

  /** No run of three or more asterisks is left anywhere in the cleaned text. */
  lemma CleanRemovesStarRuns(text: string)
    ensures forall i, j | 0 <= i <= j <= |Clean(text)| :: !InLanguage(StarRun, Clean(text)[i..j])
  {
    if text == "" {
      assert StarRunsShort("") by {
        assert ""[0..] == "";
      }
      ShortRunsNoStarMatch("");
    } else {
      var s5 := Substitute(StarRun, WithoutBoilerplate(text));
      StarPassLeavesShortRuns(WithoutBoilerplate(text));
      BlankPassKeepsShortRuns(s5);
      StripKeepsShortRuns(Substitute(BlankLines, s5));
      ShortRunsNoStarMatch(Clean(text));
    }
  }

  // ---------------------------------------------------------------------
  // Runs of blank lines are collapsed

  /** No whitespace run in `s` holds more than two newlines. */
  predicate BlankRunsShort(s: string) {
    forall i | 0 <= i <= |s| :: RunNewlines(s[i..]) <= 2
  }

  /** The blank-line pass caps the newlines of the leading whitespace at two. */
  lemma {:induction false} BlankPassLead(s: string)
    ensures RunNewlines(Substitute(BlankLines, s)) == if RunNewlines(s) >= 2 then 2 else RunNewlines(s)
    decreases |s|
  {
    if s != [] {
      var n := MatchLength(BlankLines, s);
      var o := Substitute(BlankLines, s);
      if n > 0 {
        NoNewlineAfterRunEnd(s);
        BlankPassLead(s[n..]);
        ReplacedLead(Substitute(BlankLines, s[n..]));
      } else {
        BlankPassLead(s[1..]);
        assert o[1..] == Substitute(BlankLines, s[1..]);
      }
    }
  }

  lemma ReplacedLead(y: string)
    ensures RunNewlines("\n\n" + y) == 2 + RunNewlines(y)
  {
    var o := "\n\n" + y;
    assert o[1..] == "\n" + y;
    assert o[1..][1..] == y;
  }

  lemma {:induction false} BlankPassLeavesShortRuns(s: string)
    ensures BlankRunsShort(Substitute(BlankLines, s))
    decreases |s|
  {
    var o := Substitute(BlankLines, s);
    if s == [] {
      assert o[0..] == [];
    } else {
      var n := MatchLength(BlankLines, s);
      var len := if n > 0 then 2 else 1;
      var rest := if n > 0 then s[n..] else s[1..];
      var y := Substitute(BlankLines, rest);
      BlankPassLeavesShortRuns(rest);
      BlankPassLead(s);
      if n > 0 {
        NoNewlineAfterRunEnd(s);
        BlankPassLead(rest);
      }
      assert o == o[..len] + y;
      forall i | 0 <= i <= |o|
        ensures RunNewlines(o[i..]) <= 2
      {
        if i >= len {
          assert o[i..] == y[i - len..];
        } else if i == 0 {
          assert o[0..] == o;
        } else {
          assert o[1..][1..] == y;
        }
      }
    }
  }

  lemma {:induction false} RunNewlinesOfPrefix(s: string, k: nat)
    requires k <= |s|
    ensures RunNewlines(s[..k]) <= RunNewlines(s)
  {
    if k > 0 {
      RunNewlinesOfPrefix(s[1..], k - 1);
      assert s[..k][1..] == s[1..][..k - 1];
    }
  }

  lemma BlankRunsSlice(s: string, a: nat, b: nat, r: string)
    requires a <= b <= |s| && BlankRunsShort(s) && r == s[a..b]
    ensures BlankRunsShort(r)
  {
    forall i | 0 <= i <= |r|
      ensures RunNewlines(r[i..]) <= 2
    {
      assert r[i..] == s[a + i..][..b - a - i];
      RunNewlinesOfPrefix(s[a + i..], b - a - i);
    }
  }

  lemma StripKeepsBlankRunsShort(s: string)
    requires BlankRunsShort(s)
    ensures BlankRunsShort(Strip(s))
  {
    StripIsSlice(s);
    var k := PrefixRun(s, IsSpace);
    var r := Strip(s);
    BlankRunsSlice(s, k, k + |r|, r);
  }

  lemma ShortRunsNoBlankMatch(s: string)
    requires BlankRunsShort(s)
    ensures forall i, j | 0 <= i <= j <= |s| :: !InLanguage(BlankLines, s[i..j])
  {
    forall i, j | 0 <= i <= j <= |s|
      ensures !IsBlankLines(s[i..j])
    {
      assert s[i..][..j - i] == s[i..j];
      if All(s[i..j], IsSpace) {
        PrefixRunIsLongest(s[i..], IsSpace, j - i);
        RunNewlinesSplit(s[i..], j - i);
        assert RunNewlines(s[i..]) <= 2;
      }
    }
  }

  /** Three newlines with only whitespace between them no longer occur in the
      cleaned text: every run of blank lines has become a single blank line. */
  lemma CleanCollapsesBlankLines(text: string)
    ensures forall i, j | 0 <= i <= j <= |Clean(text)| :: !InLanguage(BlankLines, Clean(text)[i..j])
  {
    if text == "" {
      assert BlankRunsShort("") by {
        assert ""[0..] == "";
      }
      ShortRunsNoBlankMatch("");
    } else {
      var s6 := Substitute(BlankLines, Substitute(StarRun, WithoutBoilerplate(text)));
      BlankPassLeavesShortRuns(Substitute(StarRun, WithoutBoilerplate(text)));
      StripKeepsBlankRunsShort(s6);
      ShortRunsNoBlankMatch(Clean(text));
    }
  }
}
