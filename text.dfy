/** Character classes and string helpers shared by the page extractor, the
    boilerplate normaliser and the analysis step. Strings are `seq<char>`. */
module Text {

  /** Python's `str.isspace()`: the characters that `str.strip()` removes and
      that `\s` matches in a regular expression over `str`. */
  predicate IsSpace(c: char) {
    || ('\t' <= c <= '\r')
    || ('\U{1C}' <= c <= '\U{1F}')
    || c == ' '
    || c == '\U{85}'
    || c == '\U{A0}'
    || c == '\U{1680}'
    || ('\U{2000}' <= c <= '\U{200A}')
    || c == '\U{2028}'
    || c == '\U{2029}'
    || c == '\U{202F}'
    || c == '\U{205F}'
    || c == '\U{3000}'
  }

  /** `\d`, restricted to the ASCII digits. */
  predicate IsDigit(c: char) {
    '0' <= c <= '9'
  }

  /** `[A-Za-z]`. */
  predicate IsAsciiLetter(c: char) {
    ('A' <= c <= 'Z') || ('a' <= c <= 'z')
  }

  predicate IsStar(c: char) {
    c == '*'
  }

  /** Every character of `s` satisfies `p`. */
  predicate All(s: string, p: char -> bool) {
    forall i | 0 <= i < |s| :: p(s[i])
  }

  /** Length of the longest prefix of `s` made of characters satisfying `p`. */
  function PrefixRun(s: string, p: char -> bool): (n: nat)
    ensures n <= |s|
    ensures All(s[..n], p)
    ensures n < |s| ==> !p(s[n])
  {
    if s == [] || !p(s[0]) then 0 else 1 + PrefixRun(s[1..], p)
  }

  /** Length of the longest suffix of `s` made of characters satisfying `p`. */
  function SuffixRun(s: string, p: char -> bool): (n: nat)
    ensures n <= |s|
    ensures All(s[|s| - n..], p)
    ensures n < |s| ==> !p(s[|s| - n - 1])
  {
    if s == [] || !p(s[|s| - 1]) then 0 else 1 + SuffixRun(s[..|s| - 1], p)
  }

  /** A prefix whose characters all satisfy `p` is no longer than the run. */
  lemma PrefixRunIsLongest(s: string, p: char -> bool, m: nat)
    requires m <= |s| && All(s[..m], p)
    ensures m <= PrefixRun(s, p)
  {
    forall i | 0 <= i < m
      ensures p(s[i])
    {
      assert s[..m][i] == s[i];
    }
  }

  /** The run stops at the first character that does not satisfy `p`. */
  lemma {:induction false} PrefixRunStopsAt(s: string, p: char -> bool, m: nat)
    requires m < |s| && !p(s[m])
    ensures PrefixRun(s, p) <= m
  {
    if m > 0 && p(s[0]) {
      PrefixRunStopsAt(s[1..], p, m - 1);
    }
  }

  /** Python's `str.strip()`: `s` without its leading and its trailing
      whitespace. */
  function Strip(s: string): (r: string)
    ensures |r| <= |s|
  {
    var rest := s[PrefixRun(s, IsSpace)..];
    rest[..|rest| - SuffixRun(rest, IsSpace)]
  }

  /** `s` neither begins nor ends with whitespace. */
  predicate Trimmed(s: string) {
    s == [] || (!IsSpace(s[0]) && !IsSpace(s[|s| - 1]))
  }

  /** `r` is `s[k..k + |r|]`, everything around it is whitespace, and its
      ends are not. */
  predicate IsStrippedSlice(s: string, k: nat, r: string) {
    && k + |r| <= |s|
    && r == s[k..k + |r|]
    && All(s[..k], IsSpace)
    && All(s[k + |r|..], IsSpace)
    && Trimmed(r)
  }

  /** Stripping takes a slice: the text after the leading whitespace, cut
      short before the trailing whitespace. */
  lemma StripIsSlice(s: string)
    ensures PrefixRun(s, IsSpace) + |Strip(s)| <= |s|
    ensures Strip(s) == s[PrefixRun(s, IsSpace)..PrefixRun(s, IsSpace) + |Strip(s)|]
  {
  }

  /** What stripping leaves, stated so that it determines the result. */
  lemma StripCharacterised(s: string)
    ensures IsStrippedSlice(s, PrefixRun(s, IsSpace), Strip(s))
  {
    StripIsSlice(s);
    StripTrailing(s);
    StripEnds(s);
  }

  /** Everything after the stripped text is whitespace. */
  lemma StripTrailing(s: string)
    ensures PrefixRun(s, IsSpace) + |Strip(s)| <= |s|
    ensures All(s[PrefixRun(s, IsSpace) + |Strip(s)|..], IsSpace)
  {
    var k := PrefixRun(s, IsSpace);
    var rest := s[k..];
    var m := SuffixRun(rest, IsSpace);
    assert |Strip(s)| == |rest| - m;
    assert s[k + |rest| - m..] == rest[|rest| - m..];
  }

  lemma StripEnds(s: string)
    ensures Trimmed(Strip(s))
  {
    var k := PrefixRun(s, IsSpace);
    var rest := s[k..];
    var m := SuffixRun(rest, IsSpace);
    var r := rest[..|rest| - m];
    assert r == Strip(s);
    if r != [] {
      assert r[0] == rest[0] == s[k];
      assert r[|r| - 1] == rest[|rest| - m - 1];
    }
  }

  /** A string made only of whitespace strips to the empty string. */
  lemma StripAllSpace(s: string)
    requires All(s, IsSpace)
    ensures Strip(s) == ""
  {
    assert s[..|s|] == s;
    PrefixRunIsLongest(s, IsSpace, |s|);
    StripCharacterised(s);
  }

  /** Python's `str.lower()` on ASCII letters; every other character is kept. */
  function LowerChar(c: char): (d: char)
    ensures IsAsciiLetter(c) ==> IsAsciiLetter(d) && 'a' <= d <= 'z'
    ensures !('A' <= c <= 'Z') ==> d == c
  {
    if 'A' <= c <= 'Z' then (c as int - 'A' as int + 'a' as int) as char else c
  }

  function Lower(s: string): (r: string)
    ensures |r| == |s|
  {
    if s == [] then [] else [LowerChar(s[0])] + Lower(s[1..])
  }

  /** Lower-casing works character by character. */
  lemma {:induction false} LowerAt(s: string)
    ensures forall i | 0 <= i < |s| :: Lower(s)[i] == LowerChar(s[i])
  {
    if s != [] {
      LowerAt(s[1..]);
    }
  }

  /** Python's `s.startswith(prefix)`. */
  predicate StartsWith(s: string, prefix: string) {
    |prefix| <= |s| && s[..|prefix|] == prefix
  }

  /** Python's `sep.join(parts)`. */
  function Join(parts: seq<string>, sep: string): string
    decreases |parts|
  {
    if |parts| == 0 then ""
    else if |parts| == 1 then parts[0]
    else parts[0] + sep + Join(parts[1..], sep)
  }

  function TotalLength(parts: seq<string>): nat {
    if parts == [] then 0 else |parts[0]| + TotalLength(parts[1..])
  }

  /** Joining with one separator between neighbours: the parts, in order,
      with exactly `|parts| - 1` separators added. */
  lemma {:induction false} JoinLength(parts: seq<string>)
    ensures |Join(parts, " ")| == if parts == [] then 0 else TotalLength(parts) + |parts| - 1
  {
    if |parts| > 1 {
      JoinLength(parts[1..]);
    }
  }

  /** Joining a sequence that grows at the end appends one separator and the
      new part: the parts appear in the order given. */
  lemma {:induction false} JoinSnoc(parts: seq<string>, x: string, sep: string)
    requires parts != []
    ensures Join(parts + [x], sep) == Join(parts, sep) + sep + x
  {
    if |parts| == 1 {
      assert parts + [x] == [parts[0], x];
      assert Join([x], sep) == x;
    } else {
      assert (parts + [x])[1..] == parts[1..] + [x];
      JoinSnoc(parts[1..], x, sep);
    }
  }

  /** Number of occurrences of `c` in `s`. */
  function Count(s: string, c: char): nat {
    if s == [] then 0 else (if s[0] == c then 1 else 0) + Count(s[1..], c)
  }

  lemma {:induction false} CountAtMostLength(s: string, c: char)
    ensures Count(s, c) <= |s|
  {
    if s != [] {
      CountAtMostLength(s[1..], c);
    }
  }

  /** `a` is obtained from `b` by deleting characters. */
  predicate IsSubsequence(a: string, b: string)
    decreases |b|
  {
    if a == [] then true
    else if b == [] then false
    else (a[0] == b[0] && IsSubsequence(a[1..], b[1..])) || IsSubsequence(a, b[1..])
  }

  lemma {:induction false} SubsequenceLength(a: string, b: string)
    requires IsSubsequence(a, b)
    ensures |a| <= |b|
    decreases |b|
  {
    if a != [] {
      if a[0] == b[0] && IsSubsequence(a[1..], b[1..]) {
        SubsequenceLength(a[1..], b[1..]);
      } else {
        SubsequenceLength(a, b[1..]);
      }
    }
  }

  lemma {:induction false} SubsequenceReflexive(a: string)
    ensures IsSubsequence(a, a)
  {
    if a != [] {
      SubsequenceReflexive(a[1..]);
    }
  }

  /** Deletions on two neighbouring pieces are a deletion on the whole. */
  lemma {:induction false} SubsequenceConcat(a1: string, b1: string, a2: string, b2: string)
    requires IsSubsequence(a1, b1) && IsSubsequence(a2, b2)
    ensures IsSubsequence(a1 + a2, b1 + b2)
    decreases |b1|
  {
    if a1 == [] {
      assert a1 + a2 == a2;
      SubsequenceWiden(a2, b1, b2);
    } else if a1[0] == b1[0] && IsSubsequence(a1[1..], b1[1..]) {
      SubsequenceConcat(a1[1..], b1[1..], a2, b2);
      assert (a1 + a2)[1..] == a1[1..] + a2;
      assert (b1 + b2)[1..] == b1[1..] + b2;
    } else {
      SubsequenceConcat(a1, b1[1..], a2, b2);
      assert (b1 + b2)[1..] == b1[1..] + b2;
    }
  }

  /** Deletions on the two sides of a cut are a deletion on the whole; a
      single character is kept by deleting nothing. */
  lemma SubsequenceSplit(a1: string, a2: string, s: string, n: nat)
    requires n <= |s|
    requires IsSubsequence(a1, s[..n]) || a1 == s[..n]
    requires IsSubsequence(a2, s[n..])
    ensures IsSubsequence(a1 + a2, s)
  {
    if a1 == s[..n] {
      SubsequenceReflexive(a1);
    }
    SubsequenceConcat(a1, s[..n], a2, s[n..]);
    assert s[..n] + s[n..] == s;
  }

  /** Characters put in front of `b` can all be deleted again. */
  lemma {:induction false} SubsequenceWiden(a: string, c: string, b: string)
    requires IsSubsequence(a, b)
    ensures IsSubsequence(a, c + b)
    decreases |c|
  {
    if c == [] {
      assert c + b == b;
    } else if a != [] {
      SubsequenceWiden(a, c[1..], b);
      assert (c + b)[1..] == c[1..] + b;
    }
  }

  lemma {:induction false} SubsequenceTransitive(a: string, b: string, c: string)
    requires IsSubsequence(a, b) && IsSubsequence(b, c)
    ensures IsSubsequence(a, c)
    decreases |c|
  {
    if a != [] {
      assert b != [] && c != [];
      if b[0] == c[0] && IsSubsequence(b[1..], c[1..]) {
        if a[0] == b[0] && IsSubsequence(a[1..], b[1..]) {
          SubsequenceTransitive(a[1..], b[1..], c[1..]);
        } else {
          SubsequenceTransitive(a, b[1..], c[1..]);
        }
      } else {
        SubsequenceTransitive(a, b, c[1..]);
      }
    }
  }

  /** Deleting characters keeps a property every character has. */
  lemma {:induction false} SubsequenceAll(a: string, b: string, p: char -> bool)
    requires IsSubsequence(a, b) && All(b, p)
    ensures All(a, p)
    decreases |b|
  {
    if a != [] {
      if a[0] == b[0] && IsSubsequence(a[1..], b[1..]) {
        SubsequenceAll(a[1..], b[1..], p);
        assert forall i | 1 <= i < |a| :: a[i] == a[1..][i - 1];
      } else {
        SubsequenceAll(a, b[1..], p);
      }
    }
  }

  /** A prefix is a subsequence of the string it was taken from. */
  lemma {:induction false} SubsequencePrefix(s: string, k: nat)
    requires k <= |s|
    ensures IsSubsequence(s[..k], s)
  {
    if k > 0 {
      SubsequencePrefix(s[1..], k - 1);
      assert s[..k][1..] == s[1..][..k - 1];
    }
  }

  /** A slice is a subsequence of the string it was taken from. */
  lemma SubsequenceSlice(s: string, i: nat, j: nat)
    requires i <= j <= |s|
    ensures IsSubsequence(s[i..j], s)
  {
    var rest := s[i..];
    SubsequencePrefix(rest, j - i);
    assert rest[..j - i] == s[i..j];
    SubsequenceWiden(s[i..j], s[..i], rest);
    assert s[..i] + rest == s;
  }
}
