/** Whole-word search, used to recognise catalog relation names in a query. */
module Words {
  import opened Wrappers
  import Text

  predicate IsIdentChar(c: char) {
    'a' <= c <= 'z' || 'A' <= c <= 'Z' || '0' <= c <= '9' || c == '_'
  }

  const LETTERS := "abcdefghijklmnopqrstuvwxyz"
  const DIGITS := "0123456789"

  lemma LettersExact(c: char)
    ensures 'a' <= c <= 'z' <==> c in LETTERS
  {
  }

  lemma DigitsExact(c: char)
    ensures '0' <= c <= '9' <==> c in DIGITS
  {
  }

  /** The ASCII letters and digits and the underscore. */
  lemma IdentCharExact(c: char)
    ensures IsIdentChar(c) <==> c == '_' || c in DIGITS || Text.ToAsciiLower(c) in LETTERS
  {
    LettersExact(Text.ToAsciiLower(c));
    DigitsExact(c);
    hide LETTERS, DIGITS;
  }

  predicate OccursAt(haystack: string, needle: string, i: nat) {
    i + |needle| <= |haystack| && haystack[i..i + |needle|] == needle
  }

  /** No identifier character stands directly before or after the occurrence at `i`. */
  predicate Bounded(haystack: string, needle: string, i: nat)
    requires i + |needle| <= |haystack|
  {
    && !(i > 0 && IsIdentChar(haystack[i - 1]))
    && !(i + |needle| < |haystack| && IsIdentChar(haystack[i + |needle|]))
  }

  /** What a whole-word search promises. */
  ghost predicate HasWord(haystack: string, needle: string) {
    exists i: nat :: OccursAt(haystack, needle, i) && Bounded(haystack, needle, i)
  }

  /** `str::find` from position `from`: the first occurrence. */
  function Find(haystack: string, needle: string, from: nat): (r: Option<nat>)
    ensures r.Some? ==> from <= r.value && OccursAt(haystack, needle, r.value)
    ensures forall i: nat | from <= i && (r.Some? ==> i < r.value) :: !OccursAt(haystack, needle, i)
    decreases |haystack| - from
  {
    if from > |haystack| then None
    else if OccursAt(haystack, needle, from) then Some(from)
    else Find(haystack, needle, from + 1)
  }

  /** What the search loop answers from `start` on: after a rejected occurrence it resumes behind it. */
  function Skipping(haystack: string, needle: string, start: nat): bool
    requires needle != ""
    decreases |haystack| + 1 - start
  {
    match Find(haystack, needle, start)
    case None => false
    case Some(i) => Bounded(haystack, needle, i) || Skipping(haystack, needle, i + |needle|)
  }

  method ContainsWord(haystack: string, needle: string) returns (found: bool)
    requires needle != ""
    ensures found == Skipping(haystack, needle, 0)
  {
    hide Find;
    var first := Find(haystack, needle, 0);
    if first == None {
      return false;
    }
    var start := first.value;
    var matched := Find(haystack, needle, start);
    while matched.Some?
      invariant matched == Find(haystack, needle, start)
      invariant Skipping(haystack, needle, 0) == Skipping(haystack, needle, start)
      decreases |haystack| + 1 - start
    {
      var matchStart := matched.value;
      var matchEnd := matchStart + |needle|;
      var before := matchStart > 0 && IsIdentChar(haystack[matchStart - 1]);
      var after := matchEnd < |haystack| && IsIdentChar(haystack[matchEnd]);
      if !before && !after {
        return true;
      }
      start := matchEnd;
      matched := Find(haystack, needle, start);
    }
    return false;
  }

  /** The needle overlaps itself when moved by `d`. */
  ghost predicate SelfOverlap(needle: string, d: nat) {
    0 < d < |needle| && needle[d..] == needle[..|needle| - d]
  }

  /** Every overlap of the needle with itself continues a word. */
  ghost predicate OverlapsInsideWords(needle: string) {
    forall d: nat | SelfOverlap(needle, d) :: IsIdentChar(needle[d - 1])
  }

  /** An occurrence that overlaps an earlier one is never word-bounded. */
  lemma OverlapIsUnbounded(haystack: string, needle: string, i: nat, j: nat)
    requires OverlapsInsideWords(needle)
    requires OccursAt(haystack, needle, i) && OccursAt(haystack, needle, j) && i < j < i + |needle|
    ensures !Bounded(haystack, needle, j)
  {
    var d := j - i;
    assert needle[d..] == haystack[i..i + |needle|][d..] == haystack[j..i + |needle|];
    assert needle[..|needle| - d] == haystack[j..j + |needle|][..|needle| - d] == haystack[j..i + |needle|];
    assert SelfOverlap(needle, d);
    assert haystack[j - 1] == haystack[i..i + |needle|][d - 1];
  }

  lemma {:induction false} SkippingFindsWords(haystack: string, needle: string, start: nat)
    requires needle != "" && OverlapsInsideWords(needle)
    ensures Skipping(haystack, needle, start) <==>
              exists i: nat :: start <= i && OccursAt(haystack, needle, i) && Bounded(haystack, needle, i)
    decreases |haystack| + 1 - start
  {
    hide Find, Bounded;
    var r := Find(haystack, needle, start);
    if r.Some? {
      SkippingFindsWords(haystack, needle, r.value + |needle|);
      forall j: nat | r.value < j < r.value + |needle| && OccursAt(haystack, needle, j)
        ensures !Bounded(haystack, needle, j)
      {
        OverlapIsUnbounded(haystack, needle, r.value, j);
      }
    }
  }

  /** For a needle of identifier characters the search is exact, although it skips overlapping occurrences. */
  lemma IdentifierSearchExact(haystack: string, needle: string)
    requires needle != "" && forall i | 0 <= i < |needle| :: IsIdentChar(needle[i])
    ensures Skipping(haystack, needle, 0) <==> HasWord(haystack, needle)
  {
    SkippingFindsWords(haystack, needle, 0);
  }

  lemma OverlappedText(needle: string, d: nat, x: char)
    requires SelfOverlap(needle, d) && x != needle[0]
    ensures var h := [x] + needle[..d] + needle;
            !OccursAt(h, needle, 0) && OccursAt(h, needle, 1) && OccursAt(h, needle, 1 + d) && h[d] == needle[d - 1]
  {
    var n, h := |needle|, [x] + needle[..d] + needle;
    assert h[1 + d..1 + d + n] == needle;
    assert h[1..1 + n] == needle[..d] + needle[..n - d] == needle[..d] + needle[d..] == needle;
    assert h[0..n][0] == x;
  }

  /** A needle that overlaps itself at a word boundary hides an occurrence from the search. */
  lemma HiddenOccurrence(needle: string, d: nat) returns (haystack: string)
    requires SelfOverlap(needle, d) && !IsIdentChar(needle[d - 1])
    ensures HasWord(haystack, needle) && !Skipping(haystack, needle, 0)
  {
    var x := if needle[0] == 'a' then 'b' else 'a';
    haystack := [x] + needle[..d] + needle;
    OverlappedText(needle, d, x);
    hide Find, Skipping, OccursAt, SelfOverlap;
    assert OccursAt(haystack, needle, 1 + d) && Bounded(haystack, needle, 1 + d);
    assert Find(haystack, needle, 0) == Some(1);
    assert !Bounded(haystack, needle, 1);
    NoneLeft(haystack, needle, 1 + |needle|);
    SkippingStep(haystack, needle, 0);
    SkippingStep(haystack, needle, 1 + |needle|);
  }

  lemma NoneLeft(haystack: string, needle: string, from: nat)
    requires |haystack| < from + |needle|
    ensures Find(haystack, needle, from) == None
  {
    hide Find;
  }

  lemma SkippingStep(haystack: string, needle: string, start: nat)
    requires needle != ""
    ensures var r := Find(haystack, needle, start);
            Skipping(haystack, needle, start) <==>
              r.Some? && (Bounded(haystack, needle, r.value) || Skipping(haystack, needle, r.value + |needle|))
  {
  }

  /** Exactly the needles for which the search is right on every haystack. */
  lemma SearchExact(needle: string)
    requires needle != ""
    ensures OverlapsInsideWords(needle) <==>
              forall haystack: string :: Skipping(haystack, needle, 0) <==> HasWord(haystack, needle)
  {
    if OverlapsInsideWords(needle) {
      forall haystack: string
        ensures Skipping(haystack, needle, 0) <==> HasWord(haystack, needle)
      {
        SkippingFindsWords(haystack, needle, 0);
      }
    } else {
      var d: nat :| SelfOverlap(needle, d) && !IsIdentChar(needle[d - 1]);
      var haystack := HiddenOccurrence(needle, d);
    }
  }

  // ---- Words as the longest runs of identifier characters ----

  function RunLength(s: string): (n: nat)
    ensures n <= |s| && (s != "" && IsIdentChar(s[0]) ==> n > 0)
    ensures forall i | 0 <= i < n :: IsIdentChar(s[i])
    ensures n < |s| ==> !IsIdentChar(s[n])
  {
    if s == "" || !IsIdentChar(s[0]) then 0 else
      var n := RunLength(s[1..]);
      assert forall i | 0 < i < n + 1 :: s[i] == s[1..][i - 1];
      1 + n
  }

  /** The words of a text, in order. */
  function WordsOf(s: string): seq<string>
    decreases |s|
  {
    if s == "" then []
    else if IsIdentChar(s[0]) then [s[..RunLength(s)]] + WordsOf(s[RunLength(s)..])
    else WordsOf(s[1..])
  }

  predicate Identifier(needle: string) {
    needle != "" && forall i | 0 <= i < |needle| :: IsIdentChar(needle[i])
  }

  /** Dropping `n` characters moves an occurrence, and keeps its bounds unless an identifier is cut in front of it. */
  lemma Shifted(s: string, needle: string, n: nat, i: nat)
    requires n <= |s|
    ensures OccursAt(s[n..], needle, i) <==> OccursAt(s, needle, n + i)
    ensures OccursAt(s[n..], needle, i) && (i > 0 || n == 0 || !IsIdentChar(s[n - 1])) ==>
              (Bounded(s[n..], needle, i) <==> Bounded(s, needle, n + i))
  {
    if n + i + |needle| <= |s| {
      assert s[n..][i..i + |needle|] == s[n + i..n + i + |needle|];
    }
  }

  lemma PastGap(s: string, needle: string)
    requires Identifier(needle) && s != "" && !IsIdentChar(s[0])
    ensures HasWord(s, needle) <==> HasWord(s[1..], needle)
  {
    hide IsIdentChar;
    if i: nat :| OccursAt(s, needle, i) && Bounded(s, needle, i) {
      assert s[i..i + |needle|][0] == s[i];
      Shifted(s, needle, 1, i - 1);
    }
    if i: nat :| OccursAt(s[1..], needle, i) && Bounded(s[1..], needle, i) {
      Shifted(s, needle, 1, i);
      assert OccursAt(s, needle, 1 + i);
    }
  }

  /** A word that starts inside the run of identifier characters at the front of `s` is the whole run. */
  lemma InRun(s: string, needle: string, i: nat)
    requires Identifier(needle) && i < RunLength(s) && OccursAt(s, needle, i)
    ensures Bounded(s, needle, i) <==> i == 0 && needle == s[..RunLength(s)]
  {
    var n := RunLength(s);
    hide IsIdentChar, RunLength;
    forall k | 0 <= k < |needle|
      ensures s[i + k] == needle[k]
    {
      assert s[i..i + |needle|][k] == s[i + k];
    }
  }

  lemma WordPastRun(s: string, needle: string)
    requires Identifier(needle) && HasWord(s, needle) && needle != s[..RunLength(s)]
    ensures HasWord(s[RunLength(s)..], needle)
  {
    var n := RunLength(s);
    var i: nat :| OccursAt(s, needle, i) && Bounded(s, needle, i);
    FirstChar(s, needle, i);
    if i < n {
      InRun(s, needle, i);
    }
    hide *;
    Shifted(s, needle, n, i - n);
    assert OccursAt(s[n..], needle, i - n);
  }

  lemma WordBehindRun(s: string, needle: string)
    requires Identifier(needle) && HasWord(s[RunLength(s)..], needle)
    ensures HasWord(s, needle)
  {
    var n := RunLength(s);
    var i: nat :| OccursAt(s[n..], needle, i) && Bounded(s[n..], needle, i);
    FirstChar(s[n..], needle, i);
    assert i > 0 || n == 0;
    hide *;
    Shifted(s, needle, n, i);
    assert OccursAt(s, needle, n + i);
  }

  lemma PastRun(s: string, needle: string)
    requires Identifier(needle) && s != "" && IsIdentChar(s[0])
    ensures HasWord(s, needle) <==> needle == s[..RunLength(s)] || HasWord(s[RunLength(s)..], needle)
  {
    var n := RunLength(s);
    if needle == s[..n] {
      assert s[0..n] == s[..n];
      assert OccursAt(s, needle, 0);
      InRun(s, needle, 0);
    } else if HasWord(s, needle) {
      WordPastRun(s, needle);
    }
    if HasWord(s[n..], needle) {
      WordBehindRun(s, needle);
    }
  }

  lemma FirstChar(s: string, needle: string, i: nat)
    requires Identifier(needle) && OccursAt(s, needle, i)
    ensures i < |s| && IsIdentChar(s[i])
  {
    assert s[i..i + |needle|][0] == s[i];
  }

  /** Searching for an identifier says whether it is one of the words of the text. */
  lemma FindsWordsOf(haystack: string, needle: string)
    requires Identifier(needle)
    ensures Skipping(haystack, needle, 0) <==> needle in WordsOf(haystack)
  {
    IdentifierSearchExact(haystack, needle);
    HasWordOf(haystack, needle);
    hide *;
  }

  lemma {:induction false} HasWordOf(s: string, needle: string)
    requires Identifier(needle)
    ensures HasWord(s, needle) <==> needle in WordsOf(s)
    decreases |s|
  {
    if s == "" {
    } else if IsIdentChar(s[0]) {
      PastRun(s, needle);
      HasWordOf(s[RunLength(s)..], needle);
    } else {
      PastGap(s, needle);
      HasWordOf(s[1..], needle);
    }
    hide IsIdentChar, RunLength, OccursAt, Bounded;
  }
}
