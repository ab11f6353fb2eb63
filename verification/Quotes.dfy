/**
 The quoting state of SQL text. The gateway tracks it with several hand-written scanners; each is
 compared here with one reference, a toggle that flips on every quote character.
 */
module Quotes {
  import opened Text

  datatype Quote = Out | InSingle | InDouble

  predicate IsQuote(c: char) {
    c == '\'' || c == '"'
  }

  /** A single quote opens or closes a literal, a double quote a delimited identifier. */
  function Next(q: Quote, c: char): Quote {
    match q
    case Out => if c == '\'' then InSingle else if c == '"' then InDouble else Out
    case InSingle => if c == '\'' then Out else InSingle
    case InDouble => if c == '"' then Out else InDouble
  }

  /** The state after reading `s` from state `q`; before character `i` of a text it is `Scan(s[..i], Out)`. */
  function Scan(s: string, q: Quote): Quote {
    if s == "" then q else Scan(s[1..], Next(q, s[0]))
  }

  lemma {:induction false} ScanAppend(a: string, b: string, q: Quote)
    ensures Scan(a + b, q) == Scan(b, Scan(a, q))
  {
    if a == "" {
      assert a + b == b;
    } else {
      assert (a + b)[1..] == a[1..] + b;
      ScanAppend(a[1..], b, Next(q, a[0]));
    }
  }

  lemma {:induction false} ScanPlain(s: string, q: Quote)
    requires forall i | 0 <= i < |s| :: !IsQuote(s[i])
    ensures Scan(s, q) == q
  {
    if s != "" {
      ScanPlain(s[1..], q);
    }
  }

  /** Index of the first `c` outside quotes, or `|s|`. */
  function FirstTop(s: string, q: Quote, c: char): (k: nat)
    ensures k <= |s|
  {
    if s == "" || (s[0] == c && q == Out) then 0 else 1 + FirstTop(s[1..], Next(q, s[0]), c)
  }

  ghost predicate NoTop(s: string, q: Quote, c: char) {
    FirstTop(s, q, c) == |s|
  }

  /** `FirstTop` by position: it finds a `c` in state `Out`, and there is none before it. */
  lemma {:induction false} FirstTopIsFirst(s: string, q: Quote, c: char)
    ensures var k := FirstTop(s, q, c);
            && (k < |s| ==> s[k] == c && Scan(s[..k], q) == Out)
            && forall i | 0 <= i < k :: !(s[i] == c && Scan(s[..i], q) == Out)
  {
    if s == "" || (s[0] == c && q == Out) {
    } else {
      var k, rest, q' := FirstTop(s, q, c), s[1..], Next(q, s[0]);
      FirstTopIsFirst(rest, q', c);
      if k < |s| {
        assert s[..k][1..] == rest[..k - 1];
      }
      forall i | 0 <= i < k
        ensures !(s[i] == c && Scan(s[..i], q) == Out)
      {
        if i > 0 {
          assert s[..i][1..] == rest[..i - 1];
          assert rest[i - 1] == s[i];
        }
      }
    }
  }

  lemma {:induction false} NoTopAppend(a: string, b: string, q: Quote, c: char)
    ensures NoTop(a + b, q, c) <==> NoTop(a, q, c) && NoTop(b, Scan(a, q), c)
  {
    if a == "" {
      assert a + b == b;
    } else if !(a[0] == c && q == Out) {
      assert (a + b)[1..] == a[1..] + b;
      NoTopAppend(a[1..], b, Next(q, a[0]), c);
    }
  }

  lemma {:induction false} NoTopAbsent(s: string, q: Quote, c: char)
    requires c !in s
    ensures NoTop(s, q, c)
  {
    if s != "" {
      NoTopAbsent(s[1..], Next(q, s[0]), c);
    }
  }

  /** A separator-free piece that leaves the quotes closed is cut off exactly at the separator. */
  lemma {:induction false} FirstTopStop(a: string, b: string, q: Quote, c: char)
    requires NoTop(a, q, c) && Scan(a, q) == Out
    ensures FirstTop(a + [c] + b, q, c) == |a|
  {
    var s := a + [c] + b;
    if a != "" {
      assert s[1..] == a[1..] + [c] + b;
      FirstTopStop(a[1..], b, Next(q, a[0]), c);
    }
  }

  lemma {:induction false} FirstTopPrefix(s: string, q: Quote, c: char)
    ensures NoTop(s[..FirstTop(s, q, c)], q, c)
  {
    var k := FirstTop(s, q, c);
    if k > 0 {
      assert s[..k][1..] == s[1..][..k - 1];
      FirstTopPrefix(s[1..], Next(q, s[0]), c);
    }
  }

  lemma BlankScan(s: string, q: Quote, c: char)
    requires Blank(s) && !IsSpace(c)
    ensures Scan(s, q) == q && NoTop(s, q, c)
  {
    ScanPlain(s, q);
    NoTopAbsent(s, q, c);
  }

  lemma TrimmedNoTop(seg: string, c: char)
    requires NoTop(seg, Out, c) && !IsSpace(c)
    ensures Trimmed(Trim(seg)) && NoTop(Trim(seg), Out, c)
  {
    hide FirstTop, Trim, Scan;
    var lo, hi := TrimSpan(seg);
    var pre, mid, post := seg[..lo], seg[lo..hi], seg[hi..];
    assert seg == pre + (mid + post);
    BlankScan(pre, Out, c);
    NoTopAppend(pre, mid + post, Out, c);
    NoTopAppend(mid, post, Out, c);
  }

  /** A scan from `start` in state `Out` that has met no top-level `c` before `idx`, where its state is `q`. */
  ghost predicate Pending(text: string, start: nat, idx: nat, q: Quote, c: char)
    requires start <= idx <= |text|
  {
    idx - start + FirstTop(text[idx..], q, c) == FirstTop(text[start..], Out, c)
  }

  lemma Advance(text: string, start: nat, idx: nat, q: Quote, c: char)
    requires start <= idx < |text| && Pending(text, start, idx, q, c)
    requires !(text[idx] == c && q == Out)
    ensures Pending(text, start, idx + 1, Next(q, text[idx]), c)
  {
    assert text[idx..][1..] == text[idx + 1..];
  }

  /** Where the scan meets the character, or the end of the text. */
  lemma StopHere(text: string, start: nat, idx: nat, q: Quote, c: char)
    requires start <= idx <= |text| && Pending(text, start, idx, q, c)
    requires idx < |text| ==> text[idx] == c && q == Out
    ensures FirstTop(text[start..], Out, c) == idx - start
  {
  }

  /**
   The state a hand-written scanner assigns to each character. `skipSingle`/`skipDouble` say whether, inside
   such quotes, it consumes a doubled quote as one escape instead of toggling twice.
   */
  function Statuses(s: string, q: Quote, skipSingle: bool, skipDouble: bool): (st: seq<Quote>)
    ensures |st| == |s|
  {
    if s == "" then []
    else if skipSingle && q == InSingle && "''" <= s then [q, q] + Statuses(s[2..], q, skipSingle, skipDouble)
    else if skipDouble && q == InDouble && "\"\"" <= s then [q, q] + Statuses(s[2..], q, skipSingle, skipDouble)
    else [q] + Statuses(s[1..], Next(q, s[0]), skipSingle, skipDouble)
  }

  /** Whatever a scanner does with doubled quotes, it agrees with the toggle on every other character. */
  lemma {:induction false} ScannersAgree(s: string, q: Quote, skipSingle: bool, skipDouble: bool, i: nat)
    requires i < |s| && !IsQuote(s[i])
    ensures Statuses(s, q, skipSingle, skipDouble)[i] == Scan(s[..i], q)
    decreases |s|
  {
    if i > 0 {
      assert s[..i] == [s[0]] + s[1..i];
      if (skipSingle && q == InSingle && "''" <= s) || (skipDouble && q == InDouble && "\"\"" <= s) {
        assert s[1] == s[0] && i >= 2;
        assert s[..i][1..][1..] == s[2..][..i - 2];
        ScannersAgree(s[2..], q, skipSingle, skipDouble, i - 2);
      } else {
        assert s[..i][1..] == s[1..][..i - 1];
        ScannersAgree(s[1..], Next(q, s[0]), skipSingle, skipDouble, i - 1);
      }
    }
  }

  /** So a scanner of any kind stops at the first separator the toggle finds outside quotes. */
  lemma ScannersStopTogether(s: string, c: char, skipSingle: bool, skipDouble: bool)
    requires !IsQuote(c)
    ensures var k, st := FirstTop(s, Out, c), Statuses(s, Out, skipSingle, skipDouble);
            && (k < |s| ==> s[k] == c && st[k] == Out)
            && forall i | 0 <= i < k :: !(s[i] == c && st[i] == Out)
  {
    FirstTopIsFirst(s, Out, c);
    var k := FirstTop(s, Out, c);
    forall i | 0 <= i <= k && i < |s| && s[i] == c
      ensures Statuses(s, Out, skipSingle, skipDouble)[i] == Scan(s[..i], Out)
    {
      ScannersAgree(s, Out, skipSingle, skipDouble, i);
    }
  }

  /** Writing every single quote twice keeps the scanner inside the literal, with nothing at top level. */
  lemma {:induction false} DoubledStays(s: string, quote: char, c: char)
    requires IsQuote(quote) && !IsQuote(c)
    ensures var q := if quote == '\'' then InSingle else InDouble;
            Scan(Doubled(s, quote), q) == q && NoTop(Doubled(s, quote), q, c)
  {
    if s != "" {
      var q := if quote == '\'' then InSingle else InDouble;
      var d, rest := Doubled(s, quote), Doubled(s[1..], quote);
      DoubledStep(s, quote);
      DoubledStays(s[1..], quote, c);
      if s[0] == quote {
        assert d[1..] == [quote] + rest && d[1..][1..] == rest;
      } else {
        assert d[1..] == rest;
      }
    }
  }

  /** A quoted token: opened, doubled inside, closed. Unquoted before and after, no separator at top level. */
  lemma QuotedToken(s: string, quote: char, c: char)
    requires IsQuote(quote) && !IsQuote(c)
    ensures var t := [quote] + Doubled(s, quote) + [quote];
            Scan(t, Out) == Out && NoTop(t, Out, c)
  {
    var body, close := Doubled(s, quote), [quote];
    var q := if quote == '\'' then InSingle else InDouble;
    DoubledStays(s, quote, c);
    assert ([quote] + body + close)[1..] == body + close;
    ScanAppend(body, close, q);
    NoTopAppend(body, close, q, c);
    assert close[1..] == "";
  }
}
