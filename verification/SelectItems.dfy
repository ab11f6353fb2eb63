/** Splitting a select list at its top-level commas. */
module SelectItems {
  import Sequences
  import opened Text
  import opened Quotes

  /** Index of the first comma outside literals and parentheses, or `|s|`; double quotes mean nothing here. */
  function FirstComma(s: string, inSingle: bool, depth: int): (k: nat)
    ensures k <= |s|
  {
    if s == "" || (s[0] == ',' && !inSingle && depth == 0) then 0
    else 1 + FirstComma(s[1..], InSingleAfter(s[0], inSingle), DepthAfter(s[0], inSingle, depth))
  }

  function InSingleAfter(c: char, inSingle: bool): bool {
    if c == '\'' then !inSingle else inSingle
  }

  function DepthAfter(c: char, inSingle: bool, depth: int): int {
    if inSingle then depth else if c == '(' then depth + 1 else if c == ')' then depth - 1 else depth
  }

  /** Every piece before a comma is kept, even an empty one; the last piece only if it is not empty. */
  function Items(s: string): seq<string>
    decreases |s|
  {
    var k := FirstComma(s, false, 0);
    if k < |s| then [Trim(s[..k])] + Items(s[k + 1..]) else Keep(Trim(s))
  }

  ghost predicate Unsplit(list: string, start: nat, idx: nat, inSingle: bool, depth: int)
    requires start <= idx <= |list|
  {
    idx - start + FirstComma(list[idx..], inSingle, depth) == FirstComma(list[start..], false, 0)
  }

  lemma Advance(list: string, start: nat, idx: nat, inSingle: bool, depth: int)
    requires start <= idx < |list| && Unsplit(list, start, idx, inSingle, depth)
    requires !(list[idx] == ',' && !inSingle && depth == 0)
    ensures Unsplit(list, start, idx + 1, InSingleAfter(list[idx], inSingle), DepthAfter(list[idx], inSingle, depth))
  {
    assert list[idx..][1..] == list[idx + 1..];
  }

  lemma Slices(list: string, start: nat, idx: nat)
    requires start <= idx < |list|
    ensures list[start..][..idx - start] == list[start..idx]
    ensures list[start..][idx - start + 1..] == list[idx + 1..]
  {
  }

  lemma ItemsAt(list: string, start: nat, idx: nat)
    requires start <= idx < |list| && FirstComma(list[start..], false, 0) == idx - start
    ensures Items(list[start..]) == [Trim(list[start..idx])] + Items(list[idx + 1..])
  {
    hide FirstComma, Trim;
    Slices(list, start, idx);
  }

  lemma CutHere(list: string, start: nat, idx: nat, items: seq<string>)
    requires start <= idx < |list| && Unsplit(list, start, idx, false, 0) && list[idx] == ','
    ensures items + [Trim(list[start..idx])] + Items(list[idx + 1..]) == items + Items(list[start..])
    ensures Unsplit(list, idx + 1, idx + 1, false, 0)
  {
    assert FirstComma(list[start..], false, 0) == idx - start;
    hide FirstComma, Trim, Items;
    ItemsAt(list, start, idx);
    Sequences.Assoc(items, [Trim(list[start..idx])], Items(list[idx + 1..]));
  }

  lemma LastItem(list: string, start: nat, inSingle: bool, depth: int)
    requires start <= |list| && Unsplit(list, start, |list|, inSingle, depth)
    ensures Items(list[start..]) == Keep(Trim(list[start..]))
  {
  }

  method SplitSelectItems(selectList: string) returns (items: seq<string>)
    ensures items == Items(selectList)
  {
    hide FirstComma, Items, Trim, Unsplit;
    items := [];
    var start := 0;
    var depth, inSingle := 0, false;
    ghost var all := Items(selectList);
    StartsUnsplit(selectList);
    for idx := 0 to |selectList|
      invariant 0 <= start <= idx
      invariant items + Items(selectList[start..]) == all
      invariant Unsplit(selectList, start, idx, inSingle, depth)
    {
      var ch := selectList[idx];
      if ch == ',' && !inSingle && depth == 0 {
        CutHere(selectList, start, idx, items);
        items := items + [Trim(selectList[start..idx])];
        start := idx + 1;
      } else {
        Advance(selectList, start, idx, inSingle, depth);
        if ch == '\'' {
          inSingle := !inSingle;
        } else if ch == '(' && !inSingle {
          depth := depth + 1;
        } else if ch == ')' && !inSingle {
          depth := depth - 1;
        }
      }
    }
    LastItem(selectList, start, inSingle, depth);
    var tail := Trim(selectList[start..]);
    if tail != "" {
      items := items + [tail];
    }
  }

  lemma StartsUnsplit(list: string)
    ensures list[0..] == list && Unsplit(list, 0, 0, false, 0)
    ensures [] + Items(list) == Items(list)
  {
  }

  /** On text without double quotes and parentheses this scanner cuts where the other quote scanners cut. */
  lemma {:induction false} CommaScannersAgree(s: string, inSingle: bool)
    requires forall i | 0 <= i < |s| :: s[i] != '"' && s[i] != '(' && s[i] != ')'
    ensures FirstComma(s, inSingle, 0) == FirstTop(s, if inSingle then InSingle else Out, ',')
  {
    if s != "" {
      CommaScannersAgree(s[1..], InSingleAfter(s[0], inSingle));
    }
  }

  // ---- What the scanner takes for literals, depth and cuts ----

  /** The literal flag after reading `s`; double quotes mean nothing. */
  function ScanSingle(s: string, inSingle: bool): bool {
    if s == "" then inSingle else ScanSingle(s[1..], InSingleAfter(s[0], inSingle))
  }

  /** The depth of parentheses after reading `s`. */
  function Depth(s: string, inSingle: bool, depth: int): int {
    if s == "" then depth else Depth(s[1..], InSingleAfter(s[0], inSingle), DepthAfter(s[0], inSingle, depth))
  }

  /** The item ends at the first comma that stands outside literals at depth 0. */
  lemma {:induction false} FirstCommaIsFirst(s: string, inSingle: bool, depth: int)
    ensures var k := FirstComma(s, inSingle, depth);
            && (k < |s| ==> s[k] == ',' && !ScanSingle(s[..k], inSingle) && Depth(s[..k], inSingle, depth) == 0)
            && forall i | 0 <= i < k ::
                 !(s[i] == ',' && !ScanSingle(s[..i], inSingle) && Depth(s[..i], inSingle, depth) == 0)
  {
    if s == "" || (s[0] == ',' && !inSingle && depth == 0) {
    } else {
      var k, rest := FirstComma(s, inSingle, depth), s[1..];
      var b, d := InSingleAfter(s[0], inSingle), DepthAfter(s[0], inSingle, depth);
      FirstCommaIsFirst(rest, b, d);
      if k < |s| {
        assert s[..k][1..] == rest[..k - 1];
      }
      forall i | 0 <= i < k
        ensures !(s[i] == ',' && !ScanSingle(s[..i], inSingle) && Depth(s[..i], inSingle, depth) == 0)
      {
        if i > 0 {
          assert s[..i][1..] == rest[..i - 1] && rest[i - 1] == s[i];
        }
      }
    }
  }

  /** It sees the same literals as the others on text without double quotes. */
  lemma {:induction false} SingleScannerAgrees(s: string, inSingle: bool)
    requires '"' !in s
    ensures ScanSingle(s, inSingle) == Scan(s, if inSingle then InSingle else Out).InSingle?
  {
    if s != "" {
      SingleScannerAgrees(s[1..], InSingleAfter(s[0], inSingle));
    }
  }

  /** A single quote stands inside a delimited identifier. */
  ghost predicate QuoteInIdentifier(s: string) {
    exists i | 0 <= i < |s| :: s[i] == '\'' && Scan(s[..i], Out) == InDouble
  }

  lemma {:induction false} ScanSingleSnoc(s: string, c: char, inSingle: bool)
    ensures ScanSingle(s + [c], inSingle) == (if c == '\'' then !ScanSingle(s, inSingle) else ScanSingle(s, inSingle))
  {
    if s == "" {
      assert (s + [c])[1..] == "";
    } else {
      assert (s + [c])[1..] == s[1..] + [c];
      ScanSingleSnoc(s[1..], c, InSingleAfter(s[0], inSingle));
    }
  }

  lemma PrefixStep(s: string, i: nat)
    requires i < |s|
    ensures Scan(s[..i + 1], Out) == Next(Scan(s[..i], Out), s[i])
    ensures var before := ScanSingle(s[..i], false);
            ScanSingle(s[..i + 1], false) == if s[i] == '\'' then !before else before
  {
    assert s[..i + 1] == s[..i] + [s[i]];
    ScanSingleSnoc(s[..i], s[i], false);
    ScanAppend(s[..i], [s[i]], Out);
    assert [s[i]][1..] == "";
  }

  lemma {:induction false} SinglePrefix(s: string, i: nat)
    requires i <= |s| && !QuoteInIdentifier(s)
    ensures ScanSingle(s[..i], false) == Scan(s[..i], Out).InSingle?
  {
    if i > 0 {
      SinglePrefix(s, i - 1);
      PrefixStep(s, i - 1);
    }
  }

  /** It sees the same literals up to every position exactly if no delimited identifier holds a single quote. */
  lemma SingleScannerExact(s: string)
    ensures !QuoteInIdentifier(s) <==>
              forall i | 0 <= i <= |s| :: ScanSingle(s[..i], false) == Scan(s[..i], Out).InSingle?
  {
    if QuoteInIdentifier(s) {
      var i :| 0 <= i < |s| && s[i] == '\'' && Scan(s[..i], Out) == InDouble;
      PrefixStep(s, i);
      assert ScanSingle(s[..i], false) ==> ScanSingle(s[..i], false) != Scan(s[..i], Out).InSingle?;
    } else {
      forall i | 0 <= i <= |s|
        ensures ScanSingle(s[..i], false) == Scan(s[..i], Out).InSingle?
      {
        SinglePrefix(s, i);
      }
    }
  }

  /** Depth as a reader counts it who knows both kinds of quotes. */
  function TrueDepth(s: string, q: Quote, depth: int): int {
    if s == "" then depth else
      var deeper := if q == Out && s[0] == '(' then 1 else if q == Out && s[0] == ')' then -1 else 0;
      TrueDepth(s[1..], Next(q, s[0]), depth + deeper)
  }

  lemma {:induction false} DepthSnoc(s: string, c: char, inSingle: bool, depth: int)
    ensures Depth(s + [c], inSingle, depth) == DepthAfter(c, ScanSingle(s, inSingle), Depth(s, inSingle, depth))
  {
    if s == "" {
      assert (s + [c])[1..] == "";
    } else {
      assert (s + [c])[1..] == s[1..] + [c];
      DepthSnoc(s[1..], c, InSingleAfter(s[0], inSingle), DepthAfter(s[0], inSingle, depth));
    }
  }

  lemma {:induction false} TrueDepthSnoc(s: string, c: char, q: Quote, depth: int)
    ensures var before := TrueDepth(s, q, depth);
            TrueDepth(s + [c], q, depth) == if Scan(s, q) != Out then before else DepthAfter(c, false, before)
  {
    if s == "" {
      assert (s + [c])[1..] == "";
    } else {
      assert (s + [c])[1..] == s[1..] + [c];
      TrueDepthSnoc(s[1..], c, Next(q, s[0]), if q != Out then depth else DepthAfter(s[0], false, depth));
    }
  }

  /** After reading `s` the scanner and such a reader are in the same literal and at the same depth. */
  predicate Tracks(s: string) {
    ScanSingle(s, false) == Scan(s, Out).InSingle? && Depth(s, false, 0) == TrueDepth(s, Out, 0)
  }

  /** They cut, or do not cut, at the same characters. */
  predicate SameCut(s: string, i: nat)
    requires i < |s|
  {
    (s[i] == ',' && !ScanSingle(s[..i], false) && Depth(s[..i], false, 0) == 0)
      <==> (s[i] == ',' && Scan(s[..i], Out) == Out && TrueDepth(s[..i], Out, 0) == 0)
  }

  /** Inside a delimited identifier, a single quote or a parenthesis, or a comma at depth 0. */
  predicate Disturbs(s: string, i: nat)
    requires i < |s|
  {
    && Scan(s[..i], Out) == InDouble
    && (s[i] == '\'' || s[i] == '(' || s[i] == ')' || (s[i] == ',' && TrueDepth(s[..i], Out, 0) == 0))
  }

  lemma TracksStep(s: string, i: nat)
    requires i < |s| && Tracks(s[..i])
    ensures Disturbs(s, i) <==> !(Tracks(s[..i + 1]) && SameCut(s, i))
  {
    PrefixStep(s, i);
    assert s[..i + 1] == s[..i] + [s[i]];
    DepthSnoc(s[..i], s[i], false, 0);
    TrueDepthSnoc(s[..i], s[i], Out, 0);
    hide ScanSingle, Scan, Depth, TrueDepth;
  }

  lemma {:induction false} TracksTo(s: string, i: nat)
    requires i <= |s| && forall j | 0 <= j < i :: !Disturbs(s, j)
    ensures Tracks(s[..i])
  {
    if i > 0 {
      TracksTo(s, i - 1);
      TracksStep(s, i - 1);
    } else {
      assert s[..0] == "";
    }
  }

  /**
   At every position the scanner has the literals, the depth and the cuts of a reader who knows delimited identifiers
   if and only if no delimited identifier holds a single quote, a parenthesis or, at depth 0, a comma.
   */
  lemma ItemScannerExact(s: string)
    ensures (forall i | 0 <= i <= |s| :: Tracks(s[..i])) && (forall i | 0 <= i < |s| :: SameCut(s, i))
       <==> forall i | 0 <= i < |s| :: !Disturbs(s, i)
  {
    if forall i | 0 <= i < |s| :: !Disturbs(s, i) {
      forall i | 0 <= i <= |s|
        ensures Tracks(s[..i]) && (i < |s| ==> SameCut(s, i))
      {
        TracksTo(s, i);
        if i < |s| {
          TracksStep(s, i);
        }
      }
    } else {
      var i :| 0 <= i < |s| && Disturbs(s, i);
      if Tracks(s[..i]) {
        TracksStep(s, i);
      }
    }
  }

  /** An item with closed literals and balanced parentheses that holds no comma of its own. */
  predicate Whole(s: string, inSingle: bool, depth: int) {
    if s == "" then !inSingle && depth == 0 else
      && !(s[0] == ',' && !inSingle && depth == 0)
      && Whole(s[1..], InSingleAfter(s[0], inSingle), DepthAfter(s[0], inSingle, depth))
  }

  lemma {:induction false} WholeStops(s: string, rest: string, inSingle: bool, depth: int)
    requires Whole(s, inSingle, depth)
    ensures FirstComma(s + "," + rest, inSingle, depth) == |s| && FirstComma(s, inSingle, depth) == |s|
  {
    var text := s + "," + rest;
    if s != "" {
      assert text[1..] == s[1..] + "," + rest;
      WholeStops(s[1..], rest, InSingleAfter(s[0], inSingle), DepthAfter(s[0], inSingle, depth));
    }
  }

  lemma ItemsCut(item: string, rest: string)
    requires Whole(item, false, 0) && Trimmed(item)
    ensures Items(item + "," + rest) == [item] + Items(rest)
    ensures Items(item) == Keep(item)
  {
    WholeStops(item, rest, false, 0);
    TrimPadded("", item, "");
    hide Trim, FirstComma, Whole;
    var text := item + "," + rest;
    assert "" + item + "" == item && item[..|item|] == item;
    assert text[..|item|] == item && text[|item| + 1..] == rest;
  }

  /** The list with its last item left out if that is empty. */
  ghost function WithoutEmptyLast(items: seq<string>): seq<string>
    requires items != []
  {
    if |items| == 1 then Keep(items[0]) else [items[0]] + WithoutEmptyLast(items[1..])
  }

  /** Splitting undoes joining with commas, commas in calls and literals included; an empty last item is lost. */
  lemma {:induction false} ItemsOfJoin(items: seq<string>)
    requires items != [] && forall item | item in items :: Whole(item, false, 0) && Trimmed(item)
    ensures Items(Join(items, ",")) == WithoutEmptyLast(items)
  {
    assert items[0] in items;
    ItemsCut(items[0], Join(items[1..], ","));
    hide Items, Whole, Trimmed;
    if |items| > 1 {
      ItemsOfJoin(items[1..]);
    }
  }
}
