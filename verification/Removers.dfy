/**
 The two comment removers side by side: stripping for detection respects quotes, cleaning for classification does
 not. On which texts do they take the same characters for comments?
 */
module Removers {
  import opened Sequences
  import opened Text
  import opened Quotes
  import opened Comments
  import opened Cleaning

  function Copies(n: nat, b: bool): (r: seq<bool>)
    ensures |r| == n && forall i | 0 <= i < n :: r[i] == b
  {
    seq(n, i => b)
  }

  /** Which characters the cleaning keeps. */
  function ErasedMask(s: string): (r: seq<bool>)
    ensures |r| == |s|
    decreases |s|
  {
    if s == "" then []
    else if CommentAt(s) > 0 then Copies(CommentAt(s), false) + ErasedMask(s[CommentAt(s)..])
    else [true] + ErasedMask(s[1..])
  }

  predicate Kept(ts: seq<Token>) {
    ts != [] && (ts[0].Quoted? || ts[0].Code?)
  }

  /** Which characters the stripping keeps. */
  function StrippedMask(s: string, m: Mode): (r: seq<bool>)
    ensures |r| == |s|
    decreases |s|
  {
    if s == "" then [] else
      var r := Step(s, m);
      Copies(r.used, Kept(r.tokens)) + StrippedMask(s[r.used..], r.next)
  }

  /** The same characters, white space aside. */
  ghost predicate Agree(s: string, a: seq<bool>, b: seq<bool>) {
    |a| == |s| == |b| && forall i | 0 <= i < |s| && !IsSpace(s[i]) :: a[i] == b[i]
  }

  lemma AgreeAppend(s: string, k: nat, x: seq<bool>, y: seq<bool>, a: seq<bool>, b: seq<bool>)
    requires k <= |s| && |x| == k == |y|
    ensures Agree(s, x + a, y + b) <==> Agree(s[..k], x, y) && Agree(s[k..], a, b)
  {
    if Agree(s, x + a, y + b) {
      forall i | 0 <= i < k && !IsSpace(s[..k][i])
        ensures x[i] == y[i]
      {
        assert x[i] == (x + a)[i] && y[i] == (y + b)[i] && s[..k][i] == s[i];
      }
      forall i | 0 <= i < |s| - k && !IsSpace(s[k..][i])
        ensures a[i] == b[i]
      {
        assert a[i] == (x + a)[k + i] && b[i] == (y + b)[k + i] && s[k..][i] == s[k + i];
      }
    }
    if Agree(s[..k], x, y) && Agree(s[k..], a, b) {
      forall i | 0 <= i < |s| && !IsSpace(s[i])
        ensures (x + a)[i] == (y + b)[i]
      {
        if i < k {
          assert s[..k][i] == s[i];
        } else {
          assert s[k..][i - k] == s[i];
        }
      }
    }
  }

  // ---- The cleaning in the middle of a comment ----

  predicate BlockCloses(s: string, previous: char) {
    s != "" && ((previous == '*' && s[0] == '/') || BlockCloses(s[1..], s[0]))
  }

  function BlockRest(s: string, previous: char): (n: nat)
    ensures n <= |s|
  {
    if s == "" then 0 else if previous == '*' && s[0] == '/' then 1 else 1 + BlockRest(s[1..], s[0])
  }

  lemma {:induction false} BlockRestCloser(s: string, previous: char)
    requires !(previous == '*' && s != "" && s[0] == '/')
    ensures BlockCloses(s, previous) <==> Closer(s) < |s|
    ensures BlockCloses(s, previous) ==> BlockRest(s, previous) == Closer(s) + 2
  {
    if s != "" && !Pair(s, '*', '/') {
      BlockRestCloser(s[1..], s[0]);
    }
  }

  /** What the cleaning keeps of `s` when the stripping stands in mode `m` and both have agreed so far. */
  function ErasedFrom(s: string, m: Mode): (r: seq<bool>)
    ensures |r| == |s|
  {
    match m
    case InLine => Copies(LineLength(s), false) + ErasedMask(s[LineLength(s)..])
    case InBlock(previous) => Copies(BlockRest(s, previous), false) + ErasedMask(s[BlockRest(s, previous)..])
    case _ => ErasedMask(s)
  }

  predicate Fine(s: string, m: Mode) {
    match m
    case InQuote(_) => CommentAt(s) == 0
    case Plain => Pair(s, '/', '*') ==> CommentAt(s) > 0
    case _ => true
  }

  /** No comment starts inside quotes, and every block comment outside them is closed. */
  predicate Calm(s: string, m: Mode)
    decreases |s|
  {
    s == "" || (Fine(s, m) && Calm(s[Step(s, m).used..], Step(s, m).next))
  }

  /** A carriage return stands in front of line feeds only. */
  predicate LineBreaks(s: string) {
    forall i | 0 <= i < |s| && s[i] == '\r' :: i + 1 < |s| && s[i + 1] == '\n'
  }

  ghost predicate Standing(s: string, m: Mode) {
    && (m.InQuote? ==> IsQuote(m.quote))
    && (m.InBlock? ==> BlockCloses(s, m.previous))
  }

  lemma CopiesSplit(k: nat, n: nat, b: bool)
    requires k <= n
    ensures Copies(n, b) == Copies(k, b) + Copies(n - k, b)
  {
  }

  lemma CopiesOne(b: bool)
    ensures Copies(1, b) == [b]
  {
  }

  /** One step of both, where they agree on it up to white space. */
  ghost predicate InStep(s: string, m: Mode)
    requires s != ""
  {
    var r := Step(s, m);
    exists y: seq<bool> :: |y| == r.used && ErasedFrom(s, m) == y + ErasedFrom(s[r.used..], r.next)
                        && Agree(s[..r.used], Copies(r.used, Kept(r.tokens)), y)
  }

  lemma StepsTogether(s: string, m: Mode, y: seq<bool>)
    requires s != "" && |y| == Step(s, m).used
    requires ErasedFrom(s, m) == y + ErasedFrom(s[Step(s, m).used..], Step(s, m).next)
    requires forall i | 0 <= i < |y| && !IsSpace(s[i]) :: y[i] == Kept(Step(s, m).tokens)
    ensures InStep(s, m)
  {
  }

  lemma QuoteStep(s: string, m: Mode)
    requires s != "" && m.InQuote? && IsQuote(m.quote) && CommentAt(s) == 0
    ensures InStep(s, m)
  {
    var r := Step(s, m);
    if r.used == 2 {
      var rest := ErasedMask(s[2..]);
      assert s[1..][1..] == s[2..];
      assert CommentAt(s[1..]) == 0;
      assert ErasedMask(s[1..]) == [true] + rest;
      assert ErasedMask(s) == [true] + ([true] + rest);
      assert [true] + ([true] + rest) == [true, true] + rest;
      StepsTogether(s, m, [true, true]);
    } else {
      StepsTogether(s, m, [true]);
    }
  }

  lemma CodeStep(s: string)
    requires s != "" && (IsQuote(s[0]) || !(Pair(s, '-', '-') || Pair(s, '/', '*')))
    ensures InStep(s, Plain) && Standing(s[Step(s, Plain).used..], Step(s, Plain).next)
  {
    assert CommentAt(s) == 0;
    StepsTogether(s, Plain, [true]);
  }

  lemma CommentMask(s: string)
    requires CommentAt(s) > 0
    ensures var n := CommentAt(s);
            ErasedMask(s) == Copies(2, false) + (Copies(n - 2, false) + ErasedMask(s[2..][n - 2..]))
  {
    var n := CommentAt(s);
    CopiesSplit(2, n, false);
    assert s[2..][n - 2..] == s[n..];
    Assoc(Copies(2, false), Copies(n - 2, false), ErasedMask(s[n..]));
  }

  lemma LineStarts(s: string)
    requires Pair(s, '-', '-')
    ensures InStep(s, Plain) && Standing(s[Step(s, Plain).used..], Step(s, Plain).next)
  {
    assert CommentAt(s) == 2 + LineLength(s[2..]) && Step(s, Plain) == Reading([Gap], 2, InLine);
    CommentMask(s);
    hide ErasedMask, CommentAt, Step;
    StepsTogether(s, Plain, Copies(2, false));
  }

  lemma BlockLength(s: string)
    requires Pair(s, '/', '*') && CommentAt(s) > 0
    ensures CommentAt(s) == 2 + BlockRest(s[2..], '\0') && BlockCloses(s[2..], '\0')
  {
    assert !Pair(s, '-', '-');
    BlockRestCloser(s[2..], '\0');
    hide BlockRest, BlockCloses, Closer;
  }

  lemma BlockStarts(s: string)
    requires Pair(s, '/', '*') && CommentAt(s) > 0
    ensures InStep(s, Plain) && Standing(s[Step(s, Plain).used..], Step(s, Plain).next)
  {
    assert Step(s, Plain) == Reading([Gap], 2, InBlock('\0'));
    hide ErasedMask, CommentAt, Step, BlockRest, BlockCloses, Copies;
    BlockLength(s);
    CommentMask(s);
    var n := CommentAt(s) - 2;
    assert ErasedFrom(s[2..], InBlock('\0')) == Copies(n, false) + ErasedMask(s[2..][n..]);
    StepsTogether(s, Plain, Copies(2, false));
  }

  lemma PlainStep(s: string)
    requires s != "" && Fine(s, Plain)
    ensures InStep(s, Plain) && Standing(s[Step(s, Plain).used..], Step(s, Plain).next)
  {
    hide InStep, Standing, CommentAt, Step;
    if Pair(s, '-', '-') {
      LineStarts(s);
    } else if Pair(s, '/', '*') {
      BlockStarts(s);
    } else {
      CodeStep(s);
    }
  }

  lemma LineStep(s: string)
    requires s != "" && LineBreaks(s)
    ensures InStep(s, InLine)
  {
    var n := LineLength(s);
    if n == 0 {
      assert s[0..] == s && Copies(0, false) == [];
      assert CommentAt(s) == 0;
      LineEnds(s[1..]);
      StepsTogether(s, InLine, [true]);
    } else {
      CopiesSplit(1, n, false);
      assert s[1..][n - 1..] == s[n..];
      Assoc(Copies(1, false), Copies(n - 1, false), ErasedMask(s[n..]));
      StepsTogether(s, InLine, Copies(1, false));
    }
  }

  lemma LineEnds(s: string)
    ensures s == "" || s[0] == '\n' ==> ErasedFrom(s, InLine) == ErasedMask(s)
  {
    if s == "" || s[0] == '\n' {
      assert s[0..] == s && Copies(0, false) == [];
    }
  }

  lemma BlockStep(s: string, previous: char)
    requires BlockCloses(s, previous)
    ensures InStep(s, InBlock(previous)) && Standing(s[1..], Step(s, InBlock(previous)).next)
  {
    var m := InBlock(previous);
    var n := BlockRest(s, previous);
    CopiesSplit(1, n, false);
    CopiesOne(false);
    assert s[1..][n - 1..] == s[n..];
    Assoc(Copies(1, false), Copies(n - 1, false), ErasedMask(s[n..]));
    if previous == '*' && s[0] == '/' {
      assert Copies(0, false) == [] && [] + ErasedMask(s[1..]) == ErasedMask(s[1..]);
    }
    StepsTogether(s, m, Copies(1, false));
  }

  /** Where a step is not fine the two part: one keeps the character, the other does not. */
  lemma Parts(s: string, m: Mode)
    requires s != "" && Standing(s, m) && !Fine(s, m)
    ensures !Agree(s, StrippedMask(s, m), ErasedFrom(s, m))
  {
    var r := Step(s, m);
    var a, b := StrippedMask(s, m), ErasedFrom(s, m);
    assert !IsSpace(s[0]);
    assert a[0] == Copies(r.used, Kept(r.tokens))[0] == Kept(r.tokens);
    assert b[0] == (CommentAt(s) == 0);
  }

  lemma FineStep(s: string, m: Mode)
    requires s != "" && Standing(s, m) && LineBreaks(s) && Fine(s, m)
    ensures InStep(s, m) && Standing(s[Step(s, m).used..], Step(s, m).next)
  {
    match m {
      case InQuote(_) => QuoteStep(s, m);
      case Plain => PlainStep(s);
      case InLine => LineStep(s);
      case InBlock(previous) => BlockStep(s, previous);
    }
  }

  lemma {:induction false} AgreeFrom(s: string, m: Mode)
    requires Standing(s, m) && LineBreaks(s)
    ensures Agree(s, StrippedMask(s, m), ErasedFrom(s, m)) <==> Calm(s, m)
    decreases |s|
  {
    if s == "" {
    } else if !Fine(s, m) {
      Parts(s, m);
    } else {
      var r := Step(s, m);
      FineStep(s, m);
      assert LineBreaks(s[r.used..]);
      AgreeFrom(s[r.used..], r.next);
      var y: seq<bool> :| |y| == r.used && ErasedFrom(s, m) == y + ErasedFrom(s[r.used..], r.next)
                       && Agree(s[..r.used], Copies(r.used, Kept(r.tokens)), y);
      AgreeAppend(s, r.used, Copies(r.used, Kept(r.tokens)), y, StrippedMask(s[r.used..], r.next),
                  ErasedFrom(s[r.used..], r.next));
    }
  }

  /**
   On text whose lines end in line feeds, with or without a carriage return in front, both removers take the same
   characters for comments if and only if no comment starts inside quotes and every block comment outside them is
   closed.
   */
  lemma RemoversAgree(s: string)
    requires LineBreaks(s)
    ensures Agree(s, StrippedMask(s, Plain), ErasedMask(s)) <==> Calm(s, Plain)
  {
    AgreeFrom(s, Plain);
  }

  // ---- What is kept is what is written ----

  /** The characters of `s` that are no white space and that `mask` keeps. */
  function Picked(s: string, mask: seq<bool>): string
    requires |mask| == |s|
  {
    if s == "" then "" else (if mask[0] && !IsSpace(s[0]) then [s[0]] else "") + Picked(s[1..], mask[1..])
  }

  /** The characters of `s` that are no white space. */
  function Solid(s: string): string {
    if s == "" then "" else (if IsSpace(s[0]) then "" else [s[0]]) + Solid(s[1..])
  }

  lemma {:induction false} PickedAppend(s: string, k: nat, x: seq<bool>, a: seq<bool>)
    requires k <= |s| && |x| == k && |a| == |s| - k
    ensures Picked(s, x + a) == Picked(s[..k], x) + Picked(s[k..], a)
  {
    if k == 0 {
      assert x + a == a && s[0..] == s;
    } else {
      assert (x + a)[1..] == x[1..] + a && s[..k][1..] == s[1..][..k - 1] && s[k..] == s[1..][k - 1..];
      PickedAppend(s[1..], k - 1, x[1..], a);
    }
  }

  lemma {:induction false} PickedNone(s: string)
    ensures Picked(s, Copies(|s|, false)) == ""
  {
    if s != "" {
      assert Copies(|s|, false)[1..] == Copies(|s| - 1, false);
      PickedNone(s[1..]);
    }
  }

  lemma {:induction false} SolidAppend(a: string, b: string)
    ensures Solid(a + b) == Solid(a) + Solid(b)
  {
    if a == "" {
      assert a + b == b;
    } else {
      assert (a + b)[1..] == a[1..] + b;
      SolidAppend(a[1..], b);
    }
  }

  lemma {:induction false} ErasedPicks(s: string)
    ensures Solid(Erase(s)) == Picked(s, ErasedMask(s))
    decreases |s|
  {
    if s != "" {
      var n := CommentAt(s);
      if n > 0 {
        ErasedPicks(s[n..]);
        PickedAppend(s, n, Copies(n, false), ErasedMask(s[n..]));
        PickedNone(s[..n]);
        assert (" " + Erase(s[n..]))[1..] == Erase(s[n..]);
      } else {
        ErasedPicks(s[1..]);
        assert ([s[0]] + Erase(s[1..]))[1..] == Erase(s[1..]);
        assert ([true] + ErasedMask(s[1..]))[1..] == ErasedMask(s[1..]);
      }
    }
  }

  lemma PicksOne(c: char)
    ensures Picked([c], [true]) == Solid([c])
    ensures Picked([c, c], [true, true]) == Solid([c] + [c])
  {
    assert [c][1..] == "" && [true][1..] == [] && [c, c][1..] == [c] && [true, true][1..] == [true];
    assert [c] + [c] == [c, c];
  }

  lemma CopiesPicked(s: string, k: nat, c: char)
    requires (k == 1 && 1 <= |s| && s[0] == c) || (k == 2 && 2 <= |s| && s[0] == c && s[1] == c)
    ensures Picked(s[..k], Copies(k, true)) == Solid(if k == 1 then [c] else [c] + [c])
  {
    PicksOne(c);
    hide Picked, Solid;
    if k == 1 {
      assert s[..1] == [c] && Copies(1, true) == [true];
    } else {
      assert s[..2] == [c, c] && Copies(2, true) == [true, true];
    }
  }

  lemma StepShape(s: string, m: Mode)
    requires s != "" && (m.InQuote? ==> IsQuote(m.quote))
    ensures var r := Step(s, m);
            && (r.next.InQuote? ==> IsQuote(r.next.quote))
            && (Kept(r.tokens) ==> r.used == 1 || (r.used == 2 && s[1] == s[0]))
            && (Kept(r.tokens) ==> Show(r.tokens) == if r.used == 1 then [s[0]] else [s[0]] + [s[0]])
            && (!Kept(r.tokens) ==> Show(r.tokens) in ["", " ", "\n"])
  {
    ShowOne(Gap);
    ShowOne(Break);
    ShowOne(Quoted(s[0]));
    ShowOne(Code(s[0]));
    hide Show;
  }

  lemma StepPicks(s: string, m: Mode)
    requires s != "" && (m.InQuote? ==> IsQuote(m.quote))
    ensures var r := Step(s, m); Solid(Show(r.tokens)) == Picked(s[..r.used], Copies(r.used, Kept(r.tokens)))
    ensures Step(s, m).next.InQuote? ==> IsQuote(Step(s, m).next.quote)
  {
    var r := Step(s, m);
    StepShape(s, m);
    PickedNone(s[..r.used]);
    assert " "[1..] == "" && "\n"[1..] == "";
    hide Step, Show, Kept, Picked, Copies;
    if Kept(r.tokens) {
      CopiesPicked(s, r.used, s[0]);
    }
  }

  lemma {:induction false} StrippedPicks(s: string, m: Mode)
    requires m.InQuote? ==> IsQuote(m.quote)
    ensures Solid(Strip(s, m)) == Picked(s, StrippedMask(s, m))
    decreases |s|
  {
    if s != "" {
      var r := Step(s, m);
      StepPicks(s, m);
      StripStep(s, m);
      StrippedPicks(s[r.used..], r.next);
      PickedAppend(s, r.used, Copies(r.used, Kept(r.tokens)), StrippedMask(s[r.used..], r.next));
      SolidAppend(Show(r.tokens), Strip(s[r.used..], r.next));
    }
  }

  lemma {:induction false} AgreePicks(s: string, a: seq<bool>, b: seq<bool>)
    requires Agree(s, a, b)
    ensures Picked(s, a) == Picked(s, b)
  {
    if s != "" {
      forall i | 0 <= i < |s| - 1 && !IsSpace(s[1..][i])
        ensures a[1..][i] == b[1..][i]
      {
        assert s[1..][i] == s[i + 1];
      }
      AgreePicks(s[1..], a[1..], b[1..]);
    }
  }

  /** Then classification and detection read the same text, white space aside. */
  lemma RemoversWriteTheSame(s: string)
    requires LineBreaks(s) && Calm(s, Plain)
    ensures Solid(Strip(s, Plain)) == Solid(Erase(s))
  {
    RemoversAgree(s);
    StrippedPicks(s, Plain);
    ErasedPicks(s);
    AgreePicks(s, StrippedMask(s, Plain), ErasedMask(s));
  }
}
