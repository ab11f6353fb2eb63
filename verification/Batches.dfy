/** Result rows, flat or in record batches, and the slices of them a cursor step returns. */
module Batches {
  import opened Sequences
  import opened Wrappers

  /** A row is its rendered cells; nothing below looks inside it. */
  type Row = seq<Option<string>>
  type Batch = seq<Row>

  const U32_RANGE: nat := 0x1_0000_0000

  function Flatten(batches: seq<Batch>): seq<Row> {
    if batches == [] then [] else batches[0] + Flatten(batches[1..])
  }

  function Min(a: int, b: int): int { if a < b then a else b }

  function Max(a: int, b: int): int { if a < b then b else a }

  /** The rows at `start..end`, cut off at the end of the result. */
  function Window(rows: seq<Row>, start: nat, end: nat): seq<Row> {
    if start >= end || start >= |rows| then [] else rows[start..Min(end, |rows|)]
  }

  function Reverse(rows: seq<Row>): (r: seq<Row>)
    ensures |r| == |rows|
    ensures forall i | 0 <= i < |rows| :: r[i] == rows[|rows| - 1 - i]
  {
    seq(|rows|, i requires 0 <= i < |rows| => rows[|rows| - 1 - i])
  }

  lemma {:induction false} FlattenAppend(a: seq<Batch>, b: seq<Batch>)
    ensures Flatten(a + b) == Flatten(a) + Flatten(b)
  {
    if a == [] {
      assert a + b == b;
    } else {
      assert (a + b)[1..] == a[1..] + b;
      FlattenAppend(a[1..], b);
    }
  }

  lemma FlattenPush(a: seq<Batch>, b: Batch)
    ensures Flatten(a + [b]) == Flatten(a) + b
  {
    FlattenAppend(a, [b]);
    assert [b][1..] == [];
  }

  function TotalRows(batches: seq<Batch>): (n: nat)
    ensures n == |Flatten(batches)|
  {
    if batches == [] then 0 else |batches[0]| + TotalRows(batches[1..])
  }

  /** What one more batch adds to the window of the rows seen so far. */
  lemma WindowPush(seen: seq<Row>, batch: seq<Row>, start: nat, end: nat)
    requires start < end
    ensures batch == [] || |seen| + |batch| <= start || |seen| >= end ==>
              Window(seen + batch, start, end) == Window(seen, start, end)
    ensures start < |seen| + |batch| && |seen| < end ==>
              var lo, hi := Max(start - |seen|, 0), Min(end - |seen|, |batch|);
              && lo <= hi
              && Window(seen + batch, start, end) == Window(seen, start, end) + batch[lo..hi]
              && (batch != [] ==> lo < hi)
  {
  }

  ghost predicate NonEmpty(batches: seq<Batch>) {
    forall b | b in batches :: b != []
  }

  ghost predicate FitsU32(batches: seq<Batch>) {
    forall b | b in batches :: |b| < U32_RANGE
  }

  /** The batches that overlap `start..end`, cut to it: no empty batch is produced. */
  method SliceBatches(batches: seq<Batch>, start: nat, end: nat) returns (out: seq<Batch>)
    ensures Flatten(out) == Window(Flatten(batches), start, end)
    ensures NonEmpty(out)
    ensures FitsU32(batches) ==> FitsU32(out)
  {
    out := [];
    EmptyFlat(batches);
    if start >= end {
      return;
    }
    hide Flatten, Window;
    EmptyWindow(start, end);
    var offset := 0;
    for i := 0 to |batches|
      invariant offset == |Flatten(batches[..i])|
      invariant Flatten(out) == Window(Flatten(batches[..i]), start, end)
      invariant NonEmpty(out)
      invariant FitsU32(batches) ==> FitsU32(out)
    {
      var batch := batches[i];
      var len := |batch|;
      ghost var seen := Flatten(batches[..i]);
      TakeOne(batches, i);
      WindowPush(seen, batch, start, end);
      if len == 0 {
        continue;
      }
      var batchStart, batchEnd := offset, offset + len;
      offset := batchEnd;
      if batchEnd <= start {
        continue;
      }
      if batchStart >= end {
        TakeRest(batches, i);
        WindowPush(seen, Flatten(batches[i..]), start, end);
        return;
      }
      var localStart := if start > batchStart then start - batchStart else 0;
      var localEnd := Min(end - batchStart, len);
      if localEnd > localStart {
        FlattenPush(out, batch[localStart..localEnd]);
        out := out + [batch[localStart..localEnd]];
      }
    }
    assert batches[..|batches|] == batches;
  }

  lemma EmptyFlat(batches: seq<Batch>)
    ensures Flatten([]) == [] && batches[..0] == []
  {
  }

  lemma EmptyWindow(start: nat, end: nat)
    ensures Window([], start, end) == []
  {
  }

  lemma TakeOne(batches: seq<Batch>, i: nat)
    requires i < |batches|
    ensures Flatten(batches[..i + 1]) == Flatten(batches[..i]) + batches[i]
    ensures batches[i] in batches
  {
    assert batches[..i + 1] == batches[..i] + [batches[i]];
    FlattenPush(batches[..i], batches[i]);
  }

  lemma TakeRest(batches: seq<Batch>, i: nat)
    requires i <= |batches|
    ensures Flatten(batches) == Flatten(batches[..i]) + Flatten(batches[i..])
  {
    assert batches == batches[..i] + batches[i..];
    FlattenAppend(batches[..i], batches[i..]);
  }

  /** Row indices are 32 bits wide, so a longer batch would lose rows. */
  function ReverseBatch(batch: Batch): Batch {
    if |batch| <= 1 then batch else
      var n := |batch| % U32_RANGE;
      seq(n, i requires 0 <= i < n => batch[n - 1 - i])
  }

  /** Reversing a batch is exact if and only if its length fits in 32 bits. */
  lemma ReverseBatchExact(batch: Batch)
    ensures ReverseBatch(batch) == Reverse(batch) <==> |batch| < U32_RANGE
  {
    if |batch| >= U32_RANGE {
      assert |ReverseBatch(batch)| < |Reverse(batch)|;
    }
  }

  lemma ReverseAppend(a: seq<Row>, b: seq<Row>)
    ensures Reverse(a + b) == Reverse(b) + Reverse(a)
  {
  }

  lemma ReverseTwice(a: seq<Row>)
    ensures Reverse(Reverse(a)) == a
  {
  }

  /** The last slice moves from the front part to the reversed part. */
  lemma MoveSlice(slices: seq<Batch>, reversed: seq<Batch>)
    requires slices != [] && |slices[|slices| - 1]| < U32_RANGE
    ensures Flatten(slices) + Reverse(Flatten(reversed))
         == Flatten(slices[..|slices| - 1]) + Reverse(Flatten(reversed + [ReverseBatch(slices[|slices| - 1])]))
    ensures slices[|slices| - 1] != [] ==> ReverseBatch(slices[|slices| - 1]) != []
  {
    var init, slice := slices[..|slices| - 1], slices[|slices| - 1];
    assert slices == init + [slice];
    FlattenPush(init, slice);
    FlattenPush(reversed, ReverseBatch(slice));
    ReverseBatchExact(slice);
    hide *;
    ReverseAppend(Flatten(reversed), Reverse(slice));
    ReverseTwice(slice);
    Assoc(Flatten(init), slice, Reverse(Flatten(reversed)));
  }

  lemma AllButLast(slices: seq<Batch>)
    requires slices != [] && NonEmpty(slices) && FitsU32(slices)
    ensures NonEmpty(slices[..|slices| - 1]) && FitsU32(slices[..|slices| - 1])
    ensures slices[|slices| - 1] != [] && |slices[|slices| - 1]| < U32_RANGE
  {
    assert slices[|slices| - 1] in slices;
    forall b | b in slices[..|slices| - 1]
      ensures b != [] && |b| < U32_RANGE
    {
      assert b in slices;
    }
  }

  /** Pops the slices from the back and reverses each. */
  method ReverseSliceBatches(batches: seq<Batch>, start: nat, end: nat) returns (reversed: seq<Batch>)
    requires FitsU32(batches)
    ensures Flatten(reversed) == Reverse(Window(Flatten(batches), start, end))
    ensures NonEmpty(reversed)
  {
    var slices := SliceBatches(batches, start, end);
    ghost var all := Flatten(slices);
    reversed := [];
    EmptyFlat(slices);
    hide Flatten, Reverse, Window;
    while slices != []
      invariant all == Flatten(slices) + Reverse(Flatten(reversed))
      invariant NonEmpty(slices) && FitsU32(slices)
      invariant NonEmpty(reversed)
      decreases |slices|
    {
      AllButLast(slices);
      MoveSlice(slices, reversed);
      var slice := slices[|slices| - 1];
      slices := slices[..|slices| - 1];
      reversed := reversed + [ReverseBatch(slice)];
    }
    assert [] + Reverse(Flatten(reversed)) == Reverse(Flatten(reversed));
    ReverseTwice(Flatten(reversed));
  }
}
