/** The gateway-managed cursor: a materialised result and a position that FETCH and MOVE update in place. */
module Cursor {
  import opened Wrappers
  import opened Integers
  import opened Batches
  import opened Walk
  import opened Directions

  datatype CursorData = Arrow(batches: seq<Batch>) | Typed(rows: seq<Row>)

  datatype StepRows = ArrowRows(batches: seq<Batch>) | TypedRows(rows: seq<Row>)

  datatype CursorStep = CursorStep(rows: StepRows, count: nat)

  function DataRows(data: CursorData): seq<Row> {
    match data
    case Arrow(batches) => Flatten(batches)
    case Typed(rows) => rows
  }

  function StepFlat(rows: StepRows): seq<Row> {
    match rows
    case ArrowRows(batches) => Flatten(batches)
    case TypedRows(rows) => rows
  }

  function EmptyLike(data: CursorData): (r: StepRows)
    ensures StepFlat(r) == [] && r.ArrowRows? == data.Arrow?
  {
    match data
    case Arrow(_) => ArrowRows([])
    case Typed(_) => TypedRows([])
  }

  function StepRowsCount(rows: StepRows): nat {
    match rows
    case ArrowRows(batches) => TotalRows(batches)
    case TypedRows(rows) => |rows|
  }

  ghost predicate Storable(data: CursorData) {
    |DataRows(data)| != ISIZE_MAX && (data.Arrow? ==> FitsU32(data.batches))
  }

  // ---- The answer of a walk, in the arithmetic of the code ----

  lemma ForwardAnswer(rows: seq<Row>, p: int, c: I64, fetch: bool)
    requires Place(rows, p) && |rows| <= ISIZE_MAX && c > 0
    ensures var n, start := |rows|, Max(0, Min(p + 1, |rows|));
            var requested := Min(c, n - start);
            Answer(rows, p, Direction.Forward(Some(c)), fetch) ==
            if start >= n then Moved(n, [], 0) else
            Moved(if requested < c then n else start + requested - 1,
                  if fetch then Window(rows, start, start + requested) else [], requested)
  {
    WalkForwardEnds(rows, p, c);
    hide WalkForward;
  }

  lemma ForwardAllAnswer(rows: seq<Row>, p: int, fetch: bool)
    requires Place(rows, p) && |rows| <= ISIZE_MAX
    ensures var n, start := |rows|, Max(0, Min(p + 1, |rows|));
            Answer(rows, p, Direction.Forward(None), fetch) ==
            Moved(n, if fetch && start < n then Window(rows, start, n) else [], n - start)
  {
    WalkForwardEnds(rows, p, Across(rows));
    hide WalkForward;
  }

  lemma WindowLength(rows: seq<Row>, lo: nat, hi: nat)
    requires lo <= hi <= |rows|
    ensures |Window(rows, lo, hi)| == hi - lo
  {
  }

  lemma BackwardWalk(rows: seq<Row>, p: int, c: nat)
    requires Place(rows, p) && c > 0
    ensures p <= 0 ==> WalkBackward(rows, p, c) == Visit(-1, [])
    ensures p > 0 ==>
              && WalkBackward(rows, p, c) == Visit(Max(p - c, -1), Reverse(Window(rows, Max(p - c, 0), p)))
              && |Window(rows, Max(p - c, 0), p)| == Min(c, p)
  {
    WalkBackwardEnds(rows, p, c);
    hide WalkBackward;
    if p <= 0 {
      ReverseNone(rows, 0);
    } else {
      WindowLength(rows, Max(p - c, 0), p);
    }
  }

  lemma BackwardAnswer(rows: seq<Row>, p: int, c: I64, fetch: bool)
    requires Place(rows, p) && |rows| <= ISIZE_MAX && c > 0
    ensures var start := if p >= |rows| then |rows| - 1 else p - 1;
            var requested := Min(c, start + 1);
            Answer(rows, p, Direction.Backward(Some(c)), fetch) ==
            if start < 0 then Moved(-1, [], 0) else
            Moved(if requested < c then -1 else start - requested + 1,
                  if fetch then Reverse(Window(rows, start - requested + 1, start + 1)) else [], requested)
  {
    hide Answer, Movement, Steps, WalkBackward, Reverse, Window;
    BackwardWalk(rows, p, c);
    BackwardMovement(rows, p, c, fetch);
    var start := if p >= |rows| then |rows| - 1 else p - 1;
    assert start == p - 1 || (p == -1 == start);
    if p > 0 {
      assert start - Min(c, start + 1) + 1 == Max(p - c, 0) && start + 1 == p;
    }
  }

  lemma BackwardMovement(rows: seq<Row>, p: int, c: I64, fetch: bool)
    requires |rows| <= ISIZE_MAX && c > 0
    ensures var v := WalkBackward(rows, p, c);
            Answer(rows, p, Direction.Backward(Some(c)), fetch)
              == Moved(v.position, if fetch then v.rows else [], |v.rows|)
  {
    hide WalkBackward;
  }

  lemma BackwardAllAnswer(rows: seq<Row>, p: int, fetch: bool)
    requires Place(rows, p) && |rows| <= ISIZE_MAX
    ensures var start := if p >= |rows| then |rows| - 1 else p - 1;
            Answer(rows, p, Direction.Backward(None), fetch) ==
            if start < 0 then Moved(-1, [], 0) else
            Moved(-1, if fetch then Reverse(Window(rows, 0, start + 1)) else [], start + 1)
  {
    WalkBackwardEnds(rows, p, Across(rows));
    hide WalkBackward, Reverse;
  }

  lemma StayAnswer(rows: seq<Row>, p: int, d: Direction, fetch: bool)
    requires |rows| <= ISIZE_MAX && IsZero(d)
    ensures Answer(rows, p, d, fetch) ==
            Moved(p, if fetch then RowAt(rows, p) else [], if fetch then |RowAt(rows, p)| else 0)
  {
  }

  /** A negative count is the opposite count in the other direction. */
  lemma OppositeAnswer(rows: seq<Row>, p: int, c: I64, fetch: bool)
    requires c != I64_MIN
    ensures Answer(rows, p, Direction.Forward(Some(c)), fetch)
         == Answer(rows, p, Direction.Backward(Some(Negate(c))), fetch)
         == Answer(rows, p, Count(c), fetch)
    ensures Answer(rows, p, Direction.Backward(Some(c)), fetch)
         == Answer(rows, p, Direction.Forward(Some(Negate(c))), fetch)
  {
    NegateExact(c);
    hide Steps;
  }

  lemma SingleStepAnswers(rows: seq<Row>, p: int, fetch: bool)
    ensures Answer(rows, p, Next, fetch) == Answer(rows, p, Direction.Forward(Some(1)), fetch)
    ensures Answer(rows, p, Prior, fetch) == Answer(rows, p, Direction.Backward(Some(1)), fetch)
    ensures Answer(rows, p, All, fetch) == Answer(rows, p, Direction.Forward(None), fetch)
    ensures Answer(rows, p, First, fetch) == Answer(rows, p, Absolute(1), fetch)
    ensures Answer(rows, p, Last, fetch) == Answer(rows, p, Absolute(-1), fetch)
  {
    hide Steps;
  }

  lemma TooLarge(rows: seq<Row>, p: int, d: Direction, fetch: bool)
    requires |rows| > ISIZE_MAX
    ensures Answer(rows, p, d, fetch) == Refused("54000")
  {
  }

  class GatewayCursor {
    const data: CursorData
    var position: int
    const scroll: bool
    const hold: bool

    ghost function Rows(): seq<Row> {
      DataRows(data)
    }

    ghost predicate Valid()
      reads this`position
    {
      Storable(data) && Place(Rows(), position)
    }

    /** A declared cursor stands before its first row. */
    constructor (data: CursorData, scroll: bool, hold: bool)
      requires Storable(data)
      ensures Valid() && position == -1
      ensures this.data == data && this.scroll == scroll && this.hold == hold
    {
      this.data := data;
      this.position := -1;
      this.scroll := scroll;
      this.hold := hold;
    }

    /** The step `r` is what `o` says: same rows in the same order, same count, same new position. */
    ghost predicate Answers(r: Result<CursorStep>, before: int, o: Outcome)
      reads this`position
    {
      match o
      case Refused(sqlstate) => r == Err(sqlstate) && position == before
      case Moved(p, rows, count) =>
        && r.Ok? && position == p
        && StepFlat(r.value.rows) == rows && r.value.count == count
        && r.value.rows.ArrowRows? == data.Arrow?
    }

    function DataRowCount(): (n: nat)
      ensures n == |Rows()|
    {
      match data
      case Arrow(batches) => TotalRows(batches)
      case Typed(rows) => |rows|
    }

    method Len() returns (len: Result<int>)
      ensures len == if |Rows()| > ISIZE_MAX then Err("54000") else Ok(|Rows()|)
    {
      var total := DataRowCount();
      len := if total > ISIZE_MAX then Err("54000") else Ok(total);
    }

    method SliceStepRows(start: nat, end: nat) returns (rows: StepRows)
      ensures StepFlat(rows) == Window(Rows(), start, end)
      ensures rows.ArrowRows? == data.Arrow?
    {
      match data {
        case Arrow(batches) =>
          var out := SliceBatches(batches, start, end);
          rows := ArrowRows(out);
        case Typed(all) =>
          rows := TypedRows(if start >= end || start >= |all| then [] else all[start..Min(end, |all|)]);
      }
    }

    method ReverseSliceStepRows(start: nat, end: nat) returns (rows: StepRows)
      requires Storable(data)
      ensures StepFlat(rows) == Reverse(Window(Rows(), start, end))
      ensures rows.ArrowRows? == data.Arrow?
    {
      match data {
        case Arrow(batches) =>
          var out := ReverseSliceBatches(batches, start, end);
          rows := ArrowRows(out);
        case Typed(all) =>
          var upper := Min(end, |all|);
          rows := TypedRows(if start >= upper then [] else Reverse(all[start..upper]));
          assert Reverse([]) == [];
      }
    }

    method CurrentRowStepRows() returns (rows: StepRows)
      requires Valid()
      ensures StepFlat(rows) == RowAt(Rows(), position)
      ensures rows.ArrowRows? == data.Arrow?
    {
      var total := DataRowCount();
      if 0 <= position < total {
        rows := SliceStepRows(position, position + 1);
      } else {
        rows := EmptyLike(data);
      }
    }

    /** A count of zero stays where it is; only FETCH looks at the current row. */
    method Stay(returnRows: bool) returns (step: CursorStep)
      requires Valid()
      ensures StepFlat(step.rows) == (if returnRows then RowAt(Rows(), position) else [])
      ensures step.count == |StepFlat(step.rows)| && step.rows.ArrowRows? == data.Arrow?
    {
      var rows := EmptyLike(data);
      if returnRows {
        rows := CurrentRowStepRows();
      }
      step := CursorStep(rows, if returnRows then StepRowsCount(rows) else 0);
    }

    method Forward(count: Option<I64>, returnRows: bool) returns (r: Result<CursorStep>)
      requires Valid() && count != Some(I64_MIN)
      modifies `position
      ensures Valid()
      ensures Answers(r, old(position), Answer(Rows(), old(position), Direction.Forward(count), returnRows))
      decreases if count.Some? && count.value < 0 then 1 else 0
    {
      hide Answer, Flatten, Window, Reverse;
      var length := Len();
      if length.Err? {
        TooLarge(Rows(), position, Direction.Forward(count), returnRows);
        return Err(length.sqlstate);
      }
      var len := length.value;
      var start := Max(0, Min(position + 1, len));
      var rows := EmptyLike(data);
      if count.Some? {
        if count.value < 0 {
          OppositeAnswer(Rows(), position, count.value, returnRows);
          r := Backward(Some(Negate(count.value)), returnRows);
          return;
        }
        if count.value == 0 {
          StayAnswer(Rows(), position, Direction.Forward(count), returnRows);
          var step := Stay(returnRows);
          return Ok(step);
        }
        ForwardAnswer(Rows(), position, count.value, returnRows);
        if start >= len {
          position := len;
          return Ok(CursorStep(rows, 0));
        }
        var requested := Min(count.value, len - start);
        var end := start + requested;
        if returnRows {
          rows := SliceStepRows(start, end);
        }
        position := if requested < count.value then len else end - 1;
        return Ok(CursorStep(rows, requested));
      }
      ForwardAllAnswer(Rows(), position, returnRows);
      if returnRows && start < len {
        rows := SliceStepRows(start, len);
      }
      position := len;
      r := Ok(CursorStep(rows, len - start));
    }

    method Backward(count: Option<I64>, returnRows: bool) returns (r: Result<CursorStep>)
      requires Valid() && count != Some(I64_MIN)
      modifies `position
      ensures Valid()
      ensures Answers(r, old(position), Answer(Rows(), old(position), Direction.Backward(count), returnRows))
      decreases if count.Some? && count.value < 0 then 1 else 0
    {
      hide Answer, Flatten, Window, Reverse;
      var length := Len();
      if length.Err? {
        TooLarge(Rows(), position, Direction.Backward(count), returnRows);
        return Err(length.sqlstate);
      }
      var len := length.value;
      var start := if position >= len then len - 1 else position - 1;
      var rows := EmptyLike(data);
      if count.Some? {
        if count.value < 0 {
          OppositeAnswer(Rows(), position, count.value, returnRows);
          r := Forward(Some(Negate(count.value)), returnRows);
          return;
        }
        if count.value == 0 {
          StayAnswer(Rows(), position, Direction.Backward(count), returnRows);
          var step := Stay(returnRows);
          return Ok(step);
        }
        BackwardAnswer(Rows(), position, count.value, returnRows);
        if start < 0 {
          position := -1;
          return Ok(CursorStep(rows, 0));
        }
        var requested := Min(count.value, start + 1);
        var end := start - requested + 1;
        if returnRows {
          rows := ReverseSliceStepRows(end, start + 1);
        }
        position := if requested < count.value then -1 else end;
        return Ok(CursorStep(rows, requested));
      }
      BackwardAllAnswer(Rows(), position, returnRows);
      if start < 0 {
        position := -1;
        return Ok(CursorStep(rows, 0));
      }
      if returnRows {
        rows := ReverseSliceStepRows(0, start + 1);
      }
      position := -1;
      r := Ok(CursorStep(rows, start + 1));
    }

    method Seek(target: I64, returnRows: bool) returns (r: Result<CursorStep>)
      requires Valid()
      modifies `position
      ensures Valid()
      ensures |Rows()| > ISIZE_MAX ==> r == Err("54000") && position == old(position)
      ensures |Rows()| <= ISIZE_MAX ==>
                var v := Jump(Rows(), target);
                Answers(r, old(position), Moved(v.position, if returnRows then v.rows else [], |v.rows|))
    {
      var length := Len();
      if length.Err? {
        return Err(length.sqlstate);
      }
      var len := length.value;
      var rows := EmptyLike(data);
      if target < 0 {
        position := -1;
        return Ok(CursorStep(rows, 0));
      }
      if target >= len {
        position := len;
        return Ok(CursorStep(rows, 0));
      }
      position := target;
      if returnRows {
        rows := SliceStepRows(target, target + 1);
      }
      r := Ok(CursorStep(rows, 1));
    }

    method GoAbsolute(target: I64, returnRows: bool) returns (r: Result<CursorStep>)
      requires Valid()
      modifies `position
      ensures Valid()
      ensures Answers(r, old(position), Answer(Rows(), old(position), Absolute(target), returnRows))
    {
      var length := Len();
      if length.Err? {
        return Err(length.sqlstate);
      }
      if target == 0 {
        position := -1;
        return Ok(CursorStep(EmptyLike(data), 0));
      }
      r := Seek(if target > 0 then target - 1 else length.value + target, returnRows);
    }

    method GoRelative(offset: I64, returnRows: bool) returns (r: Result<CursorStep>)
      requires Valid()
      modifies `position
      ensures Valid()
      ensures Answers(r, old(position), Answer(Rows(), old(position), Relative(offset), returnRows))
    {
      r := Seek(Wrap(position + offset), returnRows);
    }

    /** Every direction, on either kind of data, is the walk over the flat rows. */
    method Apply(direction: Direction, returnRows: bool) returns (r: Result<CursorStep>)
      requires Valid() && Settles(direction)
      modifies `position
      ensures Valid()
      ensures Answers(r, old(position), Directions.Apply(Rows(), scroll, old(position), direction, returnRows))
    {
      if !scroll && DirectionRequiresScroll(direction) {
        return Err("0A000");
      }
      SingleStepAnswers(Rows(), position, returnRows);
      if direction.Count? {
        OppositeAnswer(Rows(), position, direction.number, returnRows);
      }
      hide Answer;
      match direction {
        case Next => r := Forward(Some(1), returnRows);
        case Prior => r := Backward(Some(1), returnRows);
        case First => r := GoAbsolute(1, returnRows);
        case Last => r := GoAbsolute(-1, returnRows);
        case Absolute(target) => r := GoAbsolute(target, returnRows);
        case Relative(offset) => r := GoRelative(offset, returnRows);
        case Forward(count) => r := Forward(count, returnRows);
        case Backward(count) => r := Backward(count, returnRows);
        case All => r := Forward(None, returnRows);
        case Count(number) =>
          if number < 0 {
            r := Backward(Some(Negate(number)), returnRows);
          } else {
            r := Forward(Some(number), returnRows);
          }
      }
    }
  }
}
