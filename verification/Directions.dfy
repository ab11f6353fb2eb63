/** The ten cursor directions and what each asks of a cursor. */
module Directions {
  import opened Wrappers
  import opened Integers
  import opened Batches
  import opened Walk

  datatype Direction =
    | Next | Prior | First | Last
    | Absolute(target: I64) | Relative(offset: I64)
    | Forward(count: Option<I64>) | Backward(count: Option<I64>)
    | All | Count(number: I64)

  predicate DirectionRequiresScroll(d: Direction) {
    d.Prior? || d.First? || d.Last? || d.Absolute? || d.Relative? || d.Backward? || (d.Count? && d.number < 0)
  }

  /** The count a direction walks by, if it has one. */
  function StepCount(d: Direction): Option<I64> {
    match d
    case Forward(count) => count
    case Backward(count) => count
    case Count(number) => Some(number)
    case _ => None
  }

  /** Counts for which the two walking methods, which hand negative counts to each other, come to an end. */
  predicate Settles(d: Direction) {
    StepCount(d) != Some(I64_MIN)
  }

  /** Whether passing `count` back and forth with its sign flipped reaches a non-negative count in `hops`. */
  predicate Bounces(count: I64, hops: nat)
    decreases hops
  {
    count >= 0 || (hops > 0 && Bounces(Negate(count), hops - 1))
  }

  lemma {:induction false} MinNeverSettles(hops: nat)
    ensures !Bounces(I64_MIN, hops)
  {
    NegateExact(I64_MIN);
    if hops > 0 {
      MinNeverSettles(hops - 1);
    }
  }

  lemma SettlesAfter(count: I64) returns (hops: nat)
    requires count != I64_MIN
    ensures Bounces(count, hops)
  {
    NegateExact(count);
    hops := if count >= 0 then 0 else 1;
    assert count < 0 ==> Bounces(Negate(count), 0);
  }

  ghost predicate CallsEnd(count: I64) {
    exists hops: nat :: Bounces(count, hops)
  }

  /** The mutual recursion of forward and backward ends for every count except the smallest integer. */
  lemma RecursionSettles(count: I64)
    ensures CallsEnd(count) <==> count != I64_MIN
  {
    NegateExact(count);
    if count == I64_MIN {
      forall hops: nat
        ensures !Bounces(count, hops)
      {
        MinNeverSettles(hops);
      }
    } else {
      var hops := SettlesAfter(count);
      assert Bounces(count, hops);
    }
  }

  predicate IsZero(d: Direction) {
    StepCount(d) == Some(0)
  }

  function Steps(rows: seq<Row>, p: int, count: int): Visit {
    if count > 0 then WalkForward(rows, p, count)
    else if count < 0 then WalkBackward(rows, p, -count)
    else Visit(p, RowAt(rows, p))
  }

  /** Enough steps to leave the result at either end. */
  function Across(rows: seq<Row>): (n: int)
    ensures n > 0
  {
    |rows| + 1
  }

  /** The walk or jump a direction stands for. A count of zero stays and looks at the current row. */
  function Movement(rows: seq<Row>, p: int, d: Direction): Visit {
    match d
    case Next => Steps(rows, p, 1)
    case Prior => Steps(rows, p, -1)
    case First => Jump(rows, 0)
    case Last => Jump(rows, |rows| - 1)
    case Absolute(target) =>
      if target == 0 then Jump(rows, -1)
      else if target > 0 then Jump(rows, target - 1)
      else Jump(rows, |rows| + target)
    case Relative(offset) => Jump(rows, Wrap(p + offset))
    case Forward(None) => Steps(rows, p, Across(rows))
    case Forward(Some(count)) => Steps(rows, p, count)
    case Backward(None) => Steps(rows, p, -Across(rows))
    case Backward(Some(count)) => Steps(rows, p, -(count as int))
    case All => Steps(rows, p, Across(rows))
    case Count(number) => Steps(rows, p, number)
  }

  /** What a command answers: the new position, the rows it returns and the count it reports; or an SQLSTATE. */
  datatype Outcome = Moved(position: int, rows: seq<Row>, count: nat) | Refused(sqlstate: string)

  /** FETCH returns the visited rows; MOVE only counts them, and counts nothing for a zero count. */
  function Answer(rows: seq<Row>, p: int, d: Direction, fetch: bool): Outcome {
    if |rows| > ISIZE_MAX then Refused("54000") else
      var v := Movement(rows, p, d);
      Moved(v.position, if fetch then v.rows else [], if IsZero(d) && !fetch then 0 else |v.rows|)
  }

  function Apply(rows: seq<Row>, scroll: bool, p: int, d: Direction, fetch: bool): Outcome {
    if !scroll && DirectionRequiresScroll(d) then Refused("0A000") else Answer(rows, p, d, fetch)
  }

  // ---- Laws of the directions ----

  lemma StepsStay(rows: seq<Row>, p: int, count: int)
    requires Place(rows, p)
    ensures Place(rows, Steps(rows, p, count).position)
  {
    if count > 0 {
      WalkForwardEnds(rows, p, count);
    } else if count < 0 {
      WalkBackwardEnds(rows, p, -count);
    }
  }

  /** The number of steps, forward if positive, of the directions that walk. */
  function Walked(rows: seq<Row>, d: Direction): int {
    match d
    case Next => 1
    case Prior => -1
    case Forward(Some(count)) => count
    case Backward(Some(count)) => -(count as int)
    case Backward(None) => -Across(rows)
    case Count(number) => number
    case _ => Across(rows)
  }

  /** No command leaves the places -1..n. */
  lemma MovementStays(rows: seq<Row>, p: int, d: Direction)
    requires Place(rows, p)
    ensures Place(rows, Movement(rows, p, d).position)
  {
    StepsStay(rows, p, Walked(rows, d));
    hide Steps;
  }

  /** RELATIVE is the clamped move by its offset if and only if that sum is a 64-bit integer. */
  lemma RelativeExact(rows: seq<Row>, p: int, offset: I64)
    requires Place(rows, p) && |rows| < ISIZE_MAX
    ensures Movement(rows, p, Relative(offset)).position == Max(-1, Min(p + offset, |rows|))
        <==> I64_MIN <= p + offset <= I64_MAX
  {
  }

  /** One answer after another: the rows in order, the counts added up. */
  function Combined(first: Outcome, second: Outcome): Outcome
    requires first.Moved? && second.Moved?
  {
    Moved(second.position, first.rows + second.rows, first.count + second.count)
  }

  /** FORWARD a then FORWARD b is FORWARD a+b in position, rows and count, for FETCH and for MOVE. */
  lemma ForwardAdds(rows: seq<Row>, p: int, a: I64, b: I64, fetch: bool)
    requires a > 0 && b > 0 && a + b <= I64_MAX && |rows| <= ISIZE_MAX
    ensures var first := Answer(rows, p, Forward(Some(a)), fetch);
            var second := Answer(rows, first.position, Forward(Some(b)), fetch);
            Answer(rows, p, Forward(Some(a + b as int)), fetch) == Combined(first, second)
  {
    ForwardForward(rows, p, a, b);
    hide WalkForward;
  }

  lemma BackwardAdds(rows: seq<Row>, p: int, a: I64, b: I64, fetch: bool)
    requires a > 0 && b > 0 && a + b <= I64_MAX && |rows| <= ISIZE_MAX
    ensures var first := Answer(rows, p, Backward(Some(a)), fetch);
            var second := Answer(rows, first.position, Backward(Some(b)), fetch);
            Answer(rows, p, Backward(Some(a + b as int)), fetch) == Combined(first, second)
  {
    BackwardBackward(rows, p, a, b);
    hide WalkBackward;
  }

  // ---- Every direction in terms of single steps ----

  /** Where a walk of `k` steps ends, and the last row it visits unless it is cut short. */
  function LastStop(walk: Visit, k: nat): Visit
    requires k > 0
  {
    Visit(walk.position, if |walk.rows| == k then [walk.rows[k - 1]] else [])
  }

  /** The row under the cursor, if it stands on one. */
  function Current(rows: seq<Row>, p: int): seq<Row> {
    if 0 <= p < |rows| then rows[p..p + 1] else []
  }

  /** Walking directions are single steps ahead or back, as often as they say; no step looks at the current row. */
  lemma WalksStepByStep(rows: seq<Row>, p: int, c: I64)
    ensures Movement(rows, p, Next) == WalkForward(rows, p, 1)
    ensures Movement(rows, p, Prior) == WalkBackward(rows, p, 1)
    ensures c > 0 ==> Movement(rows, p, Forward(Some(c))) == Movement(rows, p, Count(c)) == WalkForward(rows, p, c)
    ensures c > 0 ==> Movement(rows, p, Backward(Some(c))) == WalkBackward(rows, p, c)
    ensures c < 0 ==>
              Movement(rows, p, Forward(Some(c))) == Movement(rows, p, Count(c)) == WalkBackward(rows, p, -(c as int))
    ensures c < 0 ==> Movement(rows, p, Backward(Some(c))) == WalkForward(rows, p, -(c as int))
    ensures Movement(rows, p, Forward(Some(0))) == Movement(rows, p, Backward(Some(0)))
         == Movement(rows, p, Count(0)) == Visit(p, Current(rows, p))
  {
  }

  /** ABSOLUTE k ends where k steps from before the first row end, and returns the last row visited, from any place. */
  lemma AbsoluteFromStart(rows: seq<Row>, p: int, k: I64)
    requires k > 0
    ensures Movement(rows, p, Absolute(k)) == LastStop(WalkForward(rows, -1, k), k)
  {
    JumpAhead(rows, -1, k);
  }

  /** ABSOLUTE -k does the same with k steps back from behind the last row. */
  lemma AbsoluteBackFromEnd(rows: seq<Row>, p: int, k: I64)
    requires k < 0
    ensures Movement(rows, p, Absolute(k)) == LastStop(WalkBackward(rows, |rows|, -(k as int)), -(k as int))
  {
    JumpBack(rows, |rows|, -(k as int));
  }

  /** FIRST is one step from before the first row, LAST one step back from behind the last; ABSOLUTE 0 is no row. */
  lemma FirstAndLast(rows: seq<Row>, p: int)
    ensures Movement(rows, p, First) == WalkForward(rows, -1, 1)
    ensures Movement(rows, p, Last) == WalkBackward(rows, |rows|, 1)
    ensures Movement(rows, p, Absolute(0)) == Visit(-1, [])
  {
    OneStep(rows, -1);
    OneStep(rows, |rows|);
    hide WalkForward, WalkBackward, Jump;
    JumpAhead(rows, -1, 1);
    JumpBack(rows, |rows|, 1);
    assert Jump(rows, -1) == Visit(-1, []) by {
      JumpBefore(rows);
    }
  }

  lemma JumpBefore(rows: seq<Row>)
    ensures Jump(rows, -1) == Visit(-1, [])
  {
  }

  lemma OneStep(rows: seq<Row>, p: int)
    ensures var ahead, back := WalkForward(rows, p, 1).rows, WalkBackward(rows, p, 1).rows;
            && ahead == (if |ahead| == 1 then [ahead[0]] else [])
            && back == (if |back| == 1 then [back[0]] else [])
  {
  }

  /** RELATIVE 0 stays and looks at the current row. */
  lemma RelativeZero(rows: seq<Row>, p: int)
    requires Place(rows, p) && |rows| <= ISIZE_MAX
    ensures Movement(rows, p, Relative(0)) == Visit(p, Current(rows, p))
  {
  }

  /** A SCROLL cursor refuses no direction, a NO SCROLL cursor all but these four; the rest is answered alike. */
  lemma ScrollExact(rows: seq<Row>, scroll: bool, p: int, d: Direction, fetch: bool)
    requires |rows| <= ISIZE_MAX
    ensures Apply(rows, scroll, p, d, fetch) ==
            if scroll || d == Next || d == All || d.Forward? || (d.Count? && d.number >= 0)
            then Answer(rows, p, d, fetch) else Refused("0A000")
    ensures Answer(rows, p, d, fetch).Moved?
  {
  }

  /** RELATIVE k ends where FORWARD k ends and returns its last row, or nothing if FORWARD was cut short. */
  lemma RelativeIsForward(rows: seq<Row>, p: int, k: I64)
    requires Place(rows, p) && k > 0 && p + k <= I64_MAX
    ensures var walk := Movement(rows, p, Forward(Some(k)));
            && Movement(rows, p, Relative(k))
            == Visit(walk.position, if |walk.rows| == k then [walk.rows[k - 1]] else [])
  {
    JumpAhead(rows, p, k);
  }

  lemma RelativeIsBackward(rows: seq<Row>, p: int, k: I64)
    requires Place(rows, p) && k > 0 && |rows| <= ISIZE_MAX
    ensures var walk := Movement(rows, p, Backward(Some(k)));
            && Movement(rows, p, Relative(-(k as int)))
            == Visit(walk.position, if |walk.rows| == k then [walk.rows[k - 1]] else [])
  {
    JumpBack(rows, p, k);
  }

  /** Counting from the end is counting from the start. */
  lemma AbsoluteFromEnd(rows: seq<Row>, p: int, k: I64)
    requires 1 <= k <= |rows| && |rows| < ISIZE_MAX
    ensures Movement(rows, p, Absolute(-(k as int))) == Movement(rows, p, Absolute(|rows| + 1 - k as int))
  {
  }

  lemma WindowToEnd(rows: seq<Row>, lo: nat, hi: nat)
    requires lo < hi && |rows| <= hi
    ensures Window(rows, lo, hi) == rows[Min(lo, |rows|)..]
  {
  }

  /** FORWARD ALL is a forward walk of any length that reaches the end; ALL is the same. */
  lemma ForwardAll(rows: seq<Row>, p: int, more: nat)
    requires Place(rows, p)
    ensures WalkForward(rows, p, Across(rows) + more) == Visit(|rows|, rows[Min(p + 1, |rows|)..])
    ensures Movement(rows, p, All) == Movement(rows, p, Forward(None)) == WalkForward(rows, p, Across(rows) + more)
  {
    WalkForwardEnds(rows, p, Across(rows));
    WalkForwardEnds(rows, p, Across(rows) + more);
    hide WalkForward, Window;
    WindowToEnd(rows, p + 1, p + 1 + Across(rows));
    WindowToEnd(rows, p + 1, p + 1 + (Across(rows) + more));
  }

  lemma BackwardAll(rows: seq<Row>, p: int, more: nat)
    requires Place(rows, p)
    ensures WalkBackward(rows, p, Across(rows) + more) == Visit(-1, Reverse(rows[..Max(p, 0)]))
    ensures Movement(rows, p, Backward(None)) == WalkBackward(rows, p, Across(rows) + more)
  {
    WalkBackwardEnds(rows, p, Across(rows));
    WalkBackwardEnds(rows, p, Across(rows) + more);
    hide WalkBackward, Reverse;
    assert Window(rows, 0, Max(p, 0)) == rows[..Max(p, 0)];
  }

  /**
   MOVE ends where FETCH ends; it reports the same count exactly when the count is not zero or no row is current,
   and otherwise none.
   */
  lemma MoveLikeFetch(rows: seq<Row>, p: int, d: Direction)
    requires |rows| <= ISIZE_MAX
    ensures var fetched, moved := Answer(rows, p, d, true), Answer(rows, p, d, false);
            && fetched.position == moved.position
            && fetched.count == |fetched.rows| && moved.rows == []
            && (fetched.count == moved.count <==> !(IsZero(d) && 0 <= p < |rows|))
            && (IsZero(d) ==> moved.count == 0)
  {
  }
}
