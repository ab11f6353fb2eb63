/**
 What a cursor command means: a walk over one flat sequence of rows. The places are -1 (before the first row),
 0..n-1 (on a row) and n (after the last row); a single step moves one place and visits the row there, if any.
 */
module Walk {
  import opened Sequences
  import opened Batches

  datatype Visit = Visit(position: int, rows: seq<Row>)

  function RowAt(rows: seq<Row>, p: int): seq<Row> {
    if 0 <= p < |rows| then [rows[p]] else []
  }

  function WalkForward(rows: seq<Row>, p: int, steps: nat): Visit
    decreases steps
  {
    if steps == 0 then Visit(p, []) else
      var next := Min(p + 1, |rows|);
      var rest := WalkForward(rows, next, steps - 1);
      Visit(rest.position, RowAt(rows, next) + rest.rows)
  }

  function WalkBackward(rows: seq<Row>, p: int, steps: nat): Visit
    decreases steps
  {
    if steps == 0 then Visit(p, []) else
      var next := Max(p - 1, -1);
      var rest := WalkBackward(rows, next, steps - 1);
      Visit(rest.position, RowAt(rows, next) + rest.rows)
  }

  /** Going straight to a place, clamped to the ends. */
  function Jump(rows: seq<Row>, target: int): Visit {
    var p := Max(-1, Min(target, |rows|));
    Visit(p, RowAt(rows, p))
  }

  ghost predicate Place(rows: seq<Row>, p: int) {
    -1 <= p <= |rows|
  }

  lemma StepAhead(rows: seq<Row>, p: int, steps: nat)
    requires Place(rows, p) && steps > 0
    ensures var next := Min(p + 1, |rows|);
            var rest := WalkForward(rows, next, steps - 1);
            WalkForward(rows, p, steps) == Visit(rest.position, RowAt(rows, next) + rest.rows)
  {
  }

  /** The window of a walk ahead starts with the row of its first step, if any. */
  lemma WindowAhead(rows: seq<Row>, p: int, steps: nat)
    requires Place(rows, p) && steps > 0
    ensures var next := Min(p + 1, |rows|);
            Window(rows, p + 1, p + 1 + steps) == RowAt(rows, next) + Window(rows, next + 1, next + steps)
  {
  }

  /** Where a forward walk ends and what it sees, without stepping. */
  lemma {:induction false} WalkForwardEnds(rows: seq<Row>, p: int, steps: nat)
    requires Place(rows, p)
    ensures WalkForward(rows, p, steps) == Visit(Min(p + steps, |rows|), Window(rows, p + 1, p + 1 + steps))
    decreases steps
  {
    hide Window, RowAt;
    if steps == 0 {
      WindowNone(rows, p + 1);
    } else {
      hide WalkForward;
      WalkForwardEnds(rows, Min(p + 1, |rows|), steps - 1);
      StepAhead(rows, p, steps);
      WindowAhead(rows, p, steps);
    }
  }

  lemma WindowNone(rows: seq<Row>, at: nat)
    ensures Window(rows, at, at) == []
  {
  }

  lemma ReverseNone(rows: seq<Row>, at: nat)
    ensures Reverse(Window(rows, at, at)) == []
  {
  }

  lemma WindowBack(rows: seq<Row>, lo: nat, p: nat)
    requires lo < p <= |rows|
    ensures Reverse(Window(rows, lo, p)) == [rows[p - 1]] + Reverse(Window(rows, lo, p - 1))
  {
    assert Window(rows, lo, p) == Window(rows, lo, p - 1) + [rows[p - 1]];
    ReverseAppend(Window(rows, lo, p - 1), [rows[p - 1]]);
  }

  lemma {:induction false} WalkBackwardEnds(rows: seq<Row>, p: int, steps: nat)
    requires Place(rows, p)
    ensures WalkBackward(rows, p, steps)
         == Visit(Max(p - steps, -1), Reverse(Window(rows, Max(p - steps, 0), Max(p, 0))))
    decreases steps
  {
    if steps > 0 {
      WalkBackwardEnds(rows, Max(p - 1, -1), steps - 1);
      if p > 0 {
        WindowBack(rows, Max(p - steps, 0), p);
        hide Reverse, Window;
        assert RowAt(rows, p - 1) == [rows[p - 1]];
      } else {
        ReverseNone(rows, 0);
      }
    } else {
      ReverseNone(rows, Max(p, 0));
    }
  }

  // ---- Laws of movement ----

  /** FORWARD a then FORWARD b is FORWARD a+b. */
  lemma {:induction false} ForwardForward(rows: seq<Row>, p: int, a: nat, b: nat)
    ensures var first := WalkForward(rows, p, a);
            var second := WalkForward(rows, first.position, b);
            WalkForward(rows, p, a + b) == Visit(second.position, first.rows + second.rows)
    decreases a
  {
    if a > 0 {
      var next := Min(p + 1, |rows|);
      ForwardForward(rows, next, a - 1, b);
      var rest := WalkForward(rows, next, a - 1);
      Assoc(RowAt(rows, next), rest.rows, WalkForward(rows, rest.position, b).rows);
    }
  }

  /** BACKWARD a then BACKWARD b is BACKWARD a+b. */
  lemma {:induction false} BackwardBackward(rows: seq<Row>, p: int, a: nat, b: nat)
    ensures var first := WalkBackward(rows, p, a);
            var second := WalkBackward(rows, first.position, b);
            WalkBackward(rows, p, a + b) == Visit(second.position, first.rows + second.rows)
    decreases a
  {
    if a > 0 {
      var next := Max(p - 1, -1);
      BackwardBackward(rows, next, a - 1, b);
      var rest := WalkBackward(rows, next, a - 1);
      Assoc(RowAt(rows, next), rest.rows, WalkBackward(rows, rest.position, b).rows);
    }
  }

  /** A jump ahead ends where the walk ends and returns the walk's last row, or nothing if it was cut short. */
  lemma JumpAhead(rows: seq<Row>, p: int, k: nat)
    requires Place(rows, p) && k > 0
    ensures var walk := WalkForward(rows, p, k);
            Jump(rows, p + k) == Visit(walk.position, if |walk.rows| == k then [walk.rows[k - 1]] else [])
  {
    WalkForwardEnds(rows, p, k);
  }

  lemma JumpBack(rows: seq<Row>, p: int, k: nat)
    requires Place(rows, p) && k > 0
    ensures var walk := WalkBackward(rows, p, k);
            Jump(rows, p - k) == Visit(walk.position, if |walk.rows| == k then [walk.rows[k - 1]] else [])
  {
    WalkBackwardEnds(rows, p, k);
  }
}
