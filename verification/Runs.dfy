/** Whole runs of FETCH and MOVE commands on one cursor. */
module Runs {
  import opened Sequences
  import opened Wrappers
  import opened Integers
  import opened Batches
  import opened Walk
  import opened Directions
  import opened Commands
  import opened Cursor

  datatype Command = Command(direction: Direction, fetch: bool)

  function After(p: int, o: Outcome): int {
    if o.Moved? then o.position else p
  }

  /** The outcomes of a run that starts at `p`. */
  function Run(rows: seq<Row>, scroll: bool, p: int, cmds: seq<Command>): (outs: seq<Outcome>)
    ensures |outs| == |cmds|
    decreases |cmds|
  {
    if cmds == [] then [] else
      var o := Directions.Apply(rows, scroll, p, cmds[0].direction, cmds[0].fetch);
      [o] + Run(rows, scroll, After(p, o), cmds[1..])
  }

  function EndsAt(p: int, outs: seq<Outcome>): int
    decreases |outs|
  {
    if outs == [] then p else EndsAt(After(p, outs[0]), outs[1..])
  }

  /** All rows returned in a run, in order. */
  function RowsOf(outs: seq<Outcome>): seq<Row> {
    if outs == [] then [] else (if outs[0].Moved? then outs[0].rows else []) + RowsOf(outs[1..])
  }

  /** The sum of the reported counts. */
  function CountOf(outs: seq<Outcome>): nat {
    if outs == [] then 0 else (if outs[0].Moved? then outs[0].count else 0) + CountOf(outs[1..])
  }

  // ---- Lockstep ----

  ghost predicate Reports(r: Result<CursorStep>, o: Outcome) {
    match o
    case Refused(sqlstate) => r == Err(sqlstate)
    case Moved(_, rows, count) => r.Ok? && StepFlat(r.value.rows) == rows && r.value.count == count
  }

  lemma {:induction false} RunSnoc(rows: seq<Row>, scroll: bool, p: int, cmds: seq<Command>, last: Command)
    ensures var outs := Run(rows, scroll, p, cmds);
            var o := Directions.Apply(rows, scroll, EndsAt(p, outs), last.direction, last.fetch);
            && Run(rows, scroll, p, cmds + [last]) == outs + [o]
            && EndsAt(p, outs + [o]) == After(EndsAt(p, outs), o)
    decreases |cmds|
  {
    if cmds == [] {
      assert cmds + [last] == [last] && [last][1..] == [];
    } else {
      var first := Directions.Apply(rows, scroll, p, cmds[0].direction, cmds[0].fetch);
      assert (cmds + [last])[1..] == cmds[1..] + [last];
      RunSnoc(rows, scroll, After(p, first), cmds[1..], last);
      var outs := Run(rows, scroll, p, cmds);
      hide Directions.Apply;
      assert forall o :: (outs + [o])[1..] == outs[1..] + [o];
    }
  }

  /** A cursor driven by any sequence of commands answers as the walk over its flat rows does. */
  method Replay(c: GatewayCursor, cmds: seq<Command>) returns (results: seq<Result<CursorStep>>)
    requires c.Valid() && forall cmd | cmd in cmds :: Settles(cmd.direction)
    modifies c`position
    ensures c.Valid()
    ensures var outs := Run(c.Rows(), c.scroll, old(c.position), cmds);
            && |results| == |outs|
            && (forall i | 0 <= i < |outs| :: Reports(results[i], outs[i]))
            && c.position == EndsAt(old(c.position), outs)
  {
    results := [];
    ghost var outs := Run(c.Rows(), c.scroll, c.position, []);
    ghost var start := c.position;
    Whole(cmds);
    hide Run, EndsAt, Directions.Apply, DataRows, Reports;
    for i := 0 to |cmds|
      invariant c.Valid() && |results| == |outs| == i
      invariant outs == Run(c.Rows(), c.scroll, start, cmds[..i])
      invariant c.position == EndsAt(start, outs)
      invariant forall k | 0 <= k < i :: Reports(results[k], outs[k])
    {
      RunSnoc(c.Rows(), c.scroll, start, cmds[..i], cmds[i]);
      TakeNext(cmds, i);
      assert cmds[i] in cmds;
      outs := outs + [Directions.Apply(c.Rows(), c.scroll, c.position, cmds[i].direction, cmds[i].fetch)];
      var r := c.Apply(cmds[i].direction, cmds[i].fetch);
      results := results + [r];
    }
  }

  ghost predicate SameReport(a: Result<CursorStep>, b: Result<CursorStep>) {
    match (a, b)
    case (Ok(x), Ok(y)) => StepFlat(x.rows) == StepFlat(y.rows) && x.count == y.count
    case (Err(x), Err(y)) => x == y
    case _ => false
  }

  /** However the rows are batched, two cursors over the same rows stay in lockstep over every run. */
  method Lockstep(a: GatewayCursor, b: GatewayCursor, cmds: seq<Command>)
    returns (ra: seq<Result<CursorStep>>, rb: seq<Result<CursorStep>>)
    requires a != b && a.Valid() && b.Valid() && forall cmd | cmd in cmds :: Settles(cmd.direction)
    requires a.Rows() == b.Rows() && a.scroll == b.scroll && a.position == b.position
    modifies a`position, b`position
    ensures |ra| == |rb| == |cmds| && forall i | 0 <= i < |cmds| :: SameReport(ra[i], rb[i])
    ensures a.position == b.position
  {
    ra := Replay(a, cmds);
    rb := Replay(b, cmds);
  }

  // ---- NO SCROLL ----

  /** How many rows lie at or before a place. */
  function Passed(rows: seq<Row>, p: int): int {
    Min(p + 1, |rows|)
  }

  /** A FETCH with a zero count issued on a row: it returns that row once more. */
  predicate Repeats(rows: seq<Row>, p: int, cmd: Command) {
    IsZero(cmd.direction) && !DirectionRequiresScroll(cmd.direction) && cmd.fetch && 0 <= p < |rows| <= ISIZE_MAX
  }

  function RepeatsIn(rows: seq<Row>, p: int, cmds: seq<Command>): nat
    decreases |cmds|
  {
    if cmds == [] then 0 else
      (if Repeats(rows, p, cmds[0]) then 1 else 0)
      + RepeatsIn(rows, After(p, Directions.Apply(rows, false, p, cmds[0].direction, cmds[0].fetch)), cmds[1..])
  }

  /** The directions a NO SCROLL cursor accepts from the parser walk ahead, or stay for a zero count. */
  lemma NoScrollWalks(rows: seq<Row>, p: int, d: Direction)
    requires !DirectionRequiresScroll(d) && Settles(d) && !NegativeWalk(d)
    ensures var k := Walked(rows, d);
            k >= 0 && Movement(rows, p, d) == Steps(rows, p, k) && (k == 0 <==> IsZero(d))
  {
    hide Steps, Jump;
  }

  /** One command on a NO SCROLL cursor only moves ahead, over the rows it reports. */
  lemma NoScrollStep(rows: seq<Row>, p: int, cmd: Command)
    requires Place(rows, p) && Settles(cmd.direction) && !NegativeWalk(cmd.direction)
    ensures var o := Directions.Apply(rows, false, p, cmd.direction, cmd.fetch);
            var q := After(p, o);
            && p <= q && Place(rows, q)
            && (Repeats(rows, p, cmd) ==> o.Moved?)
            && (o.Moved? ==>
                  && o.count == Passed(rows, q) - Passed(rows, p) + (if Repeats(rows, p, cmd) then 1 else 0)
                  && (!Repeats(rows, p, cmd) ==>
                        o.rows == if cmd.fetch then rows[Passed(rows, p)..Passed(rows, q)] else []))
  {
    var d := cmd.direction;
    if !DirectionRequiresScroll(d) {
      NoScrollWalks(rows, p, d);
      var k := Walked(rows, d);
      if k > 0 {
        WalkForwardEnds(rows, p, k);
        WindowPassed(rows, p, k);
      }
      hide WalkForward, Window, Movement, Walked, IsZero;
    }
  }

  lemma WindowPassed(rows: seq<Row>, p: int, k: nat)
    requires Place(rows, p) && k > 0
    ensures Window(rows, p + 1, p + 1 + k) == rows[Passed(rows, p)..Passed(rows, Min(p + k, |rows|))]
  {
  }

  ghost predicate Parsed(cmds: seq<Command>) {
    forall cmd | cmd in cmds :: Settles(cmd.direction) && Parseable(cmd.direction)
  }

  lemma ParsedTail(cmds: seq<Command>)
    requires Parsed(cmds) && cmds != []
    ensures Parsed(cmds[1..]) && Settles(cmds[0].direction) && !NegativeWalk(cmds[0].direction)
  {
    assert cmds[0] in cmds;
    ParserRange(cmds[0].direction);
  }

  /** A NO SCROLL run, one command at a time. */
  lemma RunCons(rows: seq<Row>, p: int, cmds: seq<Command>)
    requires cmds != []
    ensures var o := Directions.Apply(rows, false, p, cmds[0].direction, cmds[0].fetch);
            var outs, tail := Run(rows, false, p, cmds), Run(rows, false, After(p, o), cmds[1..]);
            && EndsAt(p, outs) == EndsAt(After(p, o), tail)
            && CountOf(outs) == (if o.Moved? then o.count else 0) + CountOf(tail)
            && RowsOf(outs) == (if o.Moved? then o.rows else []) + RowsOf(tail)
            && RepeatsIn(rows, p, cmds)
            == (if Repeats(rows, p, cmds[0]) then 1 else 0) + RepeatsIn(rows, After(p, o), cmds[1..])
  {
    var o := Directions.Apply(rows, false, p, cmds[0].direction, cmds[0].fetch);
    var outs, tail := Run(rows, false, p, cmds), Run(rows, false, After(p, o), cmds[1..]);
    hide Directions.Apply;
    assert outs == [o] + tail && outs[1..] == tail;
  }

  /**
   On a NO SCROLL cursor driven by parsed commands the position never decreases, and the reported counts add up
   to the rows passed plus one for every FETCH of a zero count on a row.
   */
  lemma {:induction false} NoScrollCounts(rows: seq<Row>, p: int, cmds: seq<Command>)
    requires Place(rows, p) && Parsed(cmds)
    ensures var outs := Run(rows, false, p, cmds);
            var q := EndsAt(p, outs);
            && p <= q && Place(rows, q)
            && CountOf(outs) == Passed(rows, q) - Passed(rows, p) + RepeatsIn(rows, p, cmds)
    decreases |cmds|
  {
    if cmds != [] {
      ParsedTail(cmds);
      NoScrollStep(rows, p, cmds[0]);
      var o := Directions.Apply(rows, false, p, cmds[0].direction, cmds[0].fetch);
      RunCons(rows, p, cmds);
      hide Directions.Apply, Run, EndsAt, CountOf, RepeatsIn, Passed, Parsed;
      NoScrollCounts(rows, After(p, o), cmds[1..]);
    }
  }

  /** Without repeats, a run of FETCHes returns exactly the rows passed, in order, none twice and none left out. */
  lemma {:induction false} NoScrollRows(rows: seq<Row>, p: int, cmds: seq<Command>)
    requires Place(rows, p) && Parsed(cmds)
    requires RepeatsIn(rows, p, cmds) == 0 && forall cmd | cmd in cmds :: cmd.fetch
    ensures var outs := Run(rows, false, p, cmds);
            var q := EndsAt(p, outs);
            0 <= Passed(rows, p) <= Passed(rows, q) && RowsOf(outs) == rows[Passed(rows, p)..Passed(rows, q)]
    decreases |cmds|
  {
    NoScrollCounts(rows, p, cmds);
    if cmds != [] {
      ParsedTail(cmds);
      NoScrollStep(rows, p, cmds[0]);
      assert cmds[0] in cmds;
      var o := Directions.Apply(rows, false, p, cmds[0].direction, cmds[0].fetch);
      RunCons(rows, p, cmds);
      hide Directions.Apply, Run, EndsAt, RowsOf, RepeatsIn, Passed, Parsed, Repeats;
      NoScrollRows(rows, After(p, o), cmds[1..]);
      NoScrollCounts(rows, After(p, o), cmds[1..]);
      var outs := Run(rows, false, p, cmds);
      var a, b, c := Passed(rows, p), Passed(rows, After(p, o)), Passed(rows, EndsAt(p, outs));
      Glue(rows, a, b, c);
    }
  }

  /** From a fresh cursor: the rows fetched, or the counts reported, cover the result from its start. */
  lemma NoScrollFromStart(rows: seq<Row>, cmds: seq<Command>)
    requires Parsed(cmds) && RepeatsIn(rows, -1, cmds) == 0
    ensures var outs := Run(rows, false, -1, cmds);
            var q := EndsAt(-1, outs);
            && Place(rows, q) && CountOf(outs) == Min(q + 1, |rows|)
            && ((forall cmd | cmd in cmds :: cmd.fetch) ==> RowsOf(outs) == rows[..Min(q + 1, |rows|)])
  {
    hide Run, EndsAt, CountOf, RowsOf, RepeatsIn, Parsed, Directions.Apply;
    NoScrollCounts(rows, -1, cmds);
    if forall cmd | cmd in cmds :: cmd.fetch {
      NoScrollRows(rows, -1, cmds);
    }
  }
}
