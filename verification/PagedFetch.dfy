/** Reading a result set that arrives column by column, in pages, and turning it into rows. */
module PagedFetch {
  import opened Sequences
  import opened Wrappers
  import opened Batches

  datatype Value = Null | Str(text: string) | Bool(value: bool) | Number(text: string) | Composite(text: string)

  datatype Column = Values(values: seq<Value>) | NotAnArray

  /** The `data` member of a message: absent, or its columns. */
  type Data = Option<seq<Column>>

  function ValueToText(v: Option<Value>): Option<string> {
    match v
    case None => None
    case Some(Null) => None
    case Some(Str(text)) => Some(text)
    case Some(Bool(b)) => Some(if b then "t" else "f")
    case Some(Number(text)) => Some(text)
    case Some(Composite(text)) => Some(text)
  }

  function Height(c: Column): nat {
    if c.Values? then |c.values| else 0
  }

  /** The longest column decides how many rows there are. */
  function RowCount(columns: seq<Column>): nat {
    if columns == [] then 0 else Max(Height(columns[0]), RowCount(columns[1..]))
  }

  function Cell(c: Column, r: nat): Option<string> {
    ValueToText(if c.Values? && r < |c.values| then Some(c.values[r]) else None)
  }

  function RowOf(columns: seq<Column>, r: nat): (row: Row)
    ensures |row| == |columns|
  {
    seq(|columns|, c requires 0 <= c < |columns| => Cell(columns[c], r))
  }

  function Transpose(data: Data): (rows: seq<Row>)
    ensures |rows| == if data.None? then 0 else RowCount(data.value)
  {
    match data
    case None => []
    case Some(columns) => seq(RowCount(columns), r requires 0 <= r < RowCount(columns) => RowOf(columns, r))
  }

  // ---- What the rows show ----

  /** How a client reads the text of a cell, given a value of the kind the column holds there. */
  function ReadCell(text: string, kind: Value): Option<Value> {
    match kind
    case Null => None
    case Str(_) => Some(Str(text))
    case Bool(_) => if text == "t" then Some(Bool(true)) else if text == "f" then Some(Bool(false)) else None
    case Number(_) => Some(Number(text))
    case Composite(_) => Some(Composite(text))
  }

  /** The cell is absent exactly where the column has no value or a null, and else reads as that value. */
  predicate Shows(cell: Option<string>, c: Column, r: nat) {
    if c.Values? && r < |c.values| && c.values[r] != Null
    then cell.Some? && ReadCell(cell.value, c.values[r]) == Some(c.values[r])
    else cell.None?
  }

  /** As many rows as the longest column has values; each shows its cell of every column, in order. */
  ghost predicate Transposed(rows: seq<Row>, columns: seq<Column>) {
    && (forall c | 0 <= c < |columns| && columns[c].Values? :: |columns[c].values| <= |rows|)
    && (rows != [] ==> exists c :: 0 <= c < |columns| && columns[c].Values? && |columns[c].values| == |rows|)
    && (forall r | 0 <= r < |rows| :: |rows[r]| == |columns|)
    && forall r, c | 0 <= r < |rows| && 0 <= c < |columns| :: Shows(rows[r][c], columns[c], r)
  }

  lemma {:induction false} RowCountIsLongest(columns: seq<Column>)
    ensures forall c | 0 <= c < |columns| :: Height(columns[c]) <= RowCount(columns)
    ensures RowCount(columns) > 0 ==> exists c :: 0 <= c < |columns| && Height(columns[c]) == RowCount(columns)
  {
    if columns != [] {
      var rest := columns[1..];
      RowCountIsLongest(rest);
      forall c | 0 <= c < |columns|
        ensures Height(columns[c]) <= RowCount(columns)
      {
        if c > 0 {
          assert columns[c] == rest[c - 1];
        }
      }
      if RowCount(columns) > 0 {
        if Height(columns[0]) < RowCount(columns) {
          var c :| 0 <= c < |rest| && Height(rest[c]) == RowCount(rest);
          assert columns[c + 1] == rest[c];
        } else {
          assert Height(columns[0]) == RowCount(columns);
        }
      }
    }
  }

  lemma CellShows(c: Column, r: nat)
    ensures Shows(Cell(c, r), c, r)
  {
  }

  lemma TransposeShows(columns: seq<Column>)
    ensures Transposed(Transpose(Some(columns)), columns)
  {
    var rows := Transpose(Some(columns));
    RowCountIsLongest(columns);
    forall r, c | 0 <= r < |rows| && 0 <= c < |columns|
      ensures Shows(rows[r][c], columns[c], r)
    {
      CellShows(columns[c], r);
      assert rows[r][c] == Cell(columns[c], r);
    }
    hide Cell, Shows;
    if rows != [] {
      var c :| 0 <= c < |columns| && Height(columns[c]) == RowCount(columns);
      assert columns[c].Values? && |columns[c].values| == |rows|;
    }
  }

  method TransposeData(data: Data) returns (rows: seq<Row>)
    ensures rows == Transpose(data)
    ensures if data.None? then rows == [] else Transposed(rows, data.value)
  {
    if data.Some? {
      TransposeShows(data.value);
    }
    hide Transposed;
    rows := [];
    if data.None? {
      return;
    }
    var columns := data.value;
    var rowCount: nat := 0;
    assert columns[0..] == columns;
    for i := 0 to |columns|
      invariant Max(rowCount, RowCount(columns[i..])) == RowCount(columns)
    {
      assert columns[i..][1..] == columns[i + 1..];
      rowCount := Max(rowCount, Height(columns[i]));
    }
    for r := 0 to rowCount
      invariant |rows| == r && forall k | 0 <= k < r :: rows[k] == RowOf(columns, k)
    {
      var row: Row := [];
      for c := 0 to |columns|
        invariant row == RowOf(columns, r)[..c]
      {
        row := row + [Cell(columns[c], r)];
      }
      assert row == RowOf(columns, r);
      rows := rows + [row];
    }
  }

  // ---- Paging ----

  datatype Chunk = Chunk(data: Data, numRows: Option<nat>)

  /** The first message: the rows it carries, the size of the whole result, and whether more can be fetched. */
  datatype FirstMessage = FirstMessage(chunk: Chunk, totalRows: Option<nat>, hasHandle: bool)

  /** How far a message moves the fetch position: by its own row count, or else by the rows it carries. */
  function Advance(chunk: Chunk): nat {
    AdvanceBy(chunk, |Transpose(chunk.data)|)
  }

  function AdvanceBy(chunk: Chunk, carried: nat): nat {
    if chunk.numRows.Some? then chunk.numRows.value else carried
  }

  lemma AdvanceIs(chunk: Chunk)
    ensures Advance(chunk) == AdvanceBy(chunk, |Transpose(chunk.data)|)
  {
  }

  function Total(first: FirstMessage): nat {
    match first.totalRows
    case Some(n) => n
    case None => 0
  }

  /** A server whose every successful answer moves the position on; without that the loop would not end. */
  ghost predicate Progresses(server: nat -> Result<Chunk>, total: nat) {
    forall start: nat | start < total && server(start).Ok? :: Advance(server(start).value) > 0
  }

  /** Whether the loop, at position `fetched`, is over within `rounds` requests. */
  predicate Ends(server: nat -> Result<Chunk>, fetched: nat, total: nat, rounds: nat)
    decreases rounds
  {
    fetched >= total
    || (rounds > 0
        && (server(fetched).Err? || Ends(server, fetched + Advance(server(fetched).value), total, rounds - 1)))
  }

  ghost predicate EndsSomeday(server: nat -> Result<Chunk>, fetched: nat, total: nat) {
    exists rounds: nat :: Ends(server, fetched, total, rounds)
  }

  lemma {:induction false} StuckNeverEnds(server: nat -> Result<Chunk>, fetched: nat, total: nat, rounds: nat)
    requires fetched < total && server(fetched).Ok? && Advance(server(fetched).value) == 0
    ensures !Ends(server, fetched, total, rounds)
  {
    if rounds > 0 {
      StuckNeverEnds(server, fetched, total, rounds - 1);
    }
  }

  lemma {:induction false} ProgressEnds(server: nat -> Result<Chunk>, fetched: nat, total: nat, rounds: nat)
    requires Progresses(server, total) && total <= fetched + rounds
    ensures Ends(server, fetched, total, rounds)
    decreases rounds
  {
    if fetched < total && server(fetched).Ok? {
      ProgressEnds(server, fetched + Advance(server(fetched).value), total, rounds - 1);
    }
  }

  /** The loop ends from every position if and only if every page that arrives carries rows. */
  lemma LoopEnds(server: nat -> Result<Chunk>, total: nat)
    ensures (forall fetched: nat :: EndsSomeday(server, fetched, total)) <==> Progresses(server, total)
  {
    hide Advance, Ends;
    if Progresses(server, total) {
      forall fetched: nat
        ensures EndsSomeday(server, fetched, total)
      {
        ProgressEnds(server, fetched, total, total);
      }
    } else {
      var start: nat :| start < total && server(start).Ok? && Advance(server(start).value) == 0;
      forall rounds: nat
        ensures !Ends(server, start, total, rounds)
      {
        StuckNeverEnds(server, start, total, rounds);
      }
      assert !EndsSomeday(server, start, total);
    }
  }

  /** The start positions asked for from `fetched` on, up to the first failure. */
  ghost function Starts(server: nat -> Result<Chunk>, fetched: nat, total: nat): seq<nat>
    requires Progresses(server, total)
    decreases total - fetched
  {
    if fetched >= total then []
    else if server(fetched).Err? then [fetched]
    else [fetched] + Starts(server, fetched + Advance(server(fetched).value), total)
  }

  /** The rows of all pages from `fetched` on, or the first failure. */
  ghost function Pages(server: nat -> Result<Chunk>, fetched: nat, total: nat): Result<seq<Row>>
    requires Progresses(server, total)
    decreases total - fetched
  {
    if fetched >= total then Ok([])
    else match server(fetched)
      case Err(e) => Err(e)
      case Ok(chunk) =>
        match Pages(server, fetched + Advance(chunk), total)
        case Err(e) => Err(e)
        case Ok(rest) => Ok(Transpose(chunk.data) + rest)
  }

  ghost function Prefixed(rows: seq<Row>, r: Result<seq<Row>>): Result<seq<Row>> {
    if r.Ok? then Ok(rows + r.value) else r
  }

  lemma PagesUnfold(server: nat -> Result<Chunk>, fetched: nat, total: nat)
    requires Progresses(server, total) && fetched < total
    ensures server(fetched).Err? ==>
              && Pages(server, fetched, total) == Err(server(fetched).sqlstate)
              && Starts(server, fetched, total) == [fetched]
    ensures server(fetched).Ok? ==>
              var chunk := server(fetched).value;
              var next := fetched + Advance(chunk);
              && next > fetched
              && Starts(server, fetched, total) == [fetched] + Starts(server, next, total)
              && Pages(server, fetched, total) == Prefixed(Transpose(chunk.data), Pages(server, next, total))
  {
    hide Transpose, Advance;
  }

  lemma PrefixedTwice(a: seq<Row>, b: seq<Row>, r: Result<seq<Row>>)
    ensures Prefixed(a, Prefixed(b, r)) == Prefixed(a + b, r)
  {
    if r.Ok? {
      Assoc(a, b, r.value);
    }
  }

  lemma PagesStep(rows: seq<Row>, server: nat -> Result<Chunk>, fetched: nat, total: nat)
    requires Progresses(server, total) && fetched < total
    ensures server(fetched).Err? ==>
              && Prefixed(rows, Pages(server, fetched, total)) == Err(server(fetched).sqlstate)
              && Starts(server, fetched, total) == [fetched]
    ensures server(fetched).Ok? ==>
              var chunk := server(fetched).value;
              var next := fetched + Advance(chunk);
              && next > fetched
              && Prefixed(rows, Pages(server, fetched, total))
              == Prefixed(rows + Transpose(chunk.data), Pages(server, next, total))
              && Starts(server, fetched, total) == [fetched] + Starts(server, next, total)
  {
    PagesUnfold(server, fetched, total);
    hide Transpose, Advance, Pages, Starts;
    if server(fetched).Ok? {
      var chunk := server(fetched).value;
      PrefixedTwice(rows, Transpose(chunk.data), Pages(server, fetched + Advance(chunk), total));
    }
  }

  /** The positions asked for begin where the first message ends. */
  ghost predicate Asks(first: FirstMessage, server: nat -> Result<Chunk>, starts: seq<nat>)
    requires first.totalRows.Some?
  {
    exists step: nat :: Moves(first.chunk, step) && Consecutive(server, starts, step, first.totalRows.value)
  }

  lemma AskedFor(first: FirstMessage, server: nat -> Result<Chunk>)
    requires Progresses(server, Total(first))
    ensures first.totalRows.Some? ==> Asks(first, server, Starts(server, Advance(first.chunk), Total(first)))
    ensures first.totalRows.None? ==>
              && Starts(server, Advance(first.chunk), Total(first)) == []
              && Prefixed(Transpose(first.chunk.data), Pages(server, Advance(first.chunk), Total(first)))
              == Ok(Transpose(first.chunk.data))
  {
    if first.totalRows.Some? {
      StartsConsecutive(server, Advance(first.chunk), Total(first));
      assert Moves(first.chunk, Advance(first.chunk));
    } else {
      LastPage(Transpose(first.chunk.data), server, Advance(first.chunk), 0);
    }
  }

  method ParseResultSet(first: FirstMessage, server: nat -> Result<Chunk>)
    returns (r: Result<seq<Row>>, starts: seq<nat>)
    requires Progresses(server, Total(first))
    ensures first.hasHandle ==>
              && r == Prefixed(Transpose(first.chunk.data), Pages(server, Advance(first.chunk), Total(first)))
              && starts == Starts(server, Advance(first.chunk), Total(first))
    ensures !first.hasHandle || first.totalRows.None? ==> r == Ok(Transpose(first.chunk.data)) && starts == []
    ensures first.hasHandle && first.totalRows.Some? ==> Asks(first, server, starts)
  {
    AskedFor(first, server);
    hide *;
    starts := [];
    var total := Total(first);
    var rows := TransposeData(first.chunk.data);
    var fetched := AdvanceBy(first.chunk, |rows|);
    AdvanceIs(first.chunk);
    if !first.hasHandle {
      return Ok(rows), starts;
    }
    ghost var all := Prefixed(rows, Pages(server, fetched, total));
    ghost var asked := Starts(server, fetched, total);
    PendingFirst(rows, server, fetched, total);
    while fetched < total
      invariant Pending(rows, starts, server, fetched, total, all, asked)
      decreases total - fetched
    {
      PendingStep(rows, starts, server, fetched, total, all, asked);
      var answer := server(fetched);
      if answer.Err? {
        return Err(answer.sqlstate), starts + [fetched];
      }
      starts := starts + [fetched];
      var chunkRows := TransposeData(answer.value.data);
      fetched := fetched + AdvanceBy(answer.value, |chunkRows|);
      rows := rows + chunkRows;
    }
    PendingOver(rows, starts, server, fetched, total, all, asked);
    r := Ok(rows);
  }

  /** With `rows` fetched and `starts` asked for, what is still to come leads to `all` and `asked`. */
  ghost predicate Pending(rows: seq<Row>, starts: seq<nat>, server: nat -> Result<Chunk>, fetched: nat, total: nat,
                          all: Result<seq<Row>>, asked: seq<nat>)
    requires Progresses(server, total)
  {
    Prefixed(rows, Pages(server, fetched, total)) == all && starts + Starts(server, fetched, total) == asked
  }

  lemma PendingFirst(rows: seq<Row>, server: nat -> Result<Chunk>, fetched: nat, total: nat)
    requires Progresses(server, total)
    ensures Pending(rows, [], server, fetched, total, Prefixed(rows, Pages(server, fetched, total)),
                    Starts(server, fetched, total))
  {
  }

  lemma PendingStep(rows: seq<Row>, starts: seq<nat>, server: nat -> Result<Chunk>, fetched: nat, total: nat,
                    all: Result<seq<Row>>, asked: seq<nat>)
    requires Progresses(server, total) && fetched < total
    requires Pending(rows, starts, server, fetched, total, all, asked)
    ensures server(fetched).Err? ==> all == Err(server(fetched).sqlstate) && asked == starts + [fetched]
    ensures server(fetched).Ok? ==>
              var carried := Transpose(server(fetched).value.data);
              var next := fetched + AdvanceBy(server(fetched).value, |carried|);
              next > fetched && Pending(rows + carried, starts + [fetched], server, next, total, all, asked)
  {
    PagesStep(rows, server, fetched, total);
    hide Pages, Starts, Prefixed, Progresses, AdvanceBy, Transpose;
    if server(fetched).Ok? {
      Assoc(starts, [fetched], Starts(server, fetched + Advance(server(fetched).value), total));
    }
  }

  lemma PendingOver(rows: seq<Row>, starts: seq<nat>, server: nat -> Result<Chunk>, fetched: nat, total: nat,
                    all: Result<seq<Row>>, asked: seq<nat>)
    requires Progresses(server, total) && fetched >= total
    requires Pending(rows, starts, server, fetched, total, all, asked)
    ensures all == Ok(rows) && asked == starts
  {
    LastPage(rows, server, fetched, total);
    assert starts + [] == starts;
  }

  lemma LastPage(rows: seq<Row>, server: nat -> Result<Chunk>, fetched: nat, total: nat)
    requires Progresses(server, total) && fetched >= total
    ensures Prefixed(rows, Pages(server, fetched, total)) == Ok(rows) && Starts(server, fetched, total) == []
  {
    assert rows + [] == rows;
  }

  /** A message moves the position on by the row count it reports, or by the rows it carries if it reports none. */
  ghost predicate Moves(chunk: Chunk, step: nat) {
    if chunk.numRows.Some? then step == chunk.numRows.value else step == |Transpose(chunk.data)|
  }

  /** The positions asked for: from `from`, below the total, each as far from the one before as its page moves on. */
  ghost predicate Consecutive(server: nat -> Result<Chunk>, starts: seq<nat>, from: nat, total: nat)
    decreases |starts|
  {
    if starts == [] then from >= total else
      && starts[0] == from < total
      && if server(from).Err? then |starts| == 1 else
         exists step: nat :: Moves(server(from).value, step) && Consecutive(server, starts[1..], from + step, total)
  }

  lemma {:induction false} StartsConsecutive(server: nat -> Result<Chunk>, fetched: nat, total: nat)
    requires Progresses(server, total)
    ensures Consecutive(server, Starts(server, fetched, total), fetched, total)
    decreases total - fetched
  {
    if fetched < total && server(fetched).Ok? {
      var step := Advance(server(fetched).value);
      var starts := Starts(server, fetched, total);
      StartsConsecutive(server, fetched + step, total);
      assert Moves(server(fetched).value, step) && starts[1..] == Starts(server, fetched + step, total);
    }
  }

  // ---- A server that holds a table ----

  /** Every column has `n` values. */
  ghost predicate Rectangular(table: seq<seq<Value>>, n: nat) {
    table != [] && forall c | 0 <= c < |table| :: |table[c]| == n
  }

  ghost function Slice(table: seq<seq<Value>>, n: nat, lo: nat, hi: nat): (columns: seq<Column>)
    requires Rectangular(table, n) && lo <= hi <= n
    ensures |columns| == |table|
  {
    seq(|table|, c requires 0 <= c < |table| => Values(table[c][lo..hi]))
  }

  /** The table by rows: the rows of all its columns at once. */
  ghost function TableRows(table: seq<seq<Value>>, n: nat): (rows: seq<Row>)
    requires Rectangular(table, n)
    ensures |rows| == n
  {
    seq(n, r requires 0 <= r < n => seq(|table|, c requires 0 <= c < |table| => ValueToText(Some(table[c][r]))))
  }

  /** Row `r` of the table shows value `r` of every column. */
  lemma TableRowsShow(table: seq<seq<Value>>, n: nat, r: nat, c: nat)
    requires Rectangular(table, n) && r < n && c < |table|
    ensures Shows(TableRows(table, n)[r][c], Values(table[c]), r)
  {
    CellShows(Values(table[c]), r);
  }

  lemma {:induction false} EvenRowCount(columns: seq<Column>, h: nat)
    requires columns != [] && forall c | c in columns :: Height(c) == h
    ensures RowCount(columns) == h
  {
    assert columns[0] in columns;
    if |columns| == 1 {
      assert columns[1..] == [];
    } else {
      EvenRowCount(columns[1..], h);
    }
  }

  /** Transposing a slice of the columns gives that slice of the rows. */
  lemma TransposeSlice(table: seq<seq<Value>>, n: nat, lo: nat, hi: nat)
    requires Rectangular(table, n) && lo <= hi <= n
    ensures Transpose(Some(Slice(table, n, lo, hi))) == TableRows(table, n)[lo..hi]
  {
    var columns := Slice(table, n, lo, hi);
    EvenRowCount(columns, hi - lo);
    hide RowCount;
    var rows := Transpose(Some(columns));
    forall r | 0 <= r < hi - lo
      ensures rows[r] == TableRows(table, n)[lo + r]
    {
      assert forall c | 0 <= c < |columns| :: Cell(columns[c], r) == ValueToText(Some(table[c][lo + r]));
    }
  }

  /** The message holds `k` of the table's rows from `start` on, and if it reports a count it is that one. */
  ghost predicate Carries(chunk: Chunk, table: seq<seq<Value>>, n: nat, start: nat, k: nat)
    requires Rectangular(table, n)
  {
    && start + k <= n && chunk.data == Some(Slice(table, n, start, start + k))
    && (chunk.numRows == None || chunk.numRows == Some(k))
  }

  lemma CarriesAdvance(chunk: Chunk, table: seq<seq<Value>>, n: nat, start: nat, k: nat)
    requires Rectangular(table, n) && Carries(chunk, table, n, start, k)
    ensures Advance(chunk) == k == |Transpose(chunk.data)| && Contiguous(chunk, table, n, start)
  {
    var columns := Slice(table, n, start, start + k);
    EvenRowCount(columns, k);
    hide RowCount;
  }

  ghost predicate Contiguous(chunk: Chunk, table: seq<seq<Value>>, n: nat, start: nat)
    requires Rectangular(table, n)
  {
    start + Advance(chunk) <= n && chunk.data == Some(Slice(table, n, start, start + Advance(chunk)))
  }

  ghost predicate Serves(server: nat -> Result<Chunk>, table: seq<seq<Value>>, n: nat)
    requires Rectangular(table, n)
  {
    forall start: nat | start < n && server(start).Ok? ::
      exists k: nat :: k > 0 && Carries(server(start).value, table, n, start, k)
  }

  lemma ServesContiguous(server: nat -> Result<Chunk>, table: seq<seq<Value>>, n: nat)
    requires Rectangular(table, n) && Serves(server, table, n)
    ensures Progresses(server, n)
    ensures forall start: nat | start < n && server(start).Ok? ::
              && Advance(server(start).value) > 0 && Contiguous(server(start).value, table, n, start)
              && Advance(server(start).value) == |Transpose(server(start).value.data)|
  {
    forall start: nat | start < n && server(start).Ok?
      ensures Advance(server(start).value) > 0 && Contiguous(server(start).value, table, n, start)
      ensures Advance(server(start).value) == |Transpose(server(start).value.data)|
    {
      var k: nat :| k > 0 && Carries(server(start).value, table, n, start, k);
      CarriesAdvance(server(start).value, table, n, start, k);
    }
  }

  ghost predicate AllAnswered(server: nat -> Result<Chunk>, starts: seq<nat>) {
    forall start | start in starts :: server(start).Ok?
  }

  lemma AllAnsweredCons(server: nat -> Result<Chunk>, start: nat, rest: seq<nat>)
    ensures AllAnswered(server, [start] + rest) <==> server(start).Ok? && AllAnswered(server, rest)
    ensures AllAnswered(server, [])
    ensures AllAnswered(server, [start]) <==> server(start).Ok?
  {
    assert forall x | x in rest :: x in [start] + rest;
    assert start in [start] + rest && start in [start];
  }

  /** One page of a server that holds the table. */
  lemma PageOf(server: nat -> Result<Chunk>, table: seq<seq<Value>>, n: nat, fetched: nat) returns (next: nat)
    requires Rectangular(table, n) && Serves(server, table, n) && fetched < n
    ensures Progresses(server, n)
    ensures server(fetched).Err? ==>
              Pages(server, fetched, n).Err? && Starts(server, fetched, n) == [fetched]
    ensures server(fetched).Ok? ==>
              && next == fetched + Advance(server(fetched).value) && fetched < next <= n
              && Starts(server, fetched, n) == [fetched] + Starts(server, next, n)
              && Pages(server, fetched, n) == Prefixed(TableRows(table, n)[fetched..next], Pages(server, next, n))
  {
    ServesProgresses(server, table, n);
    PagesUnfold(server, fetched, n);
    next := fetched;
    if server(fetched).Ok? {
      ServedAt(server, table, n, fetched);
      next := fetched + Advance(server(fetched).value);
    }
    hide *;
  }

  lemma ServesProgresses(server: nat -> Result<Chunk>, table: seq<seq<Value>>, n: nat)
    requires Rectangular(table, n) && Serves(server, table, n)
    ensures Progresses(server, n)
  {
    ServesContiguous(server, table, n);
    hide Serves, Advance, Rectangular;
  }

  lemma ServedAt(server: nat -> Result<Chunk>, table: seq<seq<Value>>, n: nat, start: nat)
    requires Rectangular(table, n) && Serves(server, table, n) && start < n && server(start).Ok?
    ensures var chunk := server(start).value;
            && Advance(chunk) == |Transpose(chunk.data)| > 0 && start + Advance(chunk) <= n
            && Transpose(chunk.data) == TableRows(table, n)[start..start + Advance(chunk)]
  {
    ServesContiguous(server, table, n);
    hide Serves, Advance, Rectangular, Transpose, TableRows, Slice;
    assert Contiguous(server(start).value, table, n, start);
    TransposeSlice(table, n, start, start + Advance(server(start).value));
  }

  lemma {:induction false} PagesAreTheRest(server: nat -> Result<Chunk>, table: seq<seq<Value>>, n: nat, fetched: nat)
    requires Rectangular(table, n) && Serves(server, table, n) && fetched <= n
    ensures Progresses(server, n)
    ensures Pages(server, fetched, n).Ok? <==> AllAnswered(server, Starts(server, fetched, n))
    ensures Pages(server, fetched, n).Ok? ==> Pages(server, fetched, n).value == TableRows(table, n)[fetched..]
    decreases n - fetched
  {
    ServesProgresses(server, table, n);
    hide Pages, Starts, Progresses, TableRows, Advance, Serves, AllAnswered;
    var rows := TableRows(table, n);
    AllAnsweredCons(server, fetched, []);
    if fetched == n {
      LastPage([], server, fetched, n);
    } else {
      var next := PageOf(server, table, n, fetched);
      if server(fetched).Ok? {
        AllAnsweredCons(server, fetched, Starts(server, next, n));
        PagesAreTheRest(server, table, n, next);
        JoinAt(rows, fetched, next);
      }
    }
  }

  lemma JoinAt(rows: seq<Row>, lo: nat, mid: nat)
    requires lo <= mid <= |rows|
    ensures rows[lo..mid] + rows[mid..] == rows[lo..]
  {
  }

  /** The pages asked for are consecutive: they begin where the first message ends and finish at the total. */
  ghost predicate Partition(server: nat -> Result<Chunk>, starts: seq<nat>, from: nat, to: nat)
    decreases |starts|
  {
    if starts == [] then from == to
    else
      && starts[0] == from < to && server(from).Ok?
      && Partition(server, starts[1..], from + |Transpose(server(from).value.data)|, to)
  }

  lemma {:induction false} StartsPartition(server: nat -> Result<Chunk>, table: seq<seq<Value>>, n: nat, fetched: nat)
    requires Rectangular(table, n) && Serves(server, table, n) && fetched <= n
    ensures Progresses(server, n)
    ensures Pages(server, fetched, n).Ok? ==> Partition(server, Starts(server, fetched, n), fetched, n)
    decreases n - fetched
  {
    ServesProgresses(server, table, n);
    hide Serves, Transpose, Slice, Contiguous, Pages, Starts, TableRows, Rectangular, Advance, Progresses;
    if fetched == n {
      LastPage([], server, fetched, n);
    } else {
      var next := PageOf(server, table, n, fetched);
      if server(fetched).Ok? {
        ServedAt(server, table, n, fetched);
        StartsPartition(server, table, n, next);
        assert ([fetched] + Starts(server, next, n))[1..] == Starts(server, next, n);
      }
    }
  }

  /**
   Against a server that answers each start position with a non-empty contiguous chunk, the paged fetch returns
   the transposed table, whatever the page sizes, unless a request fails. The first message carries `f` rows.
   */
  lemma FetchesWholeTable(first: FirstMessage, server: nat -> Result<Chunk>, table: seq<seq<Value>>, n: nat, f: nat)
    requires Rectangular(table, n) && Serves(server, table, n)
    requires first.totalRows == Some(n) && Carries(first.chunk, table, n, 0, f)
    ensures Progresses(server, n) && Advance(first.chunk) == f
    ensures var r := Prefixed(Transpose(first.chunk.data), Pages(server, f, n));
            var starts := Starts(server, f, n);
            && (r.Ok? <==> AllAnswered(server, starts))
            && (r.Ok? ==> r.value == TableRows(table, n) && Partition(server, starts, f, n))
  {
    CarriesAdvance(first.chunk, table, n, 0, f);
    ServesContiguous(server, table, n);
    TransposeSlice(table, n, 0, f);
    PagesAreTheRest(server, table, n, f);
    StartsPartition(server, table, n, f);
    hide *;
    assert TableRows(table, n)[..f] + TableRows(table, n)[f..] == TableRows(table, n);
  }
}
