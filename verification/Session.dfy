/**
 The cursors and the current schema of one session. DECLARE runs in three parts (check, execute, insert) and SET
 search_path in two (open, record): no lock is held from one part to the next, so the state machine lets other
 commands of the session come between them.
 */
module Session {
  import opened Wrappers
  import opened Text
  import SearchPath
  import opened Batches
  import opened Walk
  import opened Directions
  import opened Cursor
  import opened Runs

  datatype CursorValue = CursorValue(data: CursorData, position: int, scroll: bool, hold: bool)

  datatype Declare = Declare(name: string, scroll: bool, hold: bool)

  datatype ExasolOutcome = ArrowOutcome(batches: seq<Batch>) | TypedOutcome(rows: seq<Row>) | RowCount(count: int)

  /** `Error` is an error response, `Failed` an error returned to the protocol layer. */
  datatype Reply =
    | Error(sqlstate: string) | Failed(sqlstate: string)
    | Executed(command: string, count: Option<nat>) | Fetched(rows: seq<Row>) | Shown(value: string)

  type Registry = map<string, CursorValue>

  // ---- What each handler does to the registry ----

  /** The check before a DECLARE executes; `safe` says its query is a supported row-returning one. */
  function CheckSpec(cursors: Registry, declare: Declare, safe: bool): Option<Reply> {
    if !safe then Some(Error("0A000"))
    else if declare.name in cursors then Some(Error("42P03"))
    else None
  }

  function Materialise(outcome: Result<ExasolOutcome>): Result<CursorData> {
    match outcome
    case Err(sqlstate) => Err(sqlstate)
    case Ok(ArrowOutcome(batches)) => Ok(Arrow(batches))
    case Ok(TypedOutcome(rows)) => Ok(Typed(rows))
    case Ok(RowCount(_)) => Err("0A000")
  }

  /** The rows a query answered with, batches included. */
  function RowsIn(outcome: ExasolOutcome): CursorData
    requires !outcome.RowCount?
  {
    if outcome.ArrowOutcome? then Arrow(outcome.batches) else Typed(outcome.rows)
  }

  function InsertSpec(cursors: Registry, declare: Declare, data: CursorData): (Registry, Reply) {
    if declare.name in cursors then (cursors, Error("42P03"))
    else (cursors[declare.name := CursorValue(data, -1, declare.scroll, declare.hold)],
          Executed("DECLARE CURSOR", None))
  }

  function StepSpec(cursors: Registry, name: string, direction: Direction, fetch: bool): (Registry, Reply) {
    if name !in cursors then (cursors, Error("34000")) else
      var c := cursors[name];
      match Directions.Apply(DataRows(c.data), c.scroll, c.position, direction, fetch)
      case Refused(sqlstate) => (cursors, Failed(sqlstate))
      case Moved(p, rows, count) =>
        (cursors[name := c.(position := p)], if fetch then Fetched(rows) else Executed("MOVE", Some(count)))
  }

  function CloseSpec(cursors: Registry, name: string): (Registry, Reply) {
    if name !in cursors then (cursors, Error("34000")) else (cursors - {name}, Executed("CLOSE CURSOR", None))
  }

  function HeldOnly(cursors: Registry): Registry {
    map name | name in cursors && cursors[name].hold :: cursors[name]
  }

  const PUBLIC: string := "public"

  const OPEN: string := "OPEN SCHEMA "

  function OpenSchemaSql(schema: string): string {
    OPEN + QuoteIdentifier(schema)
  }

  /** The schema named in the statement sent to the backend is the one asked for, quotes and all. */
  lemma OpensTheSchema(schema: string)
    ensures OpenSchemaSql(schema)[..|OPEN|] == OPEN
    ensures SearchPath.ParseSearchPathValue(OpenSchemaSql(schema)[|OPEN|..]) == SearchPath.NonEmpty(schema)
  {
    assert OpenSchemaSql(schema)[|OPEN|..] == QuoteIdentifier(schema);
    assert "" + QuoteIdentifier(schema) + "" == QuoteIdentifier(schema);
    SearchPath.QuotedRoundTrip("", schema, "");
  }

  // ---- The handlers ----

  class SessionState {
    var cursors: map<string, GatewayCursor>
    var currentSchema: Option<string>
    /** The schema the Exasol session is on, as far as this session opened it. */
    var backendSchema: Option<string>

    ghost predicate Valid()
      reads this, cursors.Values
    {
      && (forall name | name in cursors :: cursors[name].Valid())
      && (forall a, b | a in cursors && b in cursors && a != b :: cursors[a] != cursors[b])
    }

    /** The registry as values. */
    ghost function View(): Registry
      reads this, cursors.Values
    {
      map name | name in cursors :: Value(cursors[name])
    }

    static ghost function Value(c: GatewayCursor): CursorValue
      reads c
    {
      CursorValue(c.data, c.position, c.scroll, c.hold)
    }

    constructor ()
      ensures Valid() && View() == map[] && currentSchema == None && backendSchema == None
    {
      cursors := map[];
      currentSchema, backendSchema := None, None;
    }

    method CheckDeclare(declare: Declare, safe: bool) returns (refused: Option<Reply>)
      ensures refused == CheckSpec(View(), declare, safe)
    {
      if !safe {
        return Some(Error("0A000"));
      }
      refused := if declare.name in cursors then Some(Error("42P03")) else None;
    }

    method InsertDeclared(declare: Declare, data: CursorData) returns (reply: Reply)
      requires Valid() && Storable(data)
      modifies this`cursors
      ensures Valid()
      ensures View() == InsertSpec(old(View()), declare, data).0 && reply == InsertSpec(old(View()), declare, data).1
      ensures declare.name in old(View()) ==> View() == old(View()) && reply == Error("42P03")
      ensures declare.name !in old(View()) ==>
                && View() == old(View())[declare.name := CursorValue(data, -1, declare.scroll, declare.hold)]
                && reply == Executed("DECLARE CURSOR", None)
    {
      hide DataRows, Storable;
      var cursor := new GatewayCursor(data, declare.scroll, declare.hold);
      if declare.name in cursors {
        return Error("42P03");
      }
      ghost var before := View();
      cursors := cursors[declare.name := cursor];
      assert View() == before[declare.name := CursorValue(data, -1, declare.scroll, declare.hold)];
      reply := Executed("DECLARE CURSOR", None);
    }

    /**
     A DECLARE that nothing comes between; `outcome` is what the backend answers to its query. The new cursor holds
     the outcome's rows, in the same batches, before the first of them.
     */
    method DeclareCursor(declare: Declare, safe: bool, outcome: Result<ExasolOutcome>) returns (reply: Reply)
      requires Valid() && (Materialise(outcome).Ok? ==> Storable(Materialise(outcome).value))
      modifies this`cursors
      ensures Valid()
      ensures var declared := safe && declare.name !in old(View()) && outcome.Ok? && !outcome.value.RowCount?;
              && (declared <==> reply == Executed("DECLARE CURSOR", None))
              && View() == if !declared then old(View()) else
                 old(View())[declare.name := CursorValue(RowsIn(outcome.value), -1, declare.scroll, declare.hold)]
      ensures !safe ==> reply == Error("0A000")
      ensures safe && declare.name in old(View()) ==> reply == Error("42P03")
      ensures safe && declare.name !in old(View()) ==>
                && (outcome.Err? ==> reply == Failed(outcome.sqlstate))
                && (outcome.Ok? && outcome.value.RowCount? ==> reply == Error("0A000"))
    {
      hide Storable;
      var refused := CheckDeclare(declare, safe);
      if refused.Some? {
        return refused.value;
      }
      var data := Materialise(outcome);
      if data.Err? {
        return if outcome.Err? then Failed(data.sqlstate) else Error(data.sqlstate);
      }
      reply := InsertDeclared(declare, data.value);
    }

    /** The step both FETCH and MOVE take on a cursor they found, with the registry locked. */
    method ApplyTo(name: string, direction: Direction, returnRows: bool) returns (step: Result<CursorStep>)
      requires Valid() && name in cursors && Settles(direction)
      modifies cursors.Values
      ensures Valid()
      ensures var c := old(View())[name];
              match Directions.Apply(DataRows(c.data), c.scroll, c.position, direction, returnRows)
              case Refused(sqlstate) => step == Err(sqlstate) && View() == old(View())
              case Moved(p, rows, count) =>
                && step.Ok? && step.value.count == count && StepFlat(step.value.rows) == rows
                && step.value.rows.ArrowRows? == c.data.Arrow?
                && View() == old(View())[name := c.(position := p)]
    {
      hide Directions.Apply, DataRows, StepFlat, Storable;
      var cursor := cursors[name];
      ghost var before := View();
      step := cursor.Apply(direction, returnRows);
      assert forall n | n in cursors && n != name :: cursors[n] != cursor;
      assert View() == before[name := before[name].(position := cursor.position)];
    }

    method FetchCursor(name: string, direction: Direction) returns (reply: Reply)
      requires Valid() && Settles(direction)
      modifies cursors.Values
      ensures Valid()
      ensures View() == StepSpec(old(View()), name, direction, true).0
      ensures name !in old(View()) ==> View() == old(View()) && reply == Error("34000")
      ensures name in old(View()) ==>
                var c := old(View())[name];
                match Directions.Apply(DataRows(c.data), c.scroll, c.position, direction, true)
                case Refused(sqlstate) => View() == old(View()) && reply == Failed(sqlstate)
                case Moved(p, rows, _) => View() == old(View())[name := c.(position := p)] && reply == Fetched(rows)
    {
      if name !in cursors {
        return Error("34000");
      }
      hide Directions.Apply, DataRows, Storable;
      var cursor := cursors[name];
      var step := ApplyTo(name, direction, true);
      if step.Err? {
        return Failed(step.sqlstate);
      }
      match (cursor.data, step.value.rows) {
        case (Arrow(_), ArrowRows(batches)) => reply := Fetched(Flatten(batches));
        case (Typed(_), TypedRows(rows)) => reply := Fetched(rows);
      }
    }

    method MoveCursor(name: string, direction: Direction) returns (reply: Reply)
      requires Valid() && Settles(direction)
      modifies cursors.Values
      ensures Valid()
      ensures View() == StepSpec(old(View()), name, direction, false).0
      ensures name !in old(View()) ==> View() == old(View()) && reply == Error("34000")
      ensures name in old(View()) ==>
                var c := old(View())[name];
                match Directions.Apply(DataRows(c.data), c.scroll, c.position, direction, false)
                case Refused(sqlstate) => View() == old(View()) && reply == Failed(sqlstate)
                case Moved(p, _, count) =>
                  View() == old(View())[name := c.(position := p)] && reply == Executed("MOVE", Some(count))
    {
      if name !in cursors {
        return Error("34000");
      }
      hide Directions.Apply, DataRows, Storable, StepFlat;
      var step := ApplyTo(name, direction, false);
      reply := if step.Err? then Failed(step.sqlstate) else Executed("MOVE", Some(step.value.count));
    }

    method CloseCursor(name: string) returns (reply: Reply)
      requires Valid()
      modifies this`cursors
      ensures Valid() && View() == CloseSpec(old(View()), name).0
      ensures View() == old(View()) - {name}
      ensures reply == if name in old(View()) then Executed("CLOSE CURSOR", None) else Error("34000")
    {
      if name !in cursors {
        return Error("34000");
      }
      cursors := cursors - {name};
      reply := Executed("CLOSE CURSOR", None);
    }

    method CloseAll() returns (reply: Reply)
      modifies this`cursors
      ensures Valid() && View() == map[] && reply == Executed("CLOSE CURSOR", None)
    {
      cursors := map[];
      reply := Executed("CLOSE CURSOR", None);
    }

    /** COMMIT, ROLLBACK, END and ABORT keep exactly the hold cursors, as they are. */
    method ClearNonHoldCursors()
      requires Valid()
      modifies this`cursors
      ensures Valid() && View() == HeldOnly(old(View()))
      ensures forall name :: name in View() <==> name in old(View()) && old(View())[name].hold
      ensures forall name | name in View() :: View()[name] == old(View())[name]
    {
      cursors := map name | name in cursors && cursors[name].hold :: cursors[name];
    }

    /** `opens` says which OPEN SCHEMA statements the backend accepts. */
    method OpenSchema(schema: string, opens: string -> bool) returns (accepted: bool)
      modifies this`backendSchema
      ensures accepted == opens(OpenSchemaSql(schema))
      ensures backendSchema == if accepted then Some(schema) else old(backendSchema)
    {
      accepted := opens(OpenSchemaSql(schema));
      if accepted {
        backendSchema := Some(schema);
      }
    }

    /** A SET search_path that nothing comes between. */
    method SetSearchPath(schema: string, opens: string -> bool) returns (reply: Reply)
      modifies this`currentSchema, this`backendSchema
      ensures opens(OpenSchemaSql(schema)) ==>
                currentSchema == backendSchema == Some(schema) && reply == Executed("SET", None)
      ensures !opens(OpenSchemaSql(schema)) ==>
                unchanged(`currentSchema) && unchanged(`backendSchema) && reply == Failed("XX000")
    {
      var accepted := OpenSchema(schema, opens);
      if !accepted {
        return Failed("XX000");
      }
      currentSchema := Some(schema);
      reply := Executed("SET", None);
    }

    method ShowSearchPath() returns (reply: Reply)
      ensures reply == Shown(if currentSchema.Some? then currentSchema.value else PUBLIC)
    {
      reply := Shown(if currentSchema.Some? then currentSchema.value else PUBLIC);
    }
  }

  // ---- The session as a state machine over interleaved commands ----

  datatype Pending = Checked(declare: Declare) | Ready(declare: Declare, data: CursorData)

  /** `opening` holds the schemas opened but not yet recorded, oldest first; `backend` is the one opened last. */
  datatype State = State(
    cursors: Registry,
    pending: map<nat, Pending>,
    schema: Option<string>,
    opening: seq<string>,
    backend: Option<string>)

  /** A command that never settles gets no answer, so it is no event. */
  type Settling = d: Direction | Settles(d) witness First

  /** A DECLARE in progress is known by its ticket number, an opened schema by its place in `opening`. */
  datatype Event =
    | Check(ticket: nat, declare: Declare, safe: bool)
    | Execute(ticket: nat, outcome: Result<ExasolOutcome>)
    | Insert(ticket: nat)
    | Fetch(name: string, direction: Settling)
    | Move(name: string, direction: Settling)
    | Close(name: string)
    | CloseEvery
    | EndTransaction
    | Open(schema: string, succeeded: bool)
    | Record(place: nat)

  const START := State(map[], map[], None, [], None)

  function Next(s: State, e: Event): State {
    match e
    case Check(ticket, declare, safe) =>
      if ticket !in s.pending && CheckSpec(s.cursors, declare, safe) == None
      then s.(pending := s.pending[ticket := Checked(declare)]) else s
    case Execute(ticket, outcome) =>
      if ticket !in s.pending || !s.pending[ticket].Checked? then s else
      (match Materialise(outcome)
       case Err(_) => s.(pending := s.pending - {ticket})
       case Ok(data) => s.(pending := s.pending[ticket := Ready(s.pending[ticket].declare, data)]))
    case Insert(ticket) =>
      if ticket !in s.pending || !s.pending[ticket].Ready? then s else
      var p := s.pending[ticket];
      s.(cursors := InsertSpec(s.cursors, p.declare, p.data).0, pending := s.pending - {ticket})
    case Fetch(name, direction) => s.(cursors := StepSpec(s.cursors, name, direction, true).0)
    case Move(name, direction) => s.(cursors := StepSpec(s.cursors, name, direction, false).0)
    case Close(name) => s.(cursors := CloseSpec(s.cursors, name).0)
    case CloseEvery => s.(cursors := map[])
    case EndTransaction => s.(cursors := HeldOnly(s.cursors))
    case Open(schema, succeeded) =>
      if succeeded then s.(opening := s.opening + [schema], backend := Some(schema)) else s
    case Record(i) =>
      if i >= |s.opening| then s else
      s.(schema := Some(s.opening[i]), opening := s.opening[..i] + s.opening[i + 1..])
  }

  function RunOf(s: State, events: seq<Event>): State
    decreases |events|
  {
    if events == [] then s else RunOf(Next(s, events[0]), events[1..])
  }

  /** The DECLARE of `name` that event `e` completes successfully, if any. */
  predicate Declares(s: State, e: Event, name: string) {
    && e.Insert? && e.ticket in s.pending && s.pending[e.ticket].Ready?
    && s.pending[e.ticket].declare.name == name && name !in s.cursors
  }

  /** Event `e` closes cursor `name`. */
  predicate Removes(s: State, e: Event, name: string) {
    && name in s.cursors
    && (e == Close(name) || e == CloseEvery || (e == EndTransaction && !s.cursors[name].hold))
  }

  function Present(s: State, name: string): int {
    if name in s.cursors then 1 else 0
  }

  function Declared(s: State, events: seq<Event>, name: string): nat
    decreases |events|
  {
    if events == [] then 0 else
      (if Declares(s, events[0], name) then 1 else 0) + Declared(Next(s, events[0]), events[1..], name)
  }

  function Removed(s: State, events: seq<Event>, name: string): nat
    decreases |events|
  {
    if events == [] then 0 else
      (if Removes(s, events[0], name) then 1 else 0) + Removed(Next(s, events[0]), events[1..], name)
  }

  /** A cursor appears only by a DECLARE that found its name free, and disappears only by being closed. */
  lemma StepConserves(s: State, e: Event, name: string)
    ensures Present(Next(s, e), name) ==
              Present(s, name) + (if Declares(s, e, name) then 1 else 0) - (if Removes(s, e, name) then 1 else 0)
  {
  }

  /** Successful DECLAREs minus removals of a name is whether it exists: no DECLARE ever replaces a cursor. */
  lemma {:induction false} DeclaresConserved(s: State, events: seq<Event>, name: string)
    ensures Declared(s, events, name) - Removed(s, events, name)
         == Present(RunOf(s, events), name) - Present(s, name)
    decreases |events|
  {
    if events != [] {
      StepConserves(s, events[0], name);
      DeclaresConserved(Next(s, events[0]), events[1..], name);
    }
  }

  /** Of racing DECLAREs of one name at most one succeeds, unless the name is freed in between. */
  lemma AtMostOneWins(s: State, events: seq<Event>, name: string)
    requires Removed(s, events, name) == 0
    ensures Declared(s, events, name) <= 1 - Present(s, name)
  {
    DeclaresConserved(s, events, name);
  }

  /** `name` is a cursor at every point of the run. */
  predicate Alive(s: State, events: seq<Event>, name: string)
    decreases |events|
  {
    name in s.cursors && (events == [] || Alive(Next(s, events[0]), events[1..], name))
  }

  /** The FETCH and MOVE commands of a run that address `name`. */
  function CommandsFor(events: seq<Event>, name: string): seq<Command> {
    if events == [] then [] else
      (match events[0]
       case Fetch(n, direction) => if n == name then [Command(direction, true)] else []
       case Move(n, direction) => if n == name then [Command(direction, false)] else []
       case _ => []) + CommandsFor(events[1..], name)
  }

  lemma RunOne(rows: seq<Row>, scroll: bool, p: int, cmd: Command)
    ensures EndsAt(p, Run(rows, scroll, p, [cmd]))
         == After(p, Directions.Apply(rows, scroll, p, cmd.direction, cmd.fetch))
  {
    assert [cmd][1..] == [];
    hide Directions.Apply;
    assert forall o: Outcome :: [o] + [] == [o] && [o][1..] == [];
  }

  predicate Addresses(e: Event, name: string) {
    (e.Fetch? || e.Move?) && e.name == name
  }

  lemma OthersLeaveAlone(s: State, e: Event, name: string)
    requires name in s.cursors && name in Next(s, e).cursors && !Addresses(e, name)
    ensures Next(s, e).cursors[name] == s.cursors[name]
  {
    hide Directions.Apply;
  }

  lemma StepIsolated(s: State, e: Event, name: string)
    requires name in s.cursors && name in Next(s, e).cursors
    ensures var c, after := s.cursors[name], Next(s, e).cursors[name];
            var outs := Run(DataRows(c.data), c.scroll, c.position, CommandsFor([e], name));
            after == c.(position := EndsAt(c.position, outs))
  {
    var c := s.cursors[name];
    assert [e][1..] == [];
    if Addresses(e, name) {
      var cmd := Command(e.direction, e.Fetch?);
      assert CommandsFor([e], name) == [cmd];
      RunOne(DataRows(c.data), c.scroll, c.position, cmd);
      hide Run, EndsAt, Directions.Apply, CommandsFor;
    } else {
      OthersLeaveAlone(s, e, name);
      hide Next, Directions.Apply;
      assert CommandsFor([e], name) == [];
    }
  }

  /**
   A cursor that lives through a run keeps its rows, its SCROLL and its HOLD, and stands where its own FETCH and
   MOVE commands alone would have taken it: nothing else in the session, transaction ends included, moves it.
   */
  lemma {:induction false} Isolated(s: State, events: seq<Event>, name: string)
    requires Alive(s, events, name)
    ensures name in RunOf(s, events).cursors
    ensures var c := s.cursors[name];
            var outs := Run(DataRows(c.data), c.scroll, c.position, CommandsFor(events, name));
            RunOf(s, events).cursors[name] == c.(position := EndsAt(c.position, outs))
    decreases |events|
  {
    if events != [] {
      var s' := Next(s, events[0]);
      StepIsolated(s, events[0], name);
      Isolated(s', events[1..], name);
      var c := s.cursors[name];
      var rows, head, tail := DataRows(c.data), CommandsFor([events[0]], name), CommandsFor(events[1..], name);
      assert [events[0]][1..] == [];
      assert CommandsFor(events, name) == head + tail;
      hide Next;
      if head != [] {
        assert head[1..] == [] && (head + tail)[1..] == tail;
      } else {
        assert head + tail == tail;
      }
    }
  }

  /** What a client is told of the outcome of a FETCH or MOVE. */
  function ReplyFor(o: Outcome, fetch: bool): Reply {
    match o
    case Refused(sqlstate) => Failed(sqlstate)
    case Moved(_, rows, count) => if fetch then Fetched(rows) else Executed("MOVE", Some(count))
  }

  function RepliesFor(outs: seq<Outcome>, cmds: seq<Command>): seq<Reply>
    requires |outs| == |cmds|
  {
    if outs == [] then [] else [ReplyFor(outs[0], cmds[0].fetch)] + RepliesFor(outs[1..], cmds[1..])
  }

  /** The replies a session gives, in order, to the FETCH and MOVE commands of a run that address `name`. */
  function RepliesTo(s: State, events: seq<Event>, name: string): seq<Reply>
    decreases |events|
  {
    if events == [] then [] else
      var e := events[0];
      (if Addresses(e, name) then [StepSpec(s.cursors, name, e.direction, e.Fetch?).1] else [])
      + RepliesTo(Next(s, e), events[1..], name)
  }

  lemma RepliesHead(rows: seq<Row>, scroll: bool, p: int, cmd: Command, cmds: seq<Command>)
    ensures var o := Directions.Apply(rows, scroll, p, cmd.direction, cmd.fetch);
            RepliesFor(Run(rows, scroll, p, [cmd] + cmds), [cmd] + cmds)
              == [ReplyFor(o, cmd.fetch)] + RepliesFor(Run(rows, scroll, After(p, o), cmds), cmds)
  {
    var o := Directions.Apply(rows, scroll, p, cmd.direction, cmd.fetch);
    var tail := Run(rows, scroll, After(p, o), cmds);
    assert ([cmd] + cmds)[1..] == cmds;
    hide Directions.Apply;
    assert Run(rows, scroll, p, [cmd] + cmds) == [o] + tail;
    assert ([o] + tail)[1..] == tail;
  }

  lemma StepReplies(s: State, e: Event, name: string)
    requires name in s.cursors && Addresses(e, name)
    ensures var c := s.cursors[name];
            var o := Directions.Apply(DataRows(c.data), c.scroll, c.position, e.direction, e.Fetch?);
            && StepSpec(s.cursors, name, e.direction, e.Fetch?).1 == ReplyFor(o, e.Fetch?)
            && Next(s, e).cursors == s.cursors[name := c.(position := After(c.position, o))]
  {
    hide Directions.Apply;
    var c := s.cursors[name];
    assert s.cursors[name := c] == s.cursors;
  }

  /**
   The replies to a living cursor's commands are, in order, the rows and counts its own commands alone would have
   got from its rows: nothing else in the session shows in them.
   */
  lemma {:induction false} RepliesIsolated(s: State, events: seq<Event>, name: string)
    requires Alive(s, events, name)
    ensures var c, cmds := s.cursors[name], CommandsFor(events, name);
            RepliesTo(s, events, name) == RepliesFor(Run(DataRows(c.data), c.scroll, c.position, cmds), cmds)
    decreases |events|
  {
    if events != [] {
      var e, c := events[0], s.cursors[name];
      var rest := CommandsFor(events[1..], name);
      RepliesIsolated(Next(s, e), events[1..], name);
      if Addresses(e, name) {
        StepReplies(s, e, name);
        var cmd := Command(e.direction, e.Fetch?);
        assert CommandsFor(events, name) == [cmd] + rest;
        hide Next, StepSpec, Directions.Apply, Run, RepliesFor;
        RepliesHead(DataRows(c.data), c.scroll, c.position, cmd, rest);
      } else {
        OthersLeaveAlone(s, e, name);
        assert CommandsFor(events, name) == [] + rest == rest;
        hide Next, StepSpec, Directions.Apply, Run, RepliesFor;
      }
    }
  }

  /**
   A DECLARE that nothing comes between, in the state machine: it begins only for a supported query and a free name,
   and then adds a cursor on exactly the rows the query answers with, batches, SCROLL and HOLD as asked for.
   */
  lemma DeclareUndisturbed(s: State, ticket: nat, declare: Declare, safe: bool, outcome: Result<ExasolOutcome>)
    requires ticket !in s.pending
    ensures var begun := RunOf(s, [Check(ticket, declare, safe)]);
            var done := RunOf(s, [Check(ticket, declare, safe), Execute(ticket, outcome), Insert(ticket)]);
            var free := safe && declare.name !in s.cursors;
            && (ticket in begun.pending <==> free)
            && done.pending == s.pending
            && done.cursors == if free && outcome.Ok? && !outcome.value.RowCount? then
                 s.cursors[declare.name := CursorValue(RowsIn(outcome.value), -1, declare.scroll, declare.hold)]
               else s.cursors
  {
    var a, b, c := Check(ticket, declare, safe), Execute(ticket, outcome), Insert(ticket);
    var s1 := Next(s, a);
    var s2 := Next(s1, b);
    var s3 := Next(s2, c);
    assert s3.pending == s.pending;
    assert s3.cursors == if safe && declare.name !in s.cursors && outcome.Ok? && !outcome.value.RowCount? then
        s.cursors[declare.name := CursorValue(RowsIn(outcome.value), -1, declare.scroll, declare.hold)]
      else s.cursors;
    assert ticket in s1.pending <==> safe && declare.name !in s.cursors;
    hide Next;
    assert [a, b, c][1..] == [b, c] && [b, c][1..] == [c] && [c][1..] == [] && [a][1..] == [];
    assert RunOf(s2, [c]) == s3;
    assert RunOf(s1, [b, c]) == s3;
    assert RunOf(s, [a]) == s1;
  }

  /** A new cursor that is not WITH HOLD. */
  predicate DeclaresUnheld(s: State, e: Event) {
    && e.Insert? && e.ticket in s.pending && s.pending[e.ticket].Ready?
    && !s.pending[e.ticket].declare.hold && s.pending[e.ticket].declare.name !in s.cursors
  }

  predicate NoneDeclaredUnheld(s: State, events: seq<Event>)
    decreases |events|
  {
    events == [] || (!DeclaresUnheld(s, events[0]) && NoneDeclaredUnheld(Next(s, events[0]), events[1..]))
  }

  ghost predicate AllHeld(s: State) {
    forall name | name in s.cursors :: s.cursors[name].hold
  }

  lemma {:induction false} HeldStays(s: State, events: seq<Event>)
    requires AllHeld(s) && NoneDeclaredUnheld(s, events)
    ensures AllHeld(RunOf(s, events))
    decreases |events|
  {
    if events != [] {
      HeldStays(Next(s, events[0]), events[1..]);
    }
  }

  lemma AfterEndHeld(s: State, events: seq<Event>)
    requires NoneDeclaredUnheld(Next(s, EndTransaction), events)
    ensures AllHeld(RunOf(s, [EndTransaction] + events))
  {
    assert ([EndTransaction] + events)[1..] == events;
    HeldStays(Next(s, EndTransaction), events);
  }

  ghost predicate PendingHeld(s: State) {
    forall t | t in s.pending :: s.pending[t].declare.hold
  }

  /** No DECLARE without HOLD begins. */
  predicate NoneBegins(events: seq<Event>) {
    forall e | e in events :: !(e.Check? && !e.declare.hold)
  }

  lemma {:induction false} PendingStaysHeld(s: State, events: seq<Event>)
    requires PendingHeld(s) && NoneBegins(events)
    ensures NoneDeclaredUnheld(s, events)
    decreases |events|
  {
    if events != [] {
      assert events[0] in events && forall e | e in events[1..] :: e in events;
      assert PendingHeld(Next(s, events[0]));
      hide Next;
      PendingStaysHeld(Next(s, events[0]), events[1..]);
    }
  }

  /** A pending DECLARE without HOLD that completes after the transaction has ended. */
  lemma CompletesLater(s: State, ticket: nat)
    requires ticket in s.pending && !s.pending[ticket].declare.hold
    ensures var events := [CloseEvery, Execute(ticket, Ok(TypedOutcome([]))), Insert(ticket)];
            NoneBegins(events) && !AllHeld(RunOf(s, [EndTransaction] + events))
  {
    var b, c := Execute(ticket, Ok(TypedOutcome([]))), Insert(ticket);
    var events := [EndTransaction, CloseEvery, b, c];
    var s2 := Next(Next(s, EndTransaction), CloseEvery);
    var s3 := Next(s2, b);
    var s4 := Next(s3, c);
    assert s2.cursors == map[] && s2.pending == s.pending;
    assert s.pending[ticket].declare.name in s4.cursors && !AllHeld(s4);
    assert [EndTransaction] + [CloseEvery, b, c] == events;
    hide Next, AllHeld;
    assert events[1..] == [CloseEvery, b, c] && [CloseEvery, b, c][1..] == [b, c];
    assert [b, c][1..] == [c] && [c][1..] == [];
    assert RunOf(s3, [c]) == s4;
    assert RunOf(s2, [b, c]) == s4;
    assert RunOf(s, events) == RunOf(s2, [b, c]);
  }

  /**
   After a transaction end only hold cursors exist, whatever comes next, until another DECLARE without HOLD
   begins: exactly if none was in progress when the transaction ended.
   */
  lemma OnlyHeldSurvive(s: State)
    ensures PendingHeld(s) <==> forall events | NoneBegins(events) :: AllHeld(RunOf(s, [EndTransaction] + events))
  {
    if PendingHeld(s) {
      forall events | NoneBegins(events)
        ensures AllHeld(RunOf(s, [EndTransaction] + events))
      {
        PendingStaysHeld(Next(s, EndTransaction), events);
        AfterEndHeld(s, events);
      }
    } else {
      var t :| t in s.pending && !s.pending[t].declare.hold;
      CompletesLater(s, t);
    }
  }

  /** A DECLARE that began before the transaction ended and completes after it: its cursor outlives the transaction. */
  lemma StraddlingDeclareSurvives(name: string, rows: seq<Row>)
    ensures var declare := Declare(name, false, false);
            var events := [Check(0, declare, true), Execute(0, Ok(TypedOutcome(rows))), EndTransaction, Insert(0)];
            RunOf(START, events).cursors == map[name := CursorValue(Typed(rows), -1, false, false)]
  {
    var declare := Declare(name, false, false);
    var a, b, c, d := Check(0, declare, true), Execute(0, Ok(TypedOutcome(rows))), EndTransaction, Insert(0);
    var s1 := Next(START, a);
    var s2 := Next(s1, b);
    var s3 := Next(s2, c);
    var s4 := Next(s3, d);
    assert s1.pending == map[0 := Checked(declare)] && s2.pending == map[0 := Ready(declare, Typed(rows))];
    assert s3.pending == s2.pending && s3.cursors == map[];
    hide Next;
    assert [a, b, c, d][1..] == [b, c, d] && [b, c, d][1..] == [c, d] && [c, d][1..] == [d] && [d][1..] == [];
    assert RunOf(s3, [d]) == s4;
    assert RunOf(s2, [c, d]) == s4;
    assert RunOf(s1, [b, c, d]) == s4;
  }

  // ---- Search path ----

  /** What SHOW search_path answers. */
  function ShowAnswer(s: State): string {
    if s.schema.Some? then s.schema.value else PUBLIC
  }

  /** Once the schemas in flight are recorded in the order they were opened, SHOW answers the backend's schema. */
  predicate Synced(s: State) {
    s.backend == if s.opening == [] then s.schema else Some(s.opening[|s.opening| - 1])
  }

  /** The schema opened last is recorded while a different one, opened right before it, has yet to be recorded. */
  predicate Overtakes(s: State, e: Event) {
    var n := |s.opening|;
    n > 1 && e == Record(n - 1) && s.opening[n - 2] != s.opening[n - 1]
  }

  predicate InOrder(s: State, events: seq<Event>)
    decreases |events|
  {
    events == [] || (!Overtakes(s, events[0]) && InOrder(Next(s, events[0]), events[1..]))
  }

  predicate AlwaysSynced(s: State, events: seq<Event>)
    decreases |events|
  {
    Synced(s) && (events == [] || AlwaysSynced(Next(s, events[0]), events[1..]))
  }

  lemma PathUntouched(s: State, e: Event)
    requires !e.Open? && !e.Record?
    ensures var t := Next(s, e); t.schema == s.schema && t.opening == s.opening && t.backend == s.backend
  {
    hide StepSpec, InsertSpec, CloseSpec, HeldOnly, CheckSpec, Materialise;
  }

  /** The newest schema in flight after the one at `place` is recorded. */
  lemma Newest(opening: seq<string>, place: nat)
    requires place < |opening|
    ensures var left, n := opening[..place] + opening[place + 1..], |opening|;
            && |left| == n - 1
            && (n > 1 ==> left[n - 2] == if place == n - 1 then opening[n - 2] else opening[n - 1])
  {
  }

  lemma StepSynced(s: State, e: Event)
    requires Synced(s)
    ensures Synced(Next(s, e)) <==> !Overtakes(s, e)
  {
    if e.Record? {
      if e.place < |s.opening| {
        Newest(s.opening, e.place);
      }
    } else if !e.Open? {
      PathUntouched(s, e);
      hide Next;
    }
  }

  /** Over any run, SHOW keeps up with the backend exactly as long as no record overtakes an earlier one. */
  lemma {:induction false} SyncedInOrder(s: State, events: seq<Event>)
    requires Synced(s)
    ensures AlwaysSynced(s, events) <==> InOrder(s, events)
    ensures InOrder(s, events) ==> Synced(RunOf(s, events))
    decreases |events|
  {
    if events != [] {
      StepSynced(s, events[0]);
      if Synced(Next(s, events[0])) {
        SyncedInOrder(Next(s, events[0]), events[1..]);
      }
    }
  }

  /** The schema of the last OPEN SCHEMA that succeeded. */
  function LastOpened(events: seq<Event>): Option<string> {
    if events == [] then None else
      var last := events[|events| - 1];
      if last.Open? && last.succeeded then Some(last.schema) else LastOpened(events[..|events| - 1])
  }

  lemma {:induction false} RunOfSnoc(s: State, events: seq<Event>, e: Event)
    ensures RunOf(s, events + [e]) == Next(RunOf(s, events), e)
    decreases |events|
  {
    if events == [] {
      assert events + [e] == [e] && [e][1..] == [];
    } else {
      assert (events + [e])[1..] == events[1..] + [e];
      RunOfSnoc(Next(s, events[0]), events[1..], e);
    }
  }

  lemma {:induction false} BackendIsLastOpened(events: seq<Event>)
    ensures RunOf(START, events).backend == LastOpened(events)
    decreases |events|
  {
    if events != [] {
      var init, last := events[..|events| - 1], events[|events| - 1];
      BackendIsLastOpened(init);
      RunOfSnoc(START, init, last);
      assert events == init + [last];
    }
  }

  /** In a run that records schemas in order, SHOW answers the schema opened last whenever none is in flight. */
  lemma SchemaIsLastOpened(events: seq<Event>)
    requires InOrder(START, events) && RunOf(START, events).opening == []
    ensures ShowAnswer(RunOf(START, events)) == if LastOpened(events) == None then PUBLIC else LastOpened(events).value
  {
    BackendIsLastOpened(events);
    SyncedInOrder(START, events);
  }

  predicate NoneOpens(events: seq<Event>) {
    forall e | e in events :: !e.Open?
  }

  ghost predicate OneSchema(s: State) {
    forall schema | schema in s.opening :: Some(schema) == s.backend
  }

  lemma OneSchemaStep(s: State, e: Event)
    requires OneSchema(s) && !e.Open?
    ensures OneSchema(Next(s, e)) && Next(s, e).backend == s.backend
  {
    hide StepSpec, InsertSpec, CloseSpec, HeldOnly, CheckSpec, Materialise;
  }

  lemma {:induction false} OneSchemaSettles(s: State, events: seq<Event>)
    requires Synced(s) && OneSchema(s) && NoneOpens(events)
    ensures Synced(RunOf(s, events)) && RunOf(s, events).backend == s.backend
    decreases |events|
  {
    if events != [] {
      assert events[0] in events && forall e | e in events[1..] :: e in events;
      assert !Overtakes(s, events[0]) by {
        assert forall i | 0 <= i < |s.opening| :: s.opening[i] in s.opening;
      }
      StepSynced(s, events[0]);
      OneSchemaStep(s, events[0]);
      hide Next, Synced, OneSchema;
      OneSchemaSettles(Next(s, events[0]), events[1..]);
    }
  }

  /** All schemas in flight are recorded, the one at `place` last. */
  lemma {:induction false} RecordedLast(s: State, place: nat) returns (events: seq<Event>)
    requires place < |s.opening|
    ensures NoneOpens(events)
    ensures var t := RunOf(s, events);
            t.opening == [] && t.schema == Some(s.opening[place]) && t.backend == s.backend
    decreases |s.opening|
  {
    var first := if |s.opening| == 1 then 0 else if place == 0 then 1 else 0;
    var s' := Next(s, Record(first));
    var rest := [];
    if |s.opening| > 1 {
      var place' := if place == 0 then 0 else place - 1;
      assert s'.opening[place'] == s.opening[place];
      rest := RecordedLast(s', place');
    } else {
      assert s'.opening == [];
    }
    events := [Record(first)] + rest;
    assert events[1..] == rest;
  }

  /**
   With schemas in flight SHOW ends up answering the backend's schema, in whatever order they are recorded,
   exactly if all of them are that schema.
   */
  lemma RacingPathsExact(s: State)
    requires Synced(s)
    ensures OneSchema(s) <==>
              forall events | NoneOpens(events) && RunOf(s, events).opening == [] ::
                RunOf(s, events).schema == RunOf(s, events).backend
  {
    if OneSchema(s) {
      forall events | NoneOpens(events) && RunOf(s, events).opening == []
        ensures RunOf(s, events).schema == RunOf(s, events).backend
      {
        OneSchemaSettles(s, events);
      }
    } else {
      var place :| 0 <= place < |s.opening| && Some(s.opening[place]) != s.backend;
      var events := RecordedLast(s, place);
    }
  }

  /** Two statements recorded in the opposite order: SHOW stays at the first schema, the backend is on the second. */
  lemma RacingPathsDisagree(a: string, b: string)
    ensures var end := RunOf(START, [Open(a, true), Open(b, true), Record(1), Record(0)]);
            end.opening == [] && end.schema == Some(a) && end.backend == Some(b)
  {
    var e1, e2, e3, e4 := Open(a, true), Open(b, true), Record(1), Record(0);
    var s1 := Next(START, e1);
    var s2 := Next(s1, e2);
    var s3 := Next(s2, e3);
    var s4 := Next(s3, e4);
    assert s1.opening == [a] && s2.opening == [a, b] && s3.opening == [a] && s4.opening == [];
    assert s4.schema == Some(a) && s4.backend == Some(b);
    hide Next;
    assert [e1, e2, e3, e4][1..] == [e2, e3, e4] && [e2, e3, e4][1..] == [e3, e4] && [e3, e4][1..] == [e4];
    assert [e4][1..] == [];
    assert RunOf(s3, [e4]) == s4;
    assert RunOf(s2, [e3, e4]) == s4;
    assert RunOf(s1, [e2, e3, e4]) == s4;
  }

  // ---- Positions ----

  ghost predicate Positioned(s: State) {
    forall name | name in s.cursors :: Place(DataRows(s.cursors[name].data), s.cursors[name].position)
  }

  lemma StepPositioned(s: State, e: Event)
    requires Positioned(s)
    ensures Positioned(Next(s, e))
  {
    if (e.Fetch? || e.Move?) && e.name in s.cursors {
      var c := s.cursors[e.name];
      MovementStays(DataRows(c.data), c.position, e.direction);
    }
    hide Movement;
  }

  /** In every reachable state every cursor stands before, on, or after its rows. */
  lemma {:induction false} AlwaysPositioned(s: State, events: seq<Event>)
    requires Positioned(s)
    ensures Positioned(RunOf(s, events))
    decreases |events|
  {
    if events != [] {
      StepPositioned(s, events[0]);
      AlwaysPositioned(Next(s, events[0]), events[1..]);
    }
  }
}
