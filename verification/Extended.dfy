/**
 The Describe/Execute result cache. Describing a portal already runs its statement, so the response is kept and
 the next Execute of that portal delivers it instead of running the statement again.
 */
module Extended {
  import opened Wrappers

  /** What running a portal's statement comes to; parameters that cannot be rendered prevent the run. */
  datatype Outcome = Unrenderable | Failing | Answered(query: bool)

  /** A response is known by the execution that produced it and the Bind whose statement that execution ran. */
  datatype Response = Response(execution: nat, binding: nat, query: bool)

  /** `Delivered` carries whether the row description is sent along. */
  datatype Output = Silent | Refused | Described(response: Response) | Delivered(response: Response, described: bool)

  datatype State = State(portals: map<string, nat>, cache: map<string, Response>, binds: nat, executions: nat)

  datatype Event =
    | Bind(name: string)
    | ClosePortal(name: string)
    | Describe(name: string, outcome: Outcome)
    | Execute(name: string, outcome: Outcome)

  const START := State(map[], map[], 0, 0)

  /** The unnamed portal, which is dropped when it has been executed. */
  const DEFAULT_NAME: string := ""

  function DropDefault(portals: map<string, nat>, name: string): map<string, nat> {
    if name == DEFAULT_NAME then portals - {name} else portals
  }

  function DescribeSpec(s: State, name: string, outcome: Outcome): (State, Output) {
    if name !in s.portals || outcome.Unrenderable? then (s, Refused)
    else if outcome.Failing? then (s.(executions := s.executions + 1), Refused)
    else
      var r := Response(s.executions, s.portals[name], outcome.query);
      (s.(cache := s.cache[name := r], executions := s.executions + 1), Described(r))
  }

  function ExecuteSpec(s: State, name: string, outcome: Outcome): (State, Output) {
    if name !in s.portals then (s, Refused)
    else if name in s.cache then
      (s.(cache := s.cache - {name}, portals := DropDefault(s.portals, name)),
       Delivered(s.cache[name], !s.cache[name].query))
    else if outcome.Unrenderable? then (s.(portals := DropDefault(s.portals, name)), Refused)
    else if outcome.Failing? then (s.(executions := s.executions + 1), Refused)
    else
      (s.(portals := DropDefault(s.portals, name), executions := s.executions + 1),
       Delivered(Response(s.executions, s.portals[name], outcome.query), true))
  }

  function Step(s: State, e: Event): (State, Output) {
    match e
    case Bind(name) => (s.(portals := s.portals[name := s.binds], binds := s.binds + 1), Silent)
    case ClosePortal(name) => (s.(portals := s.portals - {name}), Silent)
    case Describe(name, outcome) => DescribeSpec(s, name, outcome)
    case Execute(name, outcome) => ExecuteSpec(s, name, outcome)
  }

  // ---- The handlers ----

  class ExtendedSession {
    var portals: map<string, nat>
    var extendedResults: map<string, Response>
    var binds: nat
    var executions: nat

    ghost function View(): State
      reads this
    {
      State(portals, extendedResults, binds, executions)
    }

    constructor ()
      ensures View() == START
    {
      portals, extendedResults, binds, executions := map[], map[], 0, 0;
    }

    /** Binding replaces the portal and leaves the cache alone. */
    method OnBind(name: string)
      modifies this
      ensures View() == Step(old(View()), Bind(name)).0
    {
      portals := portals[name := binds];
      binds := binds + 1;
    }

    /** Runs the portal's statement through the backend, as `outcome` tells. */
    method ExecuteStatement(binding: nat, outcome: Outcome) returns (r: Option<Response>)
      requires !outcome.Unrenderable?
      modifies this`executions
      ensures executions == old(executions) + 1
      ensures r == if outcome.Answered? then Some(Response(old(executions), binding, outcome.query)) else None
    {
      r := if outcome.Answered? then Some(Response(executions, binding, outcome.query)) else None;
      executions := executions + 1;
    }

    method CacheExtendedResult(name: string, response: Response)
      modifies this`extendedResults
      ensures extendedResults == old(extendedResults)[name := response]
    {
      extendedResults := extendedResults[name := response];
    }

    method TakeCachedExtendedResult(name: string) returns (response: Option<Response>)
      modifies this`extendedResults
      ensures response == if name in old(extendedResults) then Some(old(extendedResults)[name]) else None
      ensures extendedResults == old(extendedResults) - {name}
    {
      response := if name in extendedResults then Some(extendedResults[name]) else None;
      extendedResults := extendedResults - {name};
    }

    method DescribePortal(name: string, outcome: Outcome) returns (out: Output)
      modifies this
      ensures (View(), out) == Step(old(View()), Describe(name, outcome))
      ensures portals == old(portals) && binds == old(binds)
      ensures out.Described? <==> name in old(portals) && outcome.Answered?
      ensures out.Described? ==>
                && out.response == Response(old(executions), old(portals)[name], outcome.query)
                && extendedResults == old(extendedResults)[name := out.response]
      ensures !out.Described? ==> out == Refused && extendedResults == old(extendedResults)
      ensures executions
           == old(executions) + if name in old(portals) && !outcome.Unrenderable? then 1 else 0
    {
      if name !in portals || outcome.Unrenderable? {
        return Refused;
      }
      var response := ExecuteStatement(portals[name], outcome);
      if response == None {
        return Refused;
      }
      CacheExtendedResult(name, response.value);
      out := Described(response.value);
    }

    method OnExecute(name: string, outcome: Outcome) returns (out: Output)
      modifies this
      ensures View() == Step(old(View()), Execute(name, outcome)).0
      ensures out == Step(old(View()), Execute(name, outcome)).1
      ensures var bound, hit := name in old(portals), name in old(extendedResults);
              && (!bound ==> out == Refused && View() == old(View()))
              && (bound && hit ==>
                    && out == Delivered(old(extendedResults)[name], !old(extendedResults)[name].query)
                    && extendedResults == old(extendedResults) - {name} && executions == old(executions))
              && (bound && !hit ==>
                    && extendedResults == old(extendedResults)
                    && executions == old(executions) + (if outcome.Unrenderable? then 0 else 1)
                    && out == if !outcome.Answered? then Refused else
                       Delivered(Response(old(executions), old(portals)[name], outcome.query), true))
              && (bound ==>
                    portals == if name == "" && (hit || !outcome.Failing?) then old(portals) - {name} else old(portals))
    {
      if name !in portals {
        return Refused;
      }
      var binding := portals[name];
      var cached := TakeCachedExtendedResult(name);
      var wasDescribed := cached.Some?;
      if wasDescribed {
        out := Delivered(cached.value, !cached.value.query || !wasDescribed);
      } else if outcome.Unrenderable? {
        out := Refused;
      } else {
        var response := ExecuteStatement(binding, outcome);
        if response == None {
          assert extendedResults == old(extendedResults);
          return Refused;
        }
        out := Delivered(response.value, !response.value.query || !wasDescribed);
      }
      if name == DEFAULT_NAME {
        portals := portals - {name};
      }
      assert !wasDescribed ==> extendedResults == old(extendedResults);
    }
  }

  // ---- Runs ----

  function Final(s: State, events: seq<Event>): State
    decreases |events|
  {
    if events == [] then s else Final(Step(s, events[0]).0, events[1..])
  }

  function Outputs(s: State, events: seq<Event>): (outs: seq<Output>)
    ensures |outs| == |events|
    decreases |events|
  {
    if events == [] then [] else [Step(s, events[0]).1] + Outputs(Step(s, events[0]).0, events[1..])
  }

  /** An event that has a statement to run: a Describe, or an Execute that finds nothing in the cache. */
  predicate NeedsRun(s: State, e: Event) {
    && (e.Describe? || e.Execute?) && e.name in s.portals && !e.outcome.Unrenderable?
    && (e.Execute? ==> e.name !in s.cache)
  }

  function RunsNeeded(s: State, events: seq<Event>): nat
    decreases |events|
  {
    if events == [] then 0 else
      (if NeedsRun(s, events[0]) then 1 else 0) + RunsNeeded(Step(s, events[0]).0, events[1..])
  }

  /** The backend runs once for every Describe and for every Execute that misses the cache, and never else. */
  lemma {:induction false} ExecutionsCounted(s: State, events: seq<Event>)
    ensures Final(s, events).executions == s.executions + RunsNeeded(s, events)
    decreases |events|
  {
    if events != [] {
      ExecutionsCounted(Step(s, events[0]).0, events[1..]);
    }
  }

  function Sum(outs: seq<Output>, counts: Output -> bool): nat {
    if outs == [] then 0 else (if counts(outs[0]) then 1 else 0) + Sum(outs[1..], counts)
  }

  function IsDelivery(k: nat): Output -> bool {
    (o: Output) => o.Delivered? && o.response.execution == k
  }

  /** Row descriptions of query response `k`: the one Describe answers with, and those sent on delivery. */
  function IsDescription(k: nat): Output -> bool {
    (o: Output) => (o.Described? || (o.Delivered? && o.described)) && o.response.query && o.response.execution == k
  }

  function IsQueryDelivery(k: nat): Output -> bool {
    (o: Output) => o.Delivered? && o.response.query && o.response.execution == k
  }

  /** Cached responses come from past executions, each cached under one name only. */
  ghost predicate Inv(s: State) {
    && (forall n | n in s.cache :: s.cache[n].execution < s.executions)
    && (forall m, n | m in s.cache && n in s.cache && m != n :: s.cache[m].execution != s.cache[n].execution)
    && (forall n | n in s.portals :: s.portals[n] < s.binds)
  }

  lemma StepInv(s: State, e: Event)
    requires Inv(s)
    ensures Inv(Step(s, e).0) && s.executions <= Step(s, e).0.executions <= s.executions + 1
  {
    match e {
      case Bind(_) =>
      case ClosePortal(_) =>
      case Describe(name, outcome) =>
      case Execute(name, outcome) =>
    }
  }

  ghost predicate Cached(s: State, k: nat) {
    exists n | n in s.cache :: s.cache[n].execution == k
  }

  /** How often response `k` can still be delivered. */
  ghost function Left(s: State, k: nat): nat {
    if k >= s.executions || Cached(s, k) then 1 else 0
  }

  lemma StepDelivers(s: State, e: Event, k: nat)
    requires Inv(s)
    ensures (if IsDelivery(k)(Step(s, e).1) then 1 else 0) + Left(Step(s, e).0, k) <= Left(s, k)
  {
    var (t, o) := Step(s, e);
    if o.Delivered? && o.response.execution == k && e.name in s.cache {
      assert s.cache[e.name].execution == k;
      assert !Cached(t, k);
    }
    if Cached(t, k) && k < s.executions {
      var n :| n in t.cache && t.cache[n].execution == k;
      assert n in s.cache && s.cache[n].execution == k;
    }
  }

  lemma {:induction false} DeliveriesBounded(s: State, events: seq<Event>, k: nat)
    requires Inv(s)
    ensures Sum(Outputs(s, events), IsDelivery(k)) <= Left(s, k)
    decreases |events|
  {
    if events != [] {
      var (t, o) := Step(s, events[0]);
      StepInv(s, events[0]);
      StepDelivers(s, events[0], k);
      DeliveriesBounded(t, events[1..], k);
      assert Outputs(s, events)[1..] == Outputs(t, events[1..]);
      hide Step, Left, Inv;
    }
  }

  /** No response is delivered twice, whatever the order of Bind, Describe, Execute and Close. */
  lemma DeliveredOnce(events: seq<Event>, k: nat)
    ensures Sum(Outputs(START, events), IsDelivery(k)) <= 1
  {
    DeliveriesBounded(START, events, k);
  }

  lemma StepDescribes(s: State, e: Event, k: nat)
    requires Inv(s)
    ensures var (t, o) := Step(s, e);
            && (k < s.executions ==> !IsDescription(k)(o))
            && (k >= t.executions ==> !IsDescription(k)(o) && !IsQueryDelivery(k)(o))
            && (s.executions <= k < t.executions && !IsDescription(k)(o) ==> !IsQueryDelivery(k)(o) && NoQuery(t, k))
  {
  }

  /** No query response `k` waits in the cache. */
  ghost predicate NoQuery(s: State, k: nat) {
    forall n | n in s.cache :: !(s.cache[n].execution == k && s.cache[n].query)
  }

  lemma StepNeverQueried(s: State, e: Event, k: nat)
    requires Inv(s) && k < s.executions && NoQuery(s, k)
    ensures NoQuery(Step(s, e).0, k) && !IsQueryDelivery(k)(Step(s, e).1)
  {
  }

  lemma {:induction false} NeverQueried(s: State, events: seq<Event>, k: nat)
    requires Inv(s) && k < s.executions && NoQuery(s, k)
    ensures Sum(Outputs(s, events), IsQueryDelivery(k)) == 0
    decreases |events|
  {
    if events != [] {
      var (t, o) := Step(s, events[0]);
      StepInv(s, events[0]);
      StepNeverQueried(s, events[0], k);
      hide Step, Inv, NoQuery;
      NeverQueried(t, events[1..], k);
      assert Outputs(s, events)[1..] == Outputs(t, events[1..]);
    }
  }

  lemma {:induction false} Descriptions(s: State, events: seq<Event>, k: nat)
    requires Inv(s)
    ensures var outs := Outputs(s, events);
            && (k < s.executions ==> Sum(outs, IsDescription(k)) == 0)
            && (k >= s.executions ==>
                  Sum(outs, IsDescription(k)) <= 1
                  && (Sum(outs, IsQueryDelivery(k)) > 0 ==> Sum(outs, IsDescription(k)) == 1))
    decreases |events|
  {
    if events != [] {
      var (t, o) := Step(s, events[0]);
      StepInv(s, events[0]);
      StepDescribes(s, events[0], k);
      Descriptions(t, events[1..], k);
      if s.executions <= k < t.executions && !IsDescription(k)(o) {
        NeverQueried(t, events[1..], k);
      }
      assert Outputs(s, events)[1..] == Outputs(t, events[1..]);
      hide Step, Inv, NoQuery;
    }
  }

  /** Every query result that is delivered is described exactly once. */
  lemma DescribedOnce(events: seq<Event>, k: nat)
    requires Sum(Outputs(START, events), IsQueryDelivery(k)) > 0
    ensures Sum(Outputs(START, events), IsDescription(k)) == 1
  {
    Descriptions(START, events, k);
  }

  // ---- Which statement a response belongs to ----

  function BindsIn(events: seq<Event>): nat {
    if events == [] then 0 else
      BindsIn(events[..|events| - 1]) + if events[|events| - 1].Bind? then 1 else 0
  }

  /** The number of the last Bind of `name`: how many Binds came before it. */
  function LastBind(events: seq<Event>, name: string): Option<nat> {
    if events == [] then None else
      var before := events[..|events| - 1];
      if events[|events| - 1] == Bind(name) then Some(BindsIn(before)) else LastBind(before, name)
  }

  lemma {:induction false} FinalSnoc(s: State, events: seq<Event>, e: Event)
    ensures Final(s, events + [e]) == Step(Final(s, events), e).0
    decreases |events|
  {
    if events == [] {
      assert events + [e] == [e] && [e][1..] == [];
    } else {
      assert (events + [e])[1..] == events[1..] + [e];
      FinalSnoc(Step(s, events[0]).0, events[1..], e);
    }
  }

  lemma {:induction false} OutputAt(s: State, events: seq<Event>, i: nat)
    requires i < |events|
    ensures Outputs(s, events)[i] == Step(Final(s, events[..i]), events[i]).1
    decreases |events|
  {
    if i > 0 {
      OutputAt(Step(s, events[0]).0, events[1..], i - 1);
      assert events[..i][1..] == events[1..][..i - 1];
    } else {
      assert events[..0] == [];
    }
  }

  lemma StepBinding(s: State, e: Event, name: string)
    ensures Step(s, e).0.binds == s.binds + if e.Bind? then 1 else 0
    ensures var t := Step(s, e).0;
            && (name in t.portals ==>
                  if e == Bind(name) then t.portals[name] == s.binds
                  else name in s.portals && t.portals[name] == s.portals[name])
            && (name in t.cache ==>
                  || (name in s.cache && t.cache[name] == s.cache[name])
                  || (name in s.portals && t.cache[name].binding == s.portals[name]))
  {
  }

  /** A portal is bound to the statement of the last Bind of its name. */
  lemma {:induction false} BoundToLastBind(events: seq<Event>, name: string)
    ensures var s := Final(START, events);
            && s.binds == BindsIn(events)
            && (name in s.portals ==> LastBind(events, name) == Some(s.portals[name]))
    decreases |events|
  {
    if events != [] {
      var before, e := events[..|events| - 1], events[|events| - 1];
      BoundToLastBind(before, name);
      FinalSnoc(START, before, e);
      StepBinding(Final(START, before), e, name);
      hide Step, Final;
      assert events == before + [e];
    }
  }

  /** The last event that binds or closes portal `name` binds it. */
  predicate BoundLast(events: seq<Event>, name: string) {
    events != [] &&
    var before, e := events[..|events| - 1], events[|events| - 1];
    e == Bind(name) || (e != ClosePortal(name) && BoundLast(before, name))
  }

  /** A named portal exists from its Bind until it is closed, however often it is described or executed. */
  lemma {:induction false} NamedPortalStays(events: seq<Event>, name: string)
    requires name != ""
    ensures name in Final(START, events).portals <==> BoundLast(events, name)
    decreases |events|
  {
    if events != [] {
      var before, e := events[..|events| - 1], events[|events| - 1];
      NamedPortalStays(before, name);
      FinalSnoc(START, before, e);
      StepOpens(Final(START, before), e, name);
      hide Step, Final;
      assert events == before + [e];
    }
  }

  lemma StepOpens(s: State, e: Event, name: string)
    requires name != ""
    ensures name in Step(s, e).0.portals <==> e == Bind(name) || (e != ClosePortal(name) && name in s.portals)
  {
  }

  /** `binding` is the number of some Bind of `name` in the run. */
  ghost predicate BoundBy(events: seq<Event>, name: string, binding: nat) {
    exists j: nat :: j < |events| && events[j] == Bind(name) && binding == BindsIn(events[..j])
  }

  lemma BoundLater(before: seq<Event>, e: Event, name: string, binding: nat)
    requires BoundBy(before, name, binding)
    ensures BoundBy(before + [e], name, binding)
  {
    var j: nat :| j < |before| && before[j] == Bind(name) && binding == BindsIn(before[..j]);
    assert (before + [e])[j] == Bind(name) && (before + [e])[..j] == before[..j];
  }

  lemma {:induction false} LastBindIsBind(events: seq<Event>, name: string)
    requires LastBind(events, name).Some?
    ensures BoundBy(events, name, LastBind(events, name).value)
  {
    var before, e := events[..|events| - 1], events[|events| - 1];
    assert events == before + [e];
    if e != Bind(name) {
      LastBindIsBind(before, name);
      BoundLater(before, e, name, LastBind(before, name).value);
    }
  }

  lemma {:induction false} CachedIsBound(events: seq<Event>, name: string)
    requires name in Final(START, events).cache
    ensures BoundBy(events, name, Final(START, events).cache[name].binding)
    decreases |events|
  {
    if events != [] {
      var before, e := events[..|events| - 1], events[|events| - 1];
      var s, t := Final(START, before), Final(START, events);
      assert events == before + [e];
      FinalSnoc(START, before, e);
      StepBinding(s, e, name);
      hide Step, Final, BoundBy, LastBind;
      if name in s.cache && t.cache[name] == s.cache[name] {
        CachedIsBound(before, name);
        BoundLater(before, e, name, t.cache[name].binding);
      } else {
        BoundToLastBind(before, name);
        LastBindIsBind(before, name);
        BoundLater(before, e, name, t.cache[name].binding);
      }
    }
  }

  /**
   Over any run, an Execute that finds nothing in the cache runs the statement of the last Bind of its portal and
   delivers what the backend answered, described.
   */
  lemma ExecuteRunsLastBind(events: seq<Event>, name: string, query: bool)
    requires name in Final(START, events).portals && name !in Final(START, events).cache
    ensures var bound := LastBind(events, name);
            && bound.Some?
            && Step(Final(START, events), Execute(name, Answered(query))).1
            == Delivered(Response(Final(START, events).executions, bound.value, query), true)
  {
    BoundToLastBind(events, name);
    hide Final, LastBind;
  }

  /** Over any run, every response that is delivered belongs to a statement bound to the portal that is executed. */
  lemma DeliveredIsBound(events: seq<Event>, i: nat)
    requires i < |events| && Outputs(START, events)[i].Delivered?
    ensures events[i].Execute?
    ensures BoundBy(events[..i], events[i].name, Outputs(START, events)[i].response.binding)
  {
    var before, e := events[..i], events[i];
    var s := Final(START, before);
    OutputAt(START, events, i);
    assert e.Execute?;
    hide Final, BoundBy, LastBind, Outputs;
    if e.name in s.cache {
      CachedIsBound(before, e.name);
    } else {
      BoundToLastBind(before, e.name);
      LastBindIsBind(before, e.name);
    }
  }

  // ---- What an Execute after a Describe delivers ----

  /** No Describe or Execute of `name`; it may be closed and bound again. */
  predicate Untouched(events: seq<Event>, name: string) {
    forall e | e in events :: (e.Describe? || e.Execute?) ==> e.name != name
  }

  predicate Rebound(events: seq<Event>, name: string) {
    Bind(name) in events
  }

  lemma StepWaits(s: State, e: Event, name: string)
    requires Inv(s) && name in s.cache && ((e.Describe? || e.Execute?) ==> e.name != name)
    ensures var t := Step(s, e).0;
            && name in t.cache && t.cache[name] == s.cache[name] && s.binds <= t.binds
            && (name in t.portals ==>
                  if e == Bind(name) then t.portals[name] == s.binds < t.binds
                  else name in s.portals && t.portals[name] == s.portals[name])
  {
  }

  lemma ReboundCons(events: seq<Event>, name: string)
    requires events != []
    ensures Rebound(events, name) <==> events[0] == Bind(name) || Rebound(events[1..], name)
    ensures Untouched(events, name) ==>
              Untouched(events[1..], name) && ((events[0].Describe? || events[0].Execute?) ==> events[0].name != name)
  {
    assert forall x | x in events[1..] :: x in events;
    assert events[0] in events && forall x | x in events :: x == events[0] || x in events[1..];
  }

  lemma {:induction false} CacheWaits(s: State, events: seq<Event>, name: string)
    requires Inv(s) && name in s.cache && Untouched(events, name)
    ensures var t := Final(s, events);
            && Inv(t) && s.binds <= t.binds
            && name in t.cache && t.cache[name] == s.cache[name]
            && (name in t.portals && Rebound(events, name) ==> t.portals[name] >= s.binds)
            && (name in t.portals && !Rebound(events, name) ==> name in s.portals && t.portals[name] == s.portals[name])
    decreases |events|
  {
    if events != [] {
      var e, rest := events[0], events[1..];
      ReboundCons(events, name);
      StepInv(s, e);
      StepWaits(s, e, name);
      hide Step, Inv, Rebound, Untouched;
      CacheWaits(Step(s, e).0, rest, name);
    }
  }

  /**
   If a portal is described and later executed, Execute delivers the very response whose fields Describe
   announced. That response answers the statement the portal is bound to if and only if the portal was not bound
   again in between.
   */
  lemma ExecuteDeliversDescribed(s: State, name: string, query: bool, events: seq<Event>, outcome: Outcome)
    requires Inv(s) && name in s.portals && Untouched(events, name)
    requires name in Final(Step(s, Describe(name, Answered(query))).0, events).portals
    ensures var (t, announced) := Step(s, Describe(name, Answered(query)));
            var u := Final(t, events);
            var r := Response(s.executions, s.portals[name], query);
            && announced == Described(r)
            && Step(u, Execute(name, outcome)).1 == Delivered(r, !query)
            && (r.binding == u.portals[name] <==> !Rebound(events, name))
  {
    var e := Describe(name, Answered(query));
    StepInv(s, e);
    CacheWaits(Step(s, e).0, events, name);
  }

  /** From the start of the connection the invariant holds, so the results above apply to every run. */
  lemma {:induction false} Reachable(s: State, events: seq<Event>)
    requires Inv(s)
    ensures Inv(Final(s, events))
    decreases |events|
  {
    if events != [] {
      StepInv(s, events[0]);
      Reachable(Step(s, events[0]).0, events[1..]);
    }
  }
}
