/**
  Many requests over one `SlotPins`, as the event loop runs them: a step is what happens
  between two awaits. A request tries for a slot; failing, it sleeps on the event of the
  moment, making one if there is none; a request that leaves, done or cancelled, frees its
  slot, fires that event and forgets it.
 */
module SlotRuns {
  import opened Options
  import opened Slots
  import opened SlotHistory
  import opened Text

  datatype Request =
    | Ready(key: Option<string>)
    | Asleep(key: Option<string>, event: nat)
    | Holding(key: Option<string>, slot: int)

  datatype System = System(
    owners: seq<Owner>,
    busy: set<int>,
    freed: Option<nat>,
    events: nat,
    fired: set<nat>,
    requests: map<nat, Request>,
    claims: seq<Claim>)

  datatype Step = Arrive(id: nat, key: Option<string>) | Try(id: nat) | Wake(id: nat) | Leave(id: nat)

  const START := System([], {}, None, 0, {}, map[], [])

  predicate Enabled(s: System, step: Step) {
    match step
    case Arrive(id, _) => id !in s.requests
    case Try(id) => id in s.requests && s.requests[id].Ready?
    case Wake(id) => id in s.requests && s.requests[id].Asleep? && s.requests[id].event in s.fired
    case Leave(id) => id in s.requests
  }

  function Apply(total: nat, s: System, step: Step): System
    requires Enabled(s, step)
  {
    match step
    case Arrive(id, key) => s.(requests := s.requests[id := Ready(key)])
    case Try(id) => TryFor(total, s, id, s.requests[id].key)
    case Wake(id) => s.(requests := s.requests[id := Ready(s.requests[id].key)])
    case Leave(id) =>
      var rest := s.(requests := s.requests - {id});
      if s.requests[id].Holding? then Release(rest, s.requests[id].slot) else rest
  }

  /** One pass of `hold`'s loop: claim a slot now, or sleep on the event of the moment. */
  function TryFor(total: nat, s: System, id: nat, key: Option<string>): System {
    match Choose(total, s.owners, s.busy, key)
    case Some(c) =>
      s.(owners := c.owners, busy := s.busy + {c.slot},
         requests := s.requests[id := Holding(key, c.slot)],
         claims := s.claims + [Claim(key, c.slot, s.busy)])
    case None =>
      var event := if s.freed.Some? then s.freed.value else s.events;
      s.(freed := Some(event), events := if s.freed.Some? then s.events else s.events + 1,
         requests := s.requests[id := Asleep(key, event)])
  }

  function Release(s: System, slot: int): System {
    s.(busy := s.busy - {slot}, freed := None, fired := s.fired + (if s.freed.Some? then {s.freed.value} else {}))
  }

  /** Any interleaving: a step that is not enabled does nothing. */
  function Run(total: nat, steps: seq<Step>): System {
    if steps == [] then START
    else
      var s := Run(total, steps[..|steps| - 1]);
      var step := steps[|steps| - 1];
      if Enabled(s, step) then Apply(total, s, step) else s
  }

  // ----- The conversation a request came with -----

  /** Said of the steps alone: the conversation of the first arrival of `id` since it last left, if it has
      not left since. */
  function Came(steps: seq<Step>, id: nat): Option<Option<string>> {
    if steps == [] then None
    else
      var before := Came(steps[..|steps| - 1], id);
      match steps[|steps| - 1]
      case Arrive(i, key) => if i == id && before.None? then Some(key) else before
      case Leave(i) => if i == id then None else before
      case Try(_) => before
      case Wake(_) => before
  }

  /** Trying, sleeping and waking never change who is there or what conversation it is for. */
  lemma {:induction false} StaysWithItsConversation(total: nat, steps: seq<Step>, id: nat)
    ensures var s := Run(total, steps); id in s.requests <==> Came(steps, id).Some?
    ensures var s := Run(total, steps); id in s.requests ==> Some(s.requests[id].key) == Came(steps, id)
  {
    hide Choose;
    if steps == [] {
    } else {
      StaysWithItsConversation(total, steps[..|steps| - 1], id);
    }
  }

  /** And that is the conversation of one of its arrivals, which nothing of its own has followed but tries and wakes. */
  lemma {:induction false} CameByArriving(steps: seq<Step>, id: nat)
    requires Came(steps, id).Some?
    ensures exists i :: 0 <= i < |steps| && steps[i] == Arrive(id, Came(steps, id).value) && Leave(id) !in steps[i..]
  {
    var n := |steps| - 1;
    if steps[n].Arrive? && Came(steps[..n], id).None? {
      assert steps[n..] == [steps[n]];
    } else {
      CameByArriving(steps[..n], id);
      var i :| 0 <= i < n && steps[..n][i] == Arrive(id, Came(steps[..n], id).value) && Leave(id) !in steps[..n][i..];
      assert steps[i..] == steps[..n][i..] + [steps[n]];
    }
  }

  // ----- What every step keeps -----

  predicate Holds(s: System, id: nat, key: Option<string>, slot: int) {
    id in s.requests && s.requests[id] == Holding(key, slot)
  }

  /** Busy slots are exactly the held ones, each held once, and belong to their holder's conversation or to none. */
  ghost predicate HoldersOk(total: nat, s: System) {
    && (forall id, key, slot :: Holds(s, id, key, slot) ==> InRange(total, slot) && slot in s.busy)
    && (forall slot :: slot in s.busy ==> exists id, key :: Holds(s, id, key, slot))
    && (forall id, id', key, key', slot :: Holds(s, id, key, slot) && Holds(s, id', key', slot) ==> id == id')
    && (forall id, key, slot, k :: Holds(s, id, key, slot) && Owner(k, slot) in s.owners ==> key == Some(k))
    && (forall id, k, slot :: Holds(s, id, Some(k), slot) ==> Owner(k, slot) in s.owners)
  }

  ghost predicate EventsOk(s: System) {
    && (s.freed.Some? ==> s.freed.value < s.events && s.freed.value !in s.fired)
    && (forall e :: e in s.fired ==> e < s.events)
  }

  /** Whoever sleeps on an event not yet fired sleeps on the one the next release fires, and
      could not have a slot now. */
  ghost predicate SleepersOk(total: nat, s: System) {
    forall id :: id in s.requests && s.requests[id].Asleep? ==>
      var e := s.requests[id].event;
      e in s.fired || (s.freed == Some(e) && Choose(total, s.owners, s.busy, s.requests[id].key).None?)
  }

  ghost predicate Invariant(total: nat, s: System) {
    && OwnersOk(total, s.owners) && Agrees(total, s.owners, s.claims) && HistoryOk(total, s.claims)
    && HoldersOk(total, s) && EventsOk(s) && SleepersOk(total, s)
  }

  /** A request that must wait still must after another request has taken a slot. */
  lemma StillWaits(total: nat, owners: seq<Owner>, busy: set<int>, key: Option<string>, other: Option<string>)
    requires OwnersOk(total, owners)
    requires Choose(total, owners, busy, key).None? && Choose(total, owners, busy, other).Some?
    ensures var c := Choose(total, owners, busy, other).value; Choose(total, c.owners, busy + {c.slot}, key).None?
  {
    hide Choose, OwnersOk;
    var c := Choose(total, owners, busy, other).value;
    ChoiceKeepsOk(total, owners, busy, other);
    WaitsExactlyWhen(total, owners, busy, key);
    WaitsExactlyWhen(total, c.owners, busy + {c.slot}, key);
    if HasSlot(owners, key) {
      var own := owners[IndexOfKey(owners, key.value)];
      assert own in owners && own in c.owners;
      KeyPlace(total, c.owners, own);
    }
  }

  lemma KeyPlace(total: nat, owners: seq<Owner>, o: Owner)
    requires OwnersOk(total, owners) && o in owners
    ensures IndexOfKey(owners, o.key) >= 0 && owners[IndexOfKey(owners, o.key)] == o
  {
    var i :| 0 <= i < |owners| && owners[i] == o;
  }

  lemma ClaimKeepsHolders(total: nat, s: System, id: nat)
    requires OwnersOk(total, s.owners) && HoldersOk(total, s)
    requires id in s.requests && s.requests[id].Ready? && Choose(total, s.owners, s.busy, s.requests[id].key).Some?
    ensures HoldersOk(total, TryFor(total, s, id, s.requests[id].key))
  {
    hide OwnersOk, Choose;
    var key := s.requests[id].key;
    var c := Choose(total, s.owners, s.busy, key).value;
    var s' := TryFor(total, s, id, key);
    ChoiceKeepsOk(total, s.owners, s.busy, key);
    assert forall i, k, slot :: Holds(s', i, k, slot) <==>
      (if i == id then k == key && slot == c.slot else Holds(s, i, k, slot));
    assert forall i, k, slot :: Holds(s, i, k, slot) ==> i != id;
    forall slot | slot in s'.busy
      ensures exists i, k :: Holds(s', i, k, slot)
    {
      if slot == c.slot {
        assert Holds(s', id, key, slot);
      } else {
        var i, k :| Holds(s, i, k, slot);
        assert Holds(s', i, k, slot);
      }
    }
    forall k | key == Some(k)
      ensures Owner(k, c.slot) in c.owners
    {
      assert Owner(k, c.slot) in Entry(key, c.slot);
    }
  }

  lemma TryKeepsInvariant(total: nat, s: System, id: nat)
    requires Invariant(total, s) && id in s.requests && s.requests[id].Ready?
    ensures Invariant(total, TryFor(total, s, id, s.requests[id].key))
  {
    hide OwnersOk, Agrees, FollowsRule, Choose, HoldersOk, HistoryOk;
    var key := s.requests[id].key;
    var s' := TryFor(total, s, id, key);
    if Choose(total, s.owners, s.busy, key).Some? {
      var c := Choose(total, s.owners, s.busy, key).value;
      ChoiceKeepsOk(total, s.owners, s.busy, key);
      ChoiceAgrees(total, s.owners, s.busy, key, s.claims);
      ChoiceFollowsRule(total, s.owners, s.busy, key, s.claims);
      HistoryStep(total, s.claims, Claim(key, c.slot, s.busy));
      ClaimKeepsHolders(total, s, id);
      forall i | i in s'.requests && s'.requests[i].Asleep? && s'.requests[i].event !in s'.fired
        ensures s'.freed == Some(s'.requests[i].event)
        ensures Choose(total, s'.owners, s'.busy, s'.requests[i].key).None?
      {
        StillWaits(total, s.owners, s.busy, s.requests[i].key, key);
      }
    } else {
      SleepKeepsHolders(total, s, s');
    }
  }

  /** Only what is held, owned and busy matters to the holders. */
  lemma SleepKeepsHolders(total: nat, s: System, s': System)
    requires HoldersOk(total, s) && s'.owners == s.owners && s'.busy == s.busy
    requires forall id, key, slot :: Holds(s', id, key, slot) <==> Holds(s, id, key, slot)
    ensures HoldersOk(total, s')
  {
    forall slot | slot in s'.busy
      ensures exists id, key :: Holds(s', id, key, slot)
    {
      var id, key :| Holds(s, id, key, slot);
      assert Holds(s', id, key, slot);
    }
  }

  lemma LeaveKeepsHolders(total: nat, s: System, id: nat, key: Option<string>, slot: int)
    requires HoldersOk(total, s) && Holds(s, id, key, slot)
    ensures HoldersOk(total, Apply(total, s, Leave(id)))
  {
    var s' := Apply(total, s, Leave(id));
    assert forall i, k, x :: Holds(s', i, k, x) <==> i != id && Holds(s, i, k, x);
    forall x | x in s'.busy
      ensures exists i, k :: Holds(s', i, k, x)
    {
      var i, k :| Holds(s, i, k, x);
      assert Holds(s', i, k, x);
    }
  }

  lemma StepKeepsInvariant(total: nat, s: System, step: Step)
    requires Invariant(total, s) && Enabled(s, step)
    ensures Invariant(total, Apply(total, s, step))
  {
    hide OwnersOk, Agrees, Choose, HoldersOk, HistoryOk;
    var s' := Apply(total, s, step);
    match step {
      case Arrive(id, key) =>
        SleepKeepsHolders(total, s, s');
      case Try(id) =>
        TryKeepsInvariant(total, s, id);
      case Wake(id) =>
        SleepKeepsHolders(total, s, s');
      case Leave(id) =>
        if s.requests[id].Holding? {
          LeaveKeepsHolders(total, s, id, s.requests[id].key, s.requests[id].slot);
        } else {
          SleepKeepsHolders(total, s, s');
        }
    }
  }

  /** Every interleaving of every set of requests keeps the invariant. */
  lemma {:induction false} RunKeepsInvariant(total: nat, steps: seq<Step>)
    ensures Invariant(total, Run(total, steps))
  {
    hide Apply, Choose;
    if steps == [] {
      StartIsOk(total);
    } else {
      hide Invariant;
      var s := Run(total, steps[..|steps| - 1]);
      RunKeepsInvariant(total, steps[..|steps| - 1]);
      if Enabled(s, steps[|steps| - 1]) {
        StepKeepsInvariant(total, s, steps[|steps| - 1]);
      }
    }
  }

  lemma StartIsOk(total: nat)
    ensures Invariant(total, START)
  {
  }

  // ----- What each step does -----

  /** The request may have a slot now: its conversation's, if that has one and it is idle, and else any idle one. */
  ghost predicate MayHave(total: nat, s: System, key: Option<string>) {
    if exists k, slot :: key == Some(k) && Owner(k, slot) in s.owners
    then exists k, slot :: key == Some(k) && Owner(k, slot) in s.owners && slot !in s.busy
    else exists slot :: InRange(total, slot) && slot !in s.busy
  }

  /** A request that tries is in flight, if it may have a slot, and else asleep; one that is woken is ready to
      try again; and no step touches another request. */
  lemma StepsDo(total: nat, steps: seq<Step>, step: Step)
    ensures var s, s' := Run(total, steps), Run(total, steps + [step]);
      && (forall other :: other != step.id ==>
            (other in s.requests <==> other in s'.requests)
            && (other in s.requests ==> s'.requests[other] == s.requests[other]))
      && (step.Try? && Enabled(s, step) ==>
            if MayHave(total, s, s.requests[step.id].key) then exists slot :: InFlight(s', step.id, slot)
            else Sleeps(s', step.id))
      && (step.Wake? && Enabled(s, step) ==> Enabled(s', Try(step.id)))
  {
    hide Run, Choose, MayHave, OwnersOk;
    var s, s' := Run(total, steps), Run(total, steps + [step]);
    RunStep(total, steps, step);
    if step.Try? && Enabled(s, step) {
      OwnersOfRun(total, steps);
      MayHaveExactly(total, s, s.requests[step.id].key);
      if s'.requests[step.id].Holding? {
        assert InFlight(s', step.id, s'.requests[step.id].slot);
      }
    }
  }

  lemma MayHaveExactly(total: nat, s: System, key: Option<string>)
    requires OwnersOk(total, s.owners)
    ensures Choose(total, s.owners, s.busy, key).Some? <==> MayHave(total, s, key)
  {
    hide Choose, IndexOfKey;
    WaitsExactlyWhen(total, s.owners, s.busy, key);
    forall k, slot
      ensures key == Some(k) && Owner(k, slot) in s.owners <==>
        HasSlot(s.owners, key) && key == Some(k) && s.owners[IndexOfKey(s.owners, key.value)].slot == slot
    {
      OwnSlotIs(total, s.owners, key, k, slot);
    }
  }

  lemma OwnSlotIs(total: nat, owners: seq<Owner>, key: Option<string>, k: string, slot: int)
    requires OwnersOk(total, owners)
    ensures key == Some(k) && Owner(k, slot) in owners <==>
      HasSlot(owners, key) && key == Some(k) && owners[IndexOfKey(owners, key.value)].slot == slot
  {
    if key == Some(k) && Owner(k, slot) in owners {
      KeyPlace(total, owners, Owner(k, slot));
    }
    if HasSlot(owners, key) && key == Some(k) {
      var i := IndexOfKey(owners, k);
      assert owners[i] == Owner(k, owners[i].slot);
    }
  }

  // ----- What the engine and the waiting requests are promised -----

  predicate InFlight(s: System, id: nat, slot: int) {
    id in s.requests && s.requests[id].Holding? && s.requests[id].slot == slot
  }

  lemma HeldAsItCame(total: nat, steps: seq<Step>, id: nat, slot: int)
    requires InFlight(Run(total, steps), id, slot)
    ensures Came(steps, id).Some? && Holds(Run(total, steps), id, Came(steps, id).value, slot)
  {
    hide Run, Came;
    StaysWithItsConversation(total, steps, id);
  }

  /** A request in flight owns its slot, for the conversation it came with or nobody's. */
  lemma HolderOwnsItsSlot(total: nat, steps: seq<Step>, id: nat, slot: int)
    requires InFlight(Run(total, steps), id, slot)
    ensures InRange(total, slot) && slot in Run(total, steps).busy
    ensures forall k :: Owner(k, slot) in Run(total, steps).owners <==> Came(steps, id) == Some(Some(k))
  {
    hide Run, Came, Choose, Agrees, HistoryOk;
    RunKeepsInvariant(total, steps);
    HeldAsItCame(total, steps, id, slot);
  }

  /** No two requests in flight ever share a slot, or came for one conversation. */
  lemma NeverTwoInFlight(total: nat, steps: seq<Step>, id: nat, id': nat, slot: int, slot': int)
    requires var s := Run(total, steps); InFlight(s, id, slot) && InFlight(s, id', slot') && id != id'
    ensures slot != slot'
    ensures Came(steps, id).Some? && Came(steps, id').Some?
    ensures Came(steps, id).value.Some? ==> Came(steps, id) != Came(steps, id')
  {
    hide Run, Came, Choose, Agrees, HistoryOk;
    RunKeepsInvariant(total, steps);
    HeldAsItCame(total, steps, id, slot);
    HeldAsItCame(total, steps, id', slot');
    var s, key := Run(total, steps), Came(steps, id).value;
    if key.Some? && Came(steps, id) == Came(steps, id') {
      KeyPlace(total, s.owners, Owner(key.value, slot));
      KeyPlace(total, s.owners, Owner(key.value, slot'));
    }
  }

  /** A sleeper is either woken already or waits for a slot some request still holds; and
      whichever request holding one leaves, every sleeper is woken. */
  lemma NoLostWakeUp(total: nat, steps: seq<Step>, id: nat)
    requires total > 0
    requires var s := Run(total, steps); id in s.requests && s.requests[id].Asleep?
    ensures var s := Run(total, steps);
      Enabled(s, Wake(id))
        || (Choose(total, s.owners, s.busy, s.requests[id].key).None? && exists h, key, slot :: Holds(s, h, key, slot))
    ensures var s := Run(total, steps);
      forall h, key, slot :: Holds(s, h, key, slot) ==> Enabled(Apply(total, s, Leave(h)), Wake(id))
  {
    hide Run, Agrees, HistoryOk, Choose;
    RunKeepsInvariant(total, steps);
    var s := Run(total, steps);
    if !Enabled(s, Wake(id)) {
      WaitsExactlyWhen(total, s.owners, s.busy, s.requests[id].key);
      SomethingBusy(total, s, s.requests[id].key);
    }
  }

  predicate Sleeps(s: System, id: nat) {
    id in s.requests && s.requests[id].Asleep?
  }

  /** The `i`-th step is a request in flight leaving, and `id` has slept from before it until now. */
  ghost predicate LeftWhileAsleep(total: nat, steps: seq<Step>, id: nat, i: int) {
    && 0 <= i < |steps| && steps[i].Leave?
    && (exists slot :: InFlight(Run(total, steps[..i]), steps[i].id, slot))
    && forall j :: i <= j <= |steps| ==> Sleeps(Run(total, steps[..j]), id)
  }

  /** Nobody is woken for nothing: a sleeper that may wake has slept while a request in flight left. */
  lemma {:induction false} WokenByALeave(total: nat, steps: seq<Step>, id: nat)
    requires Enabled(Run(total, steps), Wake(id))
    ensures exists i :: LeftWhileAsleep(total, steps, id, i)
  {
    hide Run, Apply;
    var n := |steps| - 1;
    NobodyAtTheStart(total);
    var before, s, s' := steps[..n], Run(total, steps[..n]), Run(total, steps);
    assert steps == before + [steps[n]];
    RunStep(total, before, steps[n]);
    FiredBefore(total, before, steps[n], id);
    if s'.requests[id].event in s.fired {
      WokenByALeave(total, before, id);
      var i :| LeftWhileAsleep(total, before, id, i);
      StillAsleep(total, steps, id, i);
    } else {
      assert steps[..n + 1] == steps;
      assert LeftWhileAsleep(total, steps, id, n);
    }
  }

  lemma NobodyAtTheStart(total: nat)
    ensures Run(total, []).requests == map[]
  {
  }

  lemma StillAsleep(total: nat, steps: seq<Step>, id: nat, i: int)
    requires steps != [] && LeftWhileAsleep(total, steps[..|steps| - 1], id, i) && Sleeps(Run(total, steps), id)
    ensures LeftWhileAsleep(total, steps, id, i)
  {
    hide Run, InFlight, Sleeps;
    var front := steps[..|steps| - 1];
    assert front[..i] == steps[..i];
    forall j | i <= j <= |steps|
      ensures Sleeps(Run(total, steps[..j]), id)
    {
      if j < |steps| {
        assert front[..j] == steps[..j];
      } else {
        assert steps[..j] == steps;
      }
    }
  }

  /** A sleeper's event is not fired when it falls asleep; it is fired by a request in flight leaving. */
  lemma FiredBefore(total: nat, steps: seq<Step>, step: Step, id: nat)
    requires Enabled(Run(total, steps + [step]), Wake(id))
    ensures var s, e := Run(total, steps), Run(total, steps + [step]).requests[id].event;
      && Sleeps(s, id) && s.requests[id].event == e
      && (e !in s.fired ==> step.Leave? && exists slot :: InFlight(s, step.id, slot))
  {
    hide Run, Choose, OwnersOk, Agrees, HistoryOk, HoldersOk;
    RunKeepsInvariant(total, steps);
    RunStep(total, steps, step);
    var s := Run(total, steps);
    if step.Leave? && step.id in s.requests && s.requests[step.id].Holding? {
      assert InFlight(s, step.id, s.requests[step.id].slot);
    }
  }

  lemma SomethingBusy(total: nat, s: System, key: Option<string>)
    requires total > 0 && OwnersOk(total, s.owners) && HoldersOk(total, s)
    requires Choose(total, s.owners, s.busy, key).None?
    ensures exists h, k, slot :: Holds(s, h, k, slot)
  {
    hide Choose;
    WaitsExactlyWhen(total, s.owners, s.busy, key);
    assert AllBusy(total, s.busy) ==> InRange(total, 0) && 0 in s.busy;
    var slot :| slot in s.busy;
    var h, k :| Holds(s, h, k, slot);
  }

  /** While any request is left, some request can move: try, wake, or be the engine's to finish. */
  lemma NoDeadlock(total: nat, steps: seq<Step>)
    requires total > 0 && Run(total, steps).requests != map[]
    ensures var s := Run(total, steps);
      exists id :: id in s.requests && (Enabled(s, Try(id)) || Enabled(s, Wake(id)) || s.requests[id].Holding?)
  {
    hide Run, Invariant, Choose;
    var s := Run(total, steps);
    var id :| id in s.requests;
    if s.requests[id].Asleep? {
      NoLostWakeUp(total, steps, id);
      if !Enabled(s, Wake(id)) {
        var h, key, slot :| Holds(s, h, key, slot);
        assert s.requests[h].Holding?;
      }
    }
  }

  /** In every run every claim is the least-recently-used one. */
  lemma RunIsLeastRecentlyUsed(total: nat, steps: seq<Step>, t: nat)
    requires t < |Run(total, steps).claims|
    ensures FollowsRule(total, Run(total, steps).claims[..t], Run(total, steps).claims[t])
  {
    hide Run, FollowsRule;
    RunKeepsInvariant(total, steps);
  }

  /** The history is what happened: a step that puts a request in flight adds the claim of the
      conversation it came with, on that slot, while exactly the slots of those in flight were busy;
        no other adds any. */
  lemma ClaimsAreWhatWasTaken(total: nat, steps: seq<Step>, step: Step)
    ensures var s, s' := Run(total, steps), Run(total, steps + [step]);
      && (forall id, slot :: InFlight(s', id, slot) && !InFlight(s, id, slot) ==>
            Came(steps, id).Some? && s'.claims == s.claims + [Claim(Came(steps, id).value, slot, s.busy)])
      && ((forall id, slot :: InFlight(s', id, slot) ==> InFlight(s, id, slot)) ==> s'.claims == s.claims)
  {
    hide Run, Choose, Came;
    var s, s' := Run(total, steps), Run(total, steps + [step]);
    RunStep(total, steps, step);
    match step
    case Try(id) =>
      StaysWithItsConversation(total, steps, id);
      if Enabled(s, step) && Choose(total, s.owners, s.busy, s.requests[id].key).Some? {
        assert InFlight(s', id, s'.requests[id].slot) && !InFlight(s, id, s'.requests[id].slot);
      }
    case _ =>
  }

  lemma RunStep(total: nat, steps: seq<Step>, step: Step)
    ensures var s := Run(total, steps);
      Run(total, steps + [step]) == if Enabled(s, step) then Apply(total, s, step) else s
  {
    hide Apply, Enabled;
    var all := steps + [step];
    assert all[..|all| - 1] == steps && all[|all| - 1] == step;
  }

  /** The slots busy are the slots of the requests in flight. */
  lemma BusyAreInFlight(total: nat, steps: seq<Step>, slot: int)
    ensures slot in Run(total, steps).busy <==> exists id :: InFlight(Run(total, steps), id, slot)
  {
    hide Run, Choose, Agrees, HistoryOk;
    RunKeepsInvariant(total, steps);
    var s := Run(total, steps);
    if slot in s.busy {
      var id, key :| Holds(s, id, key, slot);
      assert InFlight(s, id, slot);
    }
    forall id | InFlight(s, id, slot)
      ensures slot in s.busy
    {
      assert Holds(s, id, s.requests[id].key, slot);
    }
  }

  /** From `steps` on, all through `more`, only requests that came for `key` have been in flight on `slot`. */
  ghost predicate Undisturbed(total: nat, steps: seq<Step>, more: seq<Step>, key: string, slot: int) {
    forall n, id :: 0 <= n <= |more| && InFlight(Run(total, steps + more[..n]), id, slot) ==>
      Came(steps + more[..n], id) == Some(Some(key))
  }

  /** A conversation comes back to the slot it had, unless a request of another, or of none, was in flight on
      it between. */
  lemma KeepsItsSlot(total: nat, steps: seq<Step>, more: seq<Step>, id: nat, id': nat, key: string, slot: int,
                     slot': int)
    requires Came(steps, id) == Some(Some(key)) && InFlight(Run(total, steps), id, slot)
    requires Came(steps + more, id') == Some(Some(key)) && InFlight(Run(total, steps + more), id', slot')
    requires Undisturbed(total, steps, more, key, slot)
    ensures slot' == slot
  {
    hide Run, Came, InFlight, Undisturbed, Invariant, OwnersOk;
    HolderOwnsItsSlot(total, steps, id, slot);
    StillOwns(total, steps, more, key, slot);
    HolderOwnsItsSlot(total, steps + more, id', slot');
    var s := Run(total, steps + more);
    OwnersOfRun(total, steps + more);
    KeyPlace(total, s.owners, Owner(key, slot));
    KeyPlace(total, s.owners, Owner(key, slot'));
  }

  lemma OwnersOfRun(total: nat, steps: seq<Step>)
    ensures OwnersOk(total, Run(total, steps).owners)
  {
    hide Run, OwnersOk, HoldersOk, Agrees, HistoryOk, EventsOk, SleepersOk;
    RunKeepsInvariant(total, steps);
  }

  lemma {:induction false} StillOwns(total: nat, steps: seq<Step>, more: seq<Step>, key: string, slot: int)
    requires Owner(key, slot) in Run(total, steps).owners
    requires Undisturbed(total, steps, more, key, slot)
    ensures Owner(key, slot) in Run(total, steps + more).owners
    decreases |more|
  {
    hide Run, Came, Enabled, Apply, InFlight;
    if more == [] {
      assert steps + more == steps;
    } else {
      var n := |more| - 1;
      var earlier := more[..n];
      forall i, id | 0 <= i <= |earlier| && InFlight(Run(total, steps + earlier[..i]), id, slot)
        ensures Came(steps + earlier[..i], id) == Some(Some(key))
      {
        assert earlier[..i] == more[..i];
      }
      StillOwns(total, steps, earlier, key, slot);
      assert steps + more == steps + earlier + [more[n]] && more[..|more|] == more;
      OwnerLeftOnlyByOthers(total, steps + earlier, more[n], key, slot);
    }
  }

  lemma OwnerLeftOnlyByOthers(total: nat, steps: seq<Step>, step: Step, key: string, slot: int)
    requires Owner(key, slot) in Run(total, steps).owners
    requires forall id :: InFlight(Run(total, steps + [step]), id, slot) ==> Came(steps + [step], id) == Some(Some(key))
    ensures Owner(key, slot) in Run(total, steps + [step]).owners
  {
    hide Run, Came, Choose, OwnersOk;
    var s, s' := Run(total, steps), Run(total, steps + [step]);
    RunStep(total, steps, step);
    OwnersOfRun(total, steps);
    if step.Try? && Enabled(s, step) && Choose(total, s.owners, s.busy, s.requests[step.id].key).Some? {
      var asked := s.requests[step.id].key;
      var c := Choose(total, s.owners, s.busy, asked).value;
      ChoiceKeepsOk(total, s.owners, s.busy, asked);
      assert InFlight(s', step.id, c.slot);
      StaysWithItsConversation(total, steps + [step], step.id);
      assert c.slot == slot ==> asked == Some(key);
      assert asked == Some(key) ==> Owner(key, c.slot) in Entry(asked, c.slot);
    }
  }

  /** The same of the claims: a conversation keeps its slot from one to its next, unless another took it between. */
  lemma ClaimsKeepTheirSlot(total: nat, steps: seq<Step>, t: nat, u: nat)
    requires var h := Run(total, steps).claims;
      t < u < |h| && h[t].key.Some? && h[u].key == h[t].key && forall v :: t < v < u ==> h[v].slot != h[t].slot
    ensures var h := Run(total, steps).claims; h[u].slot == h[t].slot
  {
    hide Run, Belongs, FollowsRule;
    var h := Run(total, steps).claims;
    forall v | 0 <= v < |h|
      ensures FollowsRule(total, h[..v], h[v])
    {
      RunIsLeastRecentlyUsed(total, steps, v);
    }
    RuleBounds(total, h[..t], h[t]);
    BelongsSince(total, h, t, u);
    ComesBack(total, h[..u], h[u]);
    PastFollows(total, h, u);
    OneSlotEach(total, h[..u], h[u].key, h[t].slot, h[u].slot);
  }

  lemma RuleBounds(total: nat, h: seq<Claim>, c: Claim)
    requires FollowsRule(total, h, c)
    ensures InRange(total, c.slot)
  {
  }

  lemma BelongsSince(total: nat, h: seq<Claim>, t: nat, u: nat)
    requires t < u <= |h| && h[t].key.Some? && InRange(total, h[t].slot)
    requires forall v :: t < v < u ==> h[v].slot != h[t].slot
    ensures Belongs(total, h[..u], h[t].key, h[t].slot)
  {
    var past := h[..u];
    hide LastClaim;
    assert past[t] == h[t];
    assert forall v :: t < v < u ==> past[v].slot != h[t].slot;
    assert LastClaim(past, h[t].slot) == t;
  }

  lemma PastFollows(total: nat, h: seq<Claim>, u: nat)
    requires u <= |h| && forall v :: 0 <= v < |h| ==> FollowsRule(total, h[..v], h[v])
    ensures HistoryOk(total, h[..u])
  {
    hide FollowsRule;
    var past := h[..u];
    forall v | 0 <= v < u
      ensures FollowsRule(total, past[..v], past[v])
    {
      SliceOfSlice(h, 0, u, 0, v);
      assert past[..v] == h[..v];
    }
  }
}
