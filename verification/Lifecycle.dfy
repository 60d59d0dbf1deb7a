/** Whole runs of the system: end-to-end agreement, restarts, deletion and re-creation. */
module Lifecycle {
  import opened Store
  import opened Provider
  import opened Controller
  import opened Pool
  import opened Laws
  import opened Orchestrator
  import opened Status
  import opened System
  import opened Agreement
  import opened Scenarios

  // ---------------------------------------------------------------- what every step keeps

  /** What is still to be answered from before a deletion will leave no status entry behind. */
  ghost predicate Clears(s: Sys) {
    forall reqs :: EmitsAll(s.queue, reqs) ==>
      AppliedMapAll(map[], s.inflight + HandleAll(s.core, s.pending + reqs).1) == map[]
  }

  /** The hypotheses on a run: one resource, functional specs that leave the hosts of orphans
      where they are, responses for one key received in order and none lost, deletions whose
      status copy covers the store they will meet, re-creations that no answer from before
      will reach, and no restart that catches a host between two CIDRs. `inOrder` asks that
      all responses be received in order, and re-creations at rest. */
  ghost predicate Orderly(initial: Core, s: Sys, step: Step, orphans: set<HostSpec>, inOrder: bool) {
    match step
    case UserAdd(added) => Functional(SpecSet(added)) && Clears(s) && (inOrder ==> Quiescent(s))
    case UserUpdate(newSpec) => Functional(SpecSet(newSpec) + orphans)
    case UserDelete => Drains(s)
    case Restart => s.live ==> Unmoved(initial, s.spec, s.status)
    case Work(_) => true
    case Serve => true
    case Deliver(i, _) => OldestOfKey(s.inflight, i) && (inOrder ==> i == 0)
    case Lose(_) => false
  }

  /** The entries granted at the last restart that no spec has asked for since. */
  ghost function NextOrphans(initial: Core, s: Sys, step: Step, orphans: set<HostSpec>): set<HostSpec> {
    match step
    case UserAdd(_) => {}
    case UserUpdate(newSpec) => orphans - SpecSet(newSpec)
    case UserDelete => {}
    case Restart => if s.live then Orphans(initial, s.spec, s.status) else {}
    case _ => orphans
  }

  /** A store loaded from the same ranges. */
  ghost predicate SameRanges(initial: Core, core: Core) {
    Consistent(core) && Slots(core.tables.rows) == Slots(initial.tables.rows) && core.cidrs == initial.cidrs
  }

  /** A deleted resource: all that is left to do leads back to the configured store. */
  ghost predicate Leaving(initial: Core, s: Sys) {
    && !s.live && s.status == [] && NoBlanks([], s.inflight) && SameRanges(initial, s.core)
    && forall reqs :: EmitsAll(s.queue, reqs) ==> HandleAll(s.core, s.pending + reqs).0 == initial
  }

  /** Serving the requests gives the configured store, and their answers after those in flight
      empty the status. */
  ghost predicate Spent(initial: Core, s: Sys, reqs: seq<Request>) {
    var (core1, rs) := HandleAll(s.core, reqs);
    core1 == initial && AppliedMapAll(StatusMap(s.status), s.inflight + rs) == map[]
  }

  /** The system without what is left from before a deletion. */
  function Renewed(initial: Core, s: Sys, was: seq<Event>, due: seq<Request>): Sys
    requires was <= s.queue && due <= s.pending
  {
    Sys(initial, true, s.spec, [], s.queue[|was|..], s.pending[|due|..], [])
  }

  /** A resource created again while events and requests from before its deletion are still
      under way: they come first, and after them it is a fresh start. */
  ghost predicate Handover(initial: Core, s: Sys, was: seq<Event>, due: seq<Request>, orphans: set<HostSpec>) {
    && s.live && was <= s.queue && due <= s.pending && (was != [] ==> s.pending == due)
    && SameRanges(initial, s.core) && UniqueKeys(s.status) && NoBlanks(s.status, s.inflight)
    && (forall reqs :: EmitsAll(was, reqs) ==> Spent(initial, s, due + reqs))
    && Inv(initial, Renewed(initial, s, was, due), orphans, false)
  }

  ghost predicate Kept(initial: Core, s: Sys, orphans: set<HostSpec>, inOrder: bool) {
    if s.live then
      || Inv(initial, s, orphans, inOrder)
      || (!inOrder && exists was, due :: Handover(initial, s, was, due, orphans))
    else Leaving(initial, s) && orphans == {}
  }

  lemma InvAnyOrder(initial: Core, s: Sys, orphans: set<HostSpec>, inOrder: bool)
    requires Inv(initial, s, orphans, inOrder)
    ensures Inv(initial, s, orphans, false)
  {
    hide PlanOk, StoreOk, ViewOk, Stages;
    var keys, b, replays :| SysInv(initial, s, keys, b, replays, orphans, inOrder);
    assert SysInv(initial, s, keys, b, replays, orphans, false);
  }

  lemma InvStore(initial: Core, s: Sys, orphans: set<HostSpec>, inOrder: bool)
    requires Inv(initial, s, orphans, inOrder)
    ensures SameRanges(initial, s.core) && NoBlanks(s.status, s.inflight) && UniqueKeys(s.status)
  {
    hide PlanOk, Consistent, ValidBindings, OwnerIs, Due, UniqueKeys, AppliedMapAll, StatusMap, Stages;
  }

  lemma HandleRanges(initial: Core, core: Core, req: Request)
    requires SameRanges(initial, core)
    ensures SameRanges(initial, Handle(core, req).0)
  {
    hide Handle, Consistent;
    HandleRefines(core, req);
    HandleKeepsSlots(core, req);
  }

  lemma HandleAllRanges(initial: Core, core: Core, reqs: seq<Request>)
    requires SameRanges(initial, core)
    ensures SameRanges(initial, HandleAll(core, reqs).0)
  {
    hide HandleAll, Consistent;
    HandleAllRefines(core, reqs);
    RowsConserved(core, reqs);
  }

  // ---------------------------------------------------------------- after a deletion

  /** A deletion whose copy covers the store it will meet starts a way back to the configured
      store. */
  lemma StepDelete(initial: Core, s: Sys, t: Sys)
    requires Unused(initial) && SameRanges(initial, s.core) && NoBlanks(s.status, s.inflight)
    requires Drains(s) && Next(initial, s, UserDelete, t)
    ensures Leaving(initial, t)
  {
    hide HandleAll, Unused, Consistent, Covered, EmitsAll;
    forall reqs | EmitsAll(t.queue, reqs) ensures HandleAll(t.core, t.pending + reqs).0 == initial {
      var a, b := EmitsSplit(s.queue, Deleted(s.status), reqs);
      var mid := HandleAll(s.core, s.pending + a).0;
      HandleAllConcat(s.core, s.pending + a, b);
      assert s.pending + reqs == s.pending + a + b;
      HandleAllRanges(initial, s.core, s.pending + a);
      TeardownIff(initial, mid, s.status);
    }
  }

  lemma LeavingWork(initial: Core, s: Sys, reqs: seq<Request>, t: Sys)
    requires Leaving(initial, s) && Next(initial, s, Work(reqs), t)
    ensures Leaving(initial, t)
  {
    hide HandleAll, SameRanges, Emits, EmitsAll;
    forall rest | EmitsAll(t.queue, rest) ensures HandleAll(t.core, t.pending + rest).0 == initial {
      EmitsCons(s.queue, reqs, rest);
      assert s.pending + reqs + rest == s.pending + (reqs + rest);
    }
  }

  lemma ServeFirst(core: Core, pending: seq<Request>, reqs: seq<Request>)
    requires pending != []
    ensures var (core1, r) := Handle(core, pending[0]);
      var (core2, rest) := HandleAll(core1, pending[1..] + reqs);
      HandleAll(core, pending + reqs) == (core2, Sent(r) + rest)
  {
    hide Handle;
    assert (pending + reqs)[1..] == pending[1..] + reqs;
  }

  lemma AnswersOk(core: Core, req: Request, status: seq<IPSpec>, inflight: seq<Response>)
    requires NoBlanks(status, inflight)
    ensures NoBlanks(status, inflight + Sent(Handle(core, req).1))
  {
    hide Handle;
    AnswerNotBlank(core, req);
    AnswersItself(core, req);
  }

  lemma LeavingServe(initial: Core, s: Sys, t: Sys)
    requires Leaving(initial, s) && Next(initial, s, Serve, t)
    ensures Leaving(initial, t)
  {
    hide Handle, HandleAll, SameRanges, EmitsAll, NoBlanks;
    HandleRanges(initial, s.core, s.pending[0]);
    AnswersOk(s.core, s.pending[0], [], s.inflight);
    forall reqs | EmitsAll(t.queue, reqs) ensures HandleAll(t.core, t.pending + reqs).0 == initial {
      ServeFirst(s.core, s.pending, reqs);
    }
  }

  lemma LeavingRestart(initial: Core, s: Sys, t: Sys)
    requires Unused(initial) && Leaving(initial, s) && Next(initial, s, Restart, t)
    ensures Leaving(initial, t)
  {
    hide Consistent;
    assert t.pending + [] == [];
  }

  lemma StepLeaving(initial: Core, s: Sys, step: Step, t: Sys)
    requires Unused(initial) && Leaving(initial, s) && Next(initial, s, step, t)
    requires step.Work? || step.Serve? || step.Deliver? || step.Restart?
    ensures Leaving(initial, t)
  {
    hide Handle, HandleAll, EmitsAll, SameRanges;
    match step
    case Work(reqs) => LeavingWork(initial, s, reqs, t);
    case Serve => LeavingServe(initial, s, t);
    case Deliver(i, notify) => assert forall r :: r in DropAt(s.inflight, i) ==> r in s.inflight;
    case Restart => LeavingRestart(initial, s, t);
  }

  // ---------------------------------------------------------------- creation after a deletion

  lemma FreshStart(initial: Core, spec: seq<HostSpec>)
    requires Functional(SpecSet(spec))
    ensures Unmoved(initial, spec, []) && Orphans(initial, spec, []) == {}
    ensures ValidBindings(Slots(initial.tables.rows), StatusMap([]))
  {
    var granted := Regained(Slots(initial.tables.rows), []);
    assert granted.Keys == {};
    assert granted.Keys + SpecSet(spec) == SpecSet(spec);
  }

  /** Creating the resource again once its teardown is through is a fresh start. */
  lemma RecreatedIsBoot(initial: Core, s: Sys, added: seq<HostSpec>, t: Sys)
    requires Leaving(initial, s) && s.queue == [] && s.pending == [] && Next(initial, s, UserAdd(added), t)
    ensures t == Boot(initial, added, []).(inflight := s.inflight)
  {
    hide SameRanges;
    assert EmitsAll([], []) && s.pending + [] == [];
    assert t.queue == [Added(added, [])];
  }

  /** Creating it again sooner hands over to a fresh start. */
  lemma StepAdd(initial: Core, s: Sys, t: Sys, added: seq<HostSpec>)
    requires Unused(initial) && Leaving(initial, s) && Clears(s) && Functional(SpecSet(added))
    requires Next(initial, s, UserAdd(added), t)
    ensures Handover(initial, t, s.queue, s.pending, {})
  {
    hide HandleAll, EmitsAll, Unused, SameRanges, Functional, Inv, Unmoved, ValidBindings, NoBlanks;
    FreshStart(initial, added);
    BootInv(initial, added, [], false);
    var e := [Added(added, [])];
    assert t.queue == s.queue + e && t.queue[|s.queue|..] == e && t.pending[|s.pending|..] == [];
    assert Renewed(initial, t, s.queue, s.pending) == Boot(initial, added, []);
    assert StatusMap([]) == map[];
  }

  lemma HandoverDone(initial: Core, s: Sys, orphans: set<HostSpec>)
    requires Handover(initial, s, [], [], orphans)
    ensures Inv(initial, s, orphans, false)
  {
    hide PlanOk, SameRanges, StoreOk, Stages, UniqueKeys;
    var u := Renewed(initial, s, [], []);
    var none: seq<Request> := [];
    assert EmitsAll([], none) && none + none == none;
    assert Spent(initial, s, none) && s.inflight + [] == s.inflight;
    var keys, b, replays :| SysInv(initial, u, keys, b, replays, orphans, false);
    assert AppliedMapAll(StatusMap([]), []) == map[];
    assert SysInv(initial, s, keys, b, replays, orphans, false);
  }

  lemma HandoverWork(initial: Core, s: Sys, reqs: seq<Request>, t: Sys, was: seq<Event>, due: seq<Request>,
                     orphans: set<HostSpec>)
    requires Handover(initial, s, was, due, orphans) && Next(initial, s, Work(reqs), t)
    ensures exists was1, due1 :: Handover(initial, t, was1, due1, orphans)
  {
    hide HandleAll, SameRanges, Emits, EmitsAll, Inv, UniqueKeys, NoBlanks, AppliedMapAll, StatusMap;
    var u := Renewed(initial, s, was, due);
    if was != [] {
      assert t.queue[|was[1..]|..] == s.queue[|was|..] && t.pending[|due + reqs|..] == s.pending[|due|..];
      forall rest | EmitsAll(was[1..], rest) ensures Spent(initial, t, due + reqs + rest) {
        EmitsCons(was, reqs, rest);
        assert due + reqs + rest == due + (reqs + rest);
        assert Spent(initial, s, due + (reqs + rest));
      }
      assert Handover(initial, t, was[1..], due + reqs, orphans);
    } else {
      var v := u.(queue := u.queue[1..], pending := u.pending + reqs);
      assert u.queue == s.queue && t.pending[|due|..] == s.pending[|due|..] + reqs;
      StepWork(initial, u, v, reqs, orphans, false);
      assert Renewed(initial, t, was, due) == v;
      assert forall rest :: EmitsAll(was, rest) ==> Spent(initial, s, due + rest) ==> Spent(initial, t, due + rest);
      assert Handover(initial, t, was, due, orphans);
    }
  }

  lemma HandoverServe(initial: Core, s: Sys, t: Sys, was: seq<Event>, due: seq<Request>, orphans: set<HostSpec>)
    requires Handover(initial, s, was, due, orphans) && Next(initial, s, Serve, t) && due != []
    ensures Handover(initial, t, was, due[1..], orphans)
  {
    hide Handle, HandleAll, SameRanges, EmitsAll, Inv, UniqueKeys, NoBlanks, AppliedMapAll, StatusMap;
    assert s.pending[0] == due[0];
    HandleRanges(initial, s.core, due[0]);
    AnswersOk(s.core, due[0], s.status, s.inflight);
    forall reqs | EmitsAll(was, reqs) ensures Spent(initial, t, due[1..] + reqs) {
      assert Spent(initial, s, due + reqs);
      ServeFirst(s.core, due, reqs);
      var mine, rest := Sent(Handle(s.core, due[0]).1), HandleAll(t.core, due[1..] + reqs).1;
      assert s.inflight + (mine + rest) == s.inflight + mine + rest;
    }
    assert t.pending[|due[1..]|..] == s.pending[|due|..];
  }

  lemma HandoverDeliver(initial: Core, s: Sys, i: nat, notify: bool, t: Sys, was: seq<Event>, due: seq<Request>,
                        orphans: set<HostSpec>)
    requires Handover(initial, s, was, due, orphans) && Next(initial, s, Deliver(i, notify), t)
    requires OldestOfKey(s.inflight, i)
    ensures Handover(initial, t, was, due, orphans)
  {
    hide HandleAll, SameRanges, EmitsAll, Inv, UniqueKeys, AppliedMapAll, AppliedMap, StatusMap, Applied, DropAt;
    var u, r := Renewed(initial, s, was, due), s.inflight[i];
    DeliverBlanks(s.status, s.inflight, i);
    AppliedRefines(s.status, r);
    DeliverMap(StatusMap(s.status), s.inflight, i);
    forall reqs | EmitsAll(was, reqs) ensures Spent(initial, t, due + reqs) {
      assert Spent(initial, s, due + reqs);
      var rest := HandleAll(s.core, due + reqs).1;
      AppliedConcat(StatusMap(s.status), s.inflight, rest);
      AppliedConcat(StatusMap(t.status), t.inflight, rest);
    }
    if notify {
      StepEcho(initial, u, orphans, false);
      assert t.queue[|was|..] == s.queue[|was|..] + [Updated(s.spec, s.spec)];
    }
  }

  lemma DeliverBlanks(status: seq<IPSpec>, inflight: seq<Response>, i: nat)
    requires NoBlanks(status, inflight) && i < |inflight|
    ensures NoBlanks(Applied(status, inflight[i]), DropAt(inflight, i))
  {
    hide Applied;
    var r := inflight[i];
    assert r in inflight;
    forall e | e in Applied(status, r) ensures e.ip != "" { AppliedFrom(status, r, e); }
    assert forall x :: x in DropAt(inflight, i) ==> x in inflight;
  }

  lemma HandoverUpdate(initial: Core, s: Sys, newSpec: seq<HostSpec>, t: Sys, was: seq<Event>, due: seq<Request>,
                       orphans: set<HostSpec>)
    requires Handover(initial, s, was, due, orphans) && Next(initial, s, UserUpdate(newSpec), t)
    requires Functional(SpecSet(newSpec) + orphans)
    ensures Handover(initial, t, was, due, orphans - SpecSet(newSpec))
  {
    hide HandleAll, SameRanges, EmitsAll, Inv, UniqueKeys, NoBlanks, AppliedMapAll, StatusMap, Functional;
    var u := Renewed(initial, s, was, due);
    var v := u.(spec := newSpec, queue := u.queue + [Updated(s.spec, newSpec)]);
    StepUpdate(initial, u, v, newSpec, orphans, false);
    assert t.queue[|was|..] == s.queue[|was|..] + [Updated(s.spec, newSpec)];
    assert Renewed(initial, t, was, due) == v;
    forall reqs | EmitsAll(was, reqs) ensures Spent(initial, t, due + reqs) { assert Spent(initial, s, due + reqs); }
  }

  /** Every orderly step of a resource handed over keeps it so, or ends the handover. */
  lemma StepHandover(initial: Core, s: Sys, step: Step, t: Sys, was: seq<Event>, due: seq<Request>,
                     orphans: set<HostSpec>)
    requires Unused(initial) && Handover(initial, s, was, due, orphans)
    requires was != [] || due != []
    requires Next(initial, s, step, t) && Orderly(initial, s, step, orphans, false)
    ensures Kept(initial, t, NextOrphans(initial, s, step, orphans), false)
  {
    hide Handover, Leaving, Inv, Drains, Clears, Functional, Unmoved, OldestOfKey, Orphans, Unused;
    LiveAfter(initial, s, step, t);
    HandoverHas(initial, s, was, due, orphans);
    match step
    case UserAdd(added) =>
    case UserUpdate(newSpec) => HandoverUpdate(initial, s, newSpec, t, was, due, orphans);
    case UserDelete => StepDelete(initial, s, t);
    case Restart =>
      BootInv(initial, s.spec, s.status, false);
      assert t == Boot(initial, s.spec, s.status);
    case Work(reqs) => HandoverWork(initial, s, reqs, t, was, due, orphans);
    case Serve => HandoverServe(initial, s, t, was, due, orphans);
    case Deliver(i, notify) => HandoverDeliver(initial, s, i, notify, t, was, due, orphans);
  }

  lemma HandoverHas(initial: Core, s: Sys, was: seq<Event>, due: seq<Request>, orphans: set<HostSpec>)
    requires Handover(initial, s, was, due, orphans)
    ensures s.live && SameRanges(initial, s.core) && Written(s.status) && NoBlanks(s.status, s.inflight)
    ensures (was != [] || due != []) && s.pending != [] ==> due != []
  {
    hide SameRanges, Inv, Spent, EmitsAll;
  }

  // ---------------------------------------------------------------- deletion at rest

  /** All that is left to be asked and answered are DELETEs. */
  predicate OnlyTeardown(s: Sys) {
    && (forall event :: event in s.queue ==> event.Deleted?)
    && (forall req :: req in s.pending ==> req.op == Delete)
    && (forall r :: r in s.inflight ==> r.req.op == Delete)
  }

  lemma {:induction false} TeardownEmits(queue: seq<Event>, reqs: seq<Request>)
    requires EmitsAll(queue, reqs) && forall event :: event in queue ==> event.Deleted?
    ensures forall req :: req in reqs ==> req.op == Delete
    decreases |queue|
  {
    if queue != [] {
      var a, b :| Emits(queue[0], a) && EmitsAll(queue[1..], b) && reqs == a + b;
      assert queue[0] in queue;
      TeardownEmits(queue[1..], b);
    }
  }

  lemma {:induction false} AnswersOf(core: Core, reqs: seq<Request>)
    ensures forall r :: r in HandleAll(core, reqs).1 ==> r.req in reqs
    decreases |reqs|
  {
    hide Handle;
    if reqs != [] {
      AnswersItself(core, reqs[0]);
      AnswersOf(Handle(core, reqs[0]).0, reqs[1..]);
    }
  }

  lemma {:induction false} DeletesEmpty(rs: seq<Response>)
    requires forall r :: r in rs ==> r.req.op == Delete
    ensures AppliedMapAll(map[], rs) == map[]
    decreases |rs|
  {
    if rs != [] {
      assert forall r :: r in rs[..|rs| - 1] ==> r in rs;
      assert rs[|rs| - 1] in rs;
      DeletesEmpty(rs[..|rs| - 1]);
    }
  }

  lemma TeardownClears(s: Sys)
    requires OnlyTeardown(s)
    ensures Clears(s)
  {
    hide HandleAll, EmitsAll, AppliedMapAll;
    forall reqs | EmitsAll(s.queue, reqs)
      ensures AppliedMapAll(map[], s.inflight + HandleAll(s.core, s.pending + reqs).1) == map[]
    {
      TeardownEmits(s.queue, reqs);
      AnswersOf(s.core, s.pending + reqs);
      DeletesEmpty(s.inflight + HandleAll(s.core, s.pending + reqs).1);
    }
  }

  lemma TeardownStep(initial: Core, s: Sys, step: Step, t: Sys)
    requires OnlyTeardown(s) && !s.live && Next(initial, s, step, t) && Internal(step)
    ensures OnlyTeardown(t) && !t.live
  {
    hide Handle;
    match step
    case Work(reqs) =>
      assert s.queue[0] in s.queue;
      TeardownEmitted(s.queue[0], reqs);
    case Serve =>
      AnswersItself(s.core, s.pending[0]);
      assert s.pending[0] in s.pending;
    case Deliver(i, _) => assert forall r :: r in DropAt(s.inflight, i) ==> r in s.inflight;
    case Lose(i) => assert forall r :: r in DropAt(s.inflight, i) ==> r in s.inflight;
  }

  lemma TeardownEmitted(event: Event, reqs: seq<Request>)
    requires event.Deleted? && Emits(event, reqs)
    ensures forall req :: req in reqs ==> req.op == Delete
  {
  }

  /** A resource deleted at rest may be created again at any moment: however far its teardown
      is, no answer to it will touch the new status. */
  lemma {:induction false} CreateAnyTime(initial: Core, s: Sys, states: seq<Sys>, steps: seq<Step>, n: nat)
    requires Quiescent(s) && IsRun(initial, states, steps) && n < |states|
    requires Next(initial, s, UserDelete, states[0]) && forall step :: step in steps ==> Internal(step)
    ensures OnlyTeardown(states[n]) && !states[n].live && Clears(states[n])
    decreases n
  {
    hide Next, OnlyTeardown, Clears, Internal;
    if n == 0 {
      DeletedAtRest(initial, s, states[0]);
    } else {
      CreateAnyTime(initial, s, states, steps, n - 1);
      assert Next(initial, states[n - 1], steps[n - 1], states[n - 1 + 1]);
      TeardownStep(initial, states[n - 1], steps[n - 1], states[n]);
    }
    TeardownClears(states[n]);
  }

  lemma DeletedAtRest(initial: Core, s: Sys, t: Sys)
    requires Quiescent(s) && Next(initial, s, UserDelete, t)
    ensures OnlyTeardown(t) && !t.live
  {
  }

  // ---------------------------------------------------------------- every step

  lemma StepInv(initial: Core, s: Sys, step: Step, t: Sys, orphans: set<HostSpec>, inOrder: bool)
    requires Unused(initial) && Inv(initial, s, orphans, inOrder) && s.live
    requires Next(initial, s, step, t) && Orderly(initial, s, step, orphans, inOrder) && !step.UserAdd?
    ensures Kept(initial, t, NextOrphans(initial, s, step, orphans), inOrder)
  {
    hide Inv, Leaving, Unused, Unmoved, Functional, Orphans, OldestOfKey, Drains, Clears, Handover;
    LiveAfter(initial, s, step, t);
    match step
    case UserUpdate(newSpec) => StepUpdate(initial, s, t, newSpec, orphans, inOrder);
    case UserDelete =>
      InvStore(initial, s, orphans, inOrder);
      StepDelete(initial, s, t);
    case Restart => StepRestart(initial, s, t, orphans, inOrder);
    case Work(reqs) => StepWork(initial, s, t, reqs, orphans, inOrder);
    case Serve => StepServe(initial, s, t, orphans, inOrder);
    case Deliver(i, notify) => StepDeliver(initial, s, t, i, notify, orphans, inOrder);
  }

  /** Every orderly step keeps the invariant: with a live resource, after its deletion, and
      while it is created again. */
  lemma StepKept(initial: Core, s: Sys, step: Step, t: Sys, orphans: set<HostSpec>, inOrder: bool)
    requires Unused(initial) && Kept(initial, s, orphans, inOrder)
    requires Next(initial, s, step, t) && Orderly(initial, s, step, orphans, inOrder)
    ensures Kept(initial, t, NextOrphans(initial, s, step, orphans), inOrder)
  {
    hide Inv, Leaving, Unused, Unmoved, Functional, ValidBindings, StatusMap, Orphans, OldestOfKey, Drains, Clears,
         Handover;
    LiveAfter(initial, s, step, t);
    if step.UserAdd? {
      if inOrder {
        RecreatedIsBoot(initial, s, step.added, t);
        FreshStart(initial, step.added);
        BootInv(initial, step.added, [], true);
      } else {
        StepAdd(initial, s, t, step.added);
      }
    } else if !s.live {
      StepLeaving(initial, s, step, t);
    } else if Inv(initial, s, orphans, inOrder) {
      StepInv(initial, s, step, t, orphans, inOrder);
    } else {
      var was, due :| Handover(initial, s, was, due, orphans);
      if was == [] && due == [] {
        HandoverDone(initial, s, orphans);
      } else {
        StepHandover(initial, s, step, t, was, due, orphans);
      }
    }
  }

  lemma LiveAfter(initial: Core, s: Sys, step: Step, t: Sys)
    requires Next(initial, s, step, t)
    ensures match step
      case UserAdd(_) => !s.live && t.live
      case UserDelete => s.live && !t.live
      case UserUpdate(_) => s.live && t.live
      case _ => t.live == s.live
  {
    hide Handle, Applied, Emits;
  }

  // ---------------------------------------------------------------- whole runs

  /** A run that meets the hypotheses, with the orphans of each state. */
  ghost predicate OrderlyRun(initial: Core, states: seq<Sys>, steps: seq<Step>, orphans: seq<set<HostSpec>>,
                             inOrder: bool)
  {
    && IsRun(initial, states, steps) && |orphans| == |states|
    && forall i :: 0 <= i < |steps| ==>
         && Orderly(initial, states[i], steps[i], orphans[i], inOrder)
         && orphans[i + 1] == NextOrphans(initial, states[i], steps[i], orphans[i])
  }

  lemma {:induction false} RunKept(initial: Core, states: seq<Sys>, steps: seq<Step>, orphans: seq<set<HostSpec>>,
                                   inOrder: bool, n: nat)
    requires Unused(initial) && OrderlyRun(initial, states, steps, orphans, inOrder) && n < |states|
    requires Kept(initial, states[0], orphans[0], inOrder)
    ensures Kept(initial, states[n], orphans[n], inOrder)
    decreases n
  {
    hide Kept, Orderly, NextOrphans, Next, Unused;
    if n > 0 {
      RunKept(initial, states, steps, orphans, inOrder, n - 1);
      assert Next(initial, states[n - 1], steps[n - 1], states[n - 1 + 1]);
      assert orphans[n - 1 + 1] == NextOrphans(initial, states[n - 1], steps[n - 1], orphans[n - 1]);
      StepKept(initial, states[n - 1], steps[n - 1], states[n], orphans[n - 1], inOrder);
    }
  }

  /** At rest: agreement for a live resource, the configured store after a deletion. */
  ghost predicate RestOk(initial: Core, s: Sys, orphans: set<HostSpec>) {
    if s.live then
      && Agrees(s.core, SpecSet(s.spec) + orphans, s.status)
      && (Agrees(s.core, SpecSet(s.spec), s.status) <==> orphans == {})
    else s.core == initial && s.status == []
  }

  lemma KeptInv(initial: Core, s: Sys, orphans: set<HostSpec>, inOrder: bool)
    requires Kept(initial, s, orphans, inOrder) && Quiescent(s) && s.live
    ensures Inv(initial, s, orphans, false)
  {
    hide Inv, SameRanges, Spent;
    if Inv(initial, s, orphans, inOrder) {
      InvAnyOrder(initial, s, orphans, inOrder);
    } else {
      var was, due :| Handover(initial, s, was, due, orphans);
      assert was == [] && due == [];
      HandoverDone(initial, s, orphans);
    }
  }

  lemma KeptAtRest(initial: Core, s: Sys, orphans: set<HostSpec>, inOrder: bool)
    requires Kept(initial, s, orphans, inOrder) && Quiescent(s)
    ensures RestOk(initial, s, orphans)
  {
    hide Inv, Handover;
    if !s.live {
      hide SameRanges;
      assert EmitsAll([], []) && s.pending + [] == [];
    }
    if s.live {
      KeptInv(initial, s, orphans, inOrder);
      RestAgrees(initial, s, orphans);
      if orphans == {} {
        assert SpecSet(s.spec) + orphans == SpecSet(s.spec);
      } else {
        var k :| k in orphans;
        var ip :| IPSpec(k.host, k.cidr, ip) in s.status;
        assert !(IPSpec(k.host, k.cidr, ip) in s.status
                 <==> k in SpecSet(s.spec) && ARecord(ip, k.host) in s.core.tables.records);
      }
    }
  }

  /** End to end: over every orderly run from any status the system may have left behind, with
      restarts at any moment that catches no host between two CIDRs, responses overtaking one
      another across keys, the resource deleted whenever its status covers the store and
      created again whenever no answer from before will reach it, each state at rest agrees
      for the latest spec plus the orphans, agrees for the latest spec alone exactly when there
      are no orphans, and is back at the configured store while the resource is deleted. */
  lemma EndToEnd(initial: Core, spec: seq<HostSpec>, status: seq<IPSpec>,
                 states: seq<Sys>, steps: seq<Step>, orphans: seq<set<HostSpec>>, n: nat)
    requires Unused(initial) && Written(status) && Unmoved(initial, spec, status)
    requires OrderlyRun(initial, states, steps, orphans, false) && n < |states|
    requires states[0] == Boot(initial, spec, status) && orphans[0] == Orphans(initial, spec, status)
    requires Quiescent(states[n])
    ensures RestOk(initial, states[n], orphans[n])
  {
    hide Inv, Unmoved, Written, Orphans, Orderly, Next, NextOrphans, Unused;
    BootInv(initial, spec, status, false);
    RunKept(initial, states, steps, orphans, false, n);
    KeptAtRest(initial, states[n], orphans[n], false);
  }

  /** With all responses in order, a restart at any moment would be granted every entry. */
  lemma RestartsLoseNothing(initial: Core, spec: seq<HostSpec>, status: seq<IPSpec>,
                            states: seq<Sys>, steps: seq<Step>, orphans: seq<set<HostSpec>>, n: nat)
    requires Unused(initial) && Written(status) && Unmoved(initial, spec, status)
    requires ValidBindings(Slots(initial.tables.rows), StatusMap(status))
    requires OrderlyRun(initial, states, steps, orphans, true) && n < |states| && states[n].live
    requires states[0] == Boot(initial, spec, status) && orphans[0] == Orphans(initial, spec, status)
    ensures Regained(Slots(initial.tables.rows), states[n].status) == StatusMap(states[n].status)
  {
    hide Inv, Unmoved, Orphans, Orderly, Next, NextOrphans, Unused, ValidBindings, StatusMap, Regained;
    BootInv(initial, spec, status, true);
    RunKept(initial, states, steps, orphans, true, n);
    InvWritten(initial, states[n], orphans[n], true);
    ValidGranted(Slots(initial.tables.rows), states[n].status);
  }

  /** An update of steps j to n - 1 asks for the key. */
  ghost predicate TakenOver(steps: seq<Step>, j: nat, n: nat, k: HostSpec)
    requires j <= n <= |steps|
  {
    exists i :: j <= i < n && steps[i].UserUpdate? && k in SpecSet(steps[i].newSpec)
  }

  predicate Begins(step: Step) { step.Restart? || step.UserAdd? || step.UserDelete? }

  lemma {:induction false} OrphansSince(initial: Core, states: seq<Sys>, steps: seq<Step>,
                                        orphans: seq<set<HostSpec>>, inOrder: bool, j: nat, n: nat)
    requires OrderlyRun(initial, states, steps, orphans, inOrder) && j <= n < |states|
    requires forall i :: j <= i < n ==> !Begins(steps[i])
    ensures forall k :: k in orphans[n] <==> k in orphans[j] && !TakenOver(steps, j, n, k)
    decreases n
  {
    hide Orderly, Next, Orphans;
    if n > j {
      OrphansSince(initial, states, steps, orphans, inOrder, j, n - 1);
      assert orphans[n - 1 + 1] == NextOrphans(initial, states[n - 1], steps[n - 1], orphans[n - 1]);
      forall k ensures TakenOver(steps, j, n, k) <==>
        TakenOver(steps, j, n - 1, k) || (steps[n - 1].UserUpdate? && k in SpecSet(steps[n - 1].newSpec))
      {
      }
    }
  }

  /** Exactly when there are no orphans: the last start - the run's own, or the restart,
      creation or deletion of step j - 1 - left none, or a later update took each one over. */
  lemma NoOrphansIff(initial: Core, states: seq<Sys>, steps: seq<Step>, orphans: seq<set<HostSpec>>,
                     inOrder: bool, j: nat, n: nat)
    requires OrderlyRun(initial, states, steps, orphans, inOrder) && j <= n < |states|
    requires if j == 0 then orphans[0] == Orphans(initial, states[0].spec, states[0].status)
             else Begins(steps[j - 1])
    requires forall i :: j <= i < n ==> !Begins(steps[i])
    ensures var s := if j == 0 then states[0] else states[j - 1];
      orphans[n] == {} <==>
        (j == 0 || (steps[j - 1].Restart? && s.live) ==>
           forall k :: k in Regained(Slots(initial.tables.rows), s.status) ==>
             k in SpecSet(s.spec) || TakenOver(steps, j, n, k))
  {
    hide Orderly, Next, Regained, TakenOver;
    OrphansSince(initial, states, steps, orphans, inOrder, j, n);
    if j > 0 {
      assert orphans[j - 1 + 1] == NextOrphans(initial, states[j - 1], steps[j - 1], orphans[j - 1]);
    }
  }

  // ---------------------------------------------------------------- the system left alone

  /** The controller's own steps, nothing lost and responses for one key in order. */
  predicate Quiet(s: Sys, step: Step) {
    match step
    case Work(_) => true
    case Serve => true
    case Deliver(i, _) => OldestOfKey(s.inflight, i)
    case _ => false
  }

  ghost predicate QuietRun(initial: Core, states: seq<Sys>, steps: seq<Step>) {
    IsRun(initial, states, steps) && forall i :: 0 <= i < |steps| ==> Quiet(states[i], steps[i])
  }

  lemma QuietIsOrderly(initial: Core, states: seq<Sys>, steps: seq<Step>, orphans: set<HostSpec>)
    requires QuietRun(initial, states, steps)
    ensures OrderlyRun(initial, states, steps, seq(|states|, _ => orphans), false)
  {
    hide Next;
  }

  lemma QuietKept(initial: Core, states: seq<Sys>, steps: seq<Step>, orphans: set<HostSpec>)
    requires Unused(initial) && QuietRun(initial, states, steps) && Kept(initial, states[0], orphans, false)
    ensures Kept(initial, states[|steps|], orphans, false)
  {
    hide Kept, Unused, OrderlyRun, Next, Quiet;
    QuietIsOrderly(initial, states, steps, orphans);
    RunKept(initial, states, steps, seq(|states|, _ => orphans), false, |steps|);
  }
}
