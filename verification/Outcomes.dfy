/** What becomes of one event when the system is then left alone, and exactly when that is
    agreement. */
module Outcomes {
  import opened Store
  import opened Provider
  import opened Controller
  import opened Pool
  import opened Laws
  import opened Orchestrator
  import opened Status
  import opened System
  import opened Agreement
  import opened Scenarios
  import opened Lifecycle
  import Settling

  // ---------------------------------------------------------------- the system left alone

  /** The status is what answering, in the order of serving, all that was under way gives. */
  ghost predicate Followed(s: Sys, t: Sys, reqs: seq<Request>) {
    && t.live && t.spec == s.spec && UniqueKeys(t.status)
    && StatusMap(t.status)
       == AppliedMapAll(StatusMap(s.status), s.inflight + HandleAll(s.core, s.pending + reqs).1)
  }

  lemma OutcomeWork(s: Sys, emitted: seq<Request>, u: Sys, t: Sys, rest: seq<Request>)
    requires s.queue != [] && Emits(s.queue[0], emitted)
    requires u == s.(queue := s.queue[1..], pending := s.pending + emitted)
    requires EmitsAll(u.queue, rest) && t.core == HandleAll(u.core, u.pending + rest).0
    ensures EmitsAll(s.queue, emitted + rest) && t.core == HandleAll(s.core, s.pending + (emitted + rest)).0
    ensures Followed(u, t, rest) ==> Followed(s, t, emitted + rest)
  {
    hide Emits, EmitsAll, HandleAll, StatusMap, UniqueKeys;
    EmitsCons(s.queue, emitted, rest);
    assert s.pending + emitted + rest == s.pending + (emitted + rest);
  }

  lemma OutcomeServe(s: Sys, u: Sys, t: Sys, reqs: seq<Request>)
    requires s.pending != []
    requires var (core1, r) := Handle(s.core, s.pending[0]);
      u == s.(core := core1, pending := s.pending[1..], inflight := s.inflight + Sent(r))
    requires t.core == HandleAll(u.core, u.pending + reqs).0
    ensures t.core == HandleAll(s.core, s.pending + reqs).0
    ensures Followed(u, t, reqs) ==> Followed(s, t, reqs)
  {
    hide Handle, HandleAll, StatusMap, UniqueKeys, AppliedMapAll;
    ServeFirst(s.core, s.pending, reqs);
    var mine, rest := Sent(Handle(s.core, s.pending[0]).1), HandleAll(u.core, u.pending + reqs).1;
    assert s.inflight + mine + rest == s.inflight + (mine + rest);
  }

  lemma OutcomeDeliver(s: Sys, i: nat, u: Sys, t: Sys, reqs: seq<Request>)
    requires s.live && UniqueKeys(s.status) && OldestOfKey(s.inflight, i)
    requires u.core == s.core && u.pending == s.pending && u.spec == s.spec
    requires u.status == Applied(s.status, s.inflight[i]) && u.inflight == DropAt(s.inflight, i)
    requires Followed(u, t, reqs)
    ensures Followed(s, t, reqs)
  {
    hide HandleAll, StatusMap, UniqueKeys, AppliedMapAll, AppliedMap, Applied, DropAt;
    var m, rest := StatusMap(s.status), HandleAll(s.core, s.pending + reqs).1;
    AppliedRefines(s.status, s.inflight[i]);
    DeliverMap(m, s.inflight, i);
    AppliedConcat(m, s.inflight, rest);
    AppliedConcat(AppliedMap(m, s.inflight[i]), u.inflight, rest);
  }

  lemma OutcomeStep(initial: Core, s: Sys, step: Step, u: Sys, t: Sys, rest: seq<Request>, quiet: bool)
    returns (reqs: seq<Request>)
    requires Next(initial, s, step, u) && Internal(step)
    requires EmitsAll(u.queue, rest) && t.core == HandleAll(u.core, u.pending + rest).0
    requires quiet ==> s.live && UniqueKeys(s.status) && Quiet(s, step) && Followed(u, t, rest)
    ensures EmitsAll(s.queue, reqs) && t.core == HandleAll(s.core, s.pending + reqs).0
    ensures quiet ==> Followed(s, t, reqs)
  {
    hide Handle, HandleAll, Emits, EmitsAll, UniqueKeys, Followed, Applied, OldestOfKey;
    reqs := rest;
    match step
    case Work(emitted) =>
      reqs := emitted + rest;
      OutcomeWork(s, emitted, u, t, rest);
    case Serve => OutcomeServe(s, u, t, rest);
    case Deliver(i, notify) =>
      if notify { EchoEmitsNothing(s.queue, s.spec, rest); }
      if quiet { OutcomeDeliver(s, i, u, t, rest); }
    case Lose(i) =>
  }

  lemma StillUnique(initial: Core, s: Sys, step: Step, u: Sys)
    requires Next(initial, s, step, u) && Internal(step) && UniqueKeys(s.status)
    ensures UniqueKeys(u.status) && u.live == s.live
  {
    hide Handle, Emits, Applied, UniqueKeys;
    if step.Deliver? { AppliedRefines(s.status, s.inflight[step.i]); }
  }

  lemma RunTail(initial: Core, states: seq<Sys>, steps: seq<Step>)
    requires IsRun(initial, states, steps) && steps != []
    ensures IsRun(initial, states[1..], steps[1..])
  {
    hide Next;
    forall i | 0 <= i < |steps[1..]| ensures Next(initial, states[1..][i], steps[1..][i], states[1..][i + 1]) {
      assert Next(initial, states[i + 1], steps[i + 1], states[i + 1 + 1]);
    }
  }

  /** Left alone, in whatever order its steps come and whichever answers are lost, the system
      comes to rest with the store that serving all requests under way gives: those pending,
      then what the queued events turn into. With no answer lost and those for one key in
      order, its status is what answering them in that order gives. */
  lemma {:induction false} Outcome(initial: Core, states: seq<Sys>, steps: seq<Step>, quiet: bool)
    returns (reqs: seq<Request>)
    requires IsRun(initial, states, steps) && Quiescent(states[|steps|])
    requires forall i :: 0 <= i < |steps| ==> Internal(steps[i])
    requires quiet ==> states[0].live && UniqueKeys(states[0].status)
    requires quiet ==> forall i :: 0 <= i < |steps| ==> Quiet(states[i], steps[i])
    ensures var (s, t) := (states[0], states[|steps|]);
      && EmitsAll(s.queue, reqs) && t.core == HandleAll(s.core, s.pending + reqs).0
      && (quiet ==> Followed(s, t, reqs))
    decreases |steps|
  {
    hide Next, Internal, Quiet, UniqueKeys, Followed;
    if steps == [] {
      reqs := [];
      NothingLeft(states[0]);
    } else {
      assert Next(initial, states[0], steps[0], states[0 + 1]);
      RunTail(initial, states, steps);
      if quiet { StillUnique(initial, states[0], steps[0], states[1]); }
      var rest := Outcome(initial, states[1..], steps[1..], quiet);
      reqs := OutcomeStep(initial, states[0], steps[0], states[1], states[|steps|], rest, quiet);
    }
  }

  lemma NothingLeft(s: Sys)
    requires Quiescent(s)
    ensures EmitsAll(s.queue, []) && s.core == HandleAll(s.core, s.pending + []).0
    ensures s.live && UniqueKeys(s.status) ==> Followed(s, s, [])
  {
    hide StatusMap, UniqueKeys;
    assert s.pending + [] == [] && HandleAll(s.core, []) == (s.core, []);
  }

  /** A resource at rest to which one event has happened. */
  predicate OneEvent(s: Sys) {
    s.live && |s.queue| == 1 && s.pending == [] && s.inflight == [] && UniqueKeys(s.status)
  }

  lemma QuietInternal(initial: Core, states: seq<Sys>, steps: seq<Step>)
    requires QuietRun(initial, states, steps)
    ensures IsRun(initial, states, steps)
    ensures forall i :: 0 <= i < |steps| ==> Internal(steps[i]) && Quiet(states[i], steps[i])
  {
    hide Next, OldestOfKey;
    forall i | 0 <= i < |steps| ensures Internal(steps[i]) { assert Quiet(states[i], steps[i]); }
  }

  /** One event at rest, however it is worked off: its requests served one by one, their
      responses applied in order. */
  lemma WorkedOff(initial: Core, states: seq<Sys>, steps: seq<Step>) returns (reqs: seq<Request>)
    requires QuietRun(initial, states, steps) && OneEvent(states[0]) && Quiescent(states[|steps|])
    ensures var (s, t) := (states[0], states[|steps|]);
      && Emits(s.queue[0], reqs)
      && t.live && t.spec == s.spec && t.core == HandleAll(s.core, reqs).0
      && UniqueKeys(t.status)
      && StatusMap(t.status) == AppliedMapAll(StatusMap(s.status), HandleAll(s.core, reqs).1)
  {
    hide Next, Quiet, Internal, Emits, StatusMap, UniqueKeys, HandleAll, EmitsAll;
    var s := states[0];
    QuietInternal(initial, states, steps);
    reqs := Outcome(initial, states, steps, true);
    assert s.queue == [] + [s.queue[0]];
    var none, one := EmitsSplit([], s.queue[0], reqs);
    NoneEmitted(none);
    assert [] + one == one && [] + reqs == reqs && [] + HandleAll(s.core, reqs).1 == HandleAll(s.core, reqs).1;
  }

  lemma NoneEmitted(reqs: seq<Request>)
    requires EmitsAll([], reqs)
    ensures reqs == []
  {
  }

  /** Exactly when deleting the resource gives everything back, whatever is under way at the
      deletion: its status then lists each host at least as often as the host will have
      records once the requests pending and those of the queued events are served. Answers
      may come in any order or be lost. */
  lemma DeletionIff(initial: Core, s: Sys, states: seq<Sys>, steps: seq<Step>) returns (reqs: seq<Request>)
    requires Unused(initial) && SameRanges(initial, s.core)
    requires IsRun(initial, states, steps) && Next(initial, s, UserDelete, states[0])
    requires (forall i :: 0 <= i < |steps| ==> Internal(steps[i])) && Quiescent(states[|steps|])
    ensures EmitsAll(s.queue, reqs)
    ensures states[|steps|].core == initial <==> Covered(HandleAll(s.core, s.pending + reqs).0, s.status)
  {
    hide HandleAll, Consistent, Covered, EmitsAll, Unused;
    var t := states[0];
    var all := Outcome(initial, states, steps, false);
    assert t.queue == s.queue + [Deleted(s.status)] && t.pending == s.pending && t.core == s.core;
    var teardown: seq<Request>;
    reqs, teardown := EmitsSplit(s.queue, Deleted(s.status), all);
    assert s.pending + all == s.pending + reqs + teardown;
    HandleAllConcat(s.core, s.pending + reqs, teardown);
    HandleAllRanges(initial, s.core, s.pending + reqs);
    TeardownIff(initial, HandleAll(s.core, s.pending + reqs).0, s.status);
  }

  /** From any state, the system can come to rest by its own steps. */
  lemma {:induction false} QuietToRest(initial: Core, s: Sys) returns (states: seq<Sys>, steps: seq<Step>)
    ensures QuietRun(initial, states, steps) && states[0] == s && Quiescent(states[|steps|])
    decreases Settling.Measure(s)
  {
    hide Next, Settling.Measure, Quiescent;
    if Quiescent(s) {
      states, steps := [s], [];
    } else {
      var step, t := Settling.MovesUntilQuiescent(initial, s);
      Settling.InternalDecreases(initial, s, step, t);
      DeliverInside(initial, s, step, t);
      var states1, steps1 := QuietToRest(initial, t);
      states, steps := [s] + states1, [step] + steps1;
      forall i | 0 <= i < |steps|
        ensures Next(initial, states[i], steps[i], states[i + 1]) && Quiet(states[i], steps[i])
      {
        if i > 0 { assert Next(initial, states1[i - 1], steps1[i - 1], states1[i - 1 + 1]); }
      }
      assert states[|steps|] == states1[|steps1|];
    }
  }

  lemma DeliverInside(initial: Core, s: Sys, step: Step, t: Sys)
    requires Next(initial, s, step, t) && (step.Work? || step.Serve? || (step.Deliver? && step.i == 0))
    ensures Quiet(s, step)
  {
    hide Handle, Applied, Emits;
  }

  /** Left alone, an orderly system comes to rest, and what it rests in is as it should be. */
  lemma ComesToRest(initial: Core, s: Sys, orphans: set<HostSpec>) returns (states: seq<Sys>, steps: seq<Step>)
    requires Unused(initial) && Kept(initial, s, orphans, false)
    ensures QuietRun(initial, states, steps) && states[0] == s
    ensures Quiescent(states[|steps|]) && RestOk(initial, states[|steps|], orphans)
  {
    hide Kept, Unused, Next, Quiet, RestOk;
    states, steps := QuietToRest(initial, s);
    QuietKept(initial, states, steps, orphans);
    KeptAtRest(initial, states[|steps|], orphans, false);
  }

  // ---------------------------------------------------------------- exactly when a start agrees

  /** A host with an address cannot agree under two CIDRs: the address has one row. */
  lemma TwoHomes(core: Core, keys: set<HostSpec>, status: seq<IPSpec>, k: HostSpec, l: HostSpec, ip: string)
    requires Consistent(core) && k in keys && l in keys && k != l && k.host == l.host
    requires ARecord(ip, k.host) in core.tables.records
    ensures !Agrees(core, keys, status)
  {
    hide Consistent;
    ConsistentMatched(core);
    RowsDistinct(core.tables);
  }

  /** Who owns what once the first n entries of a list are replayed into an unused store. */
  ghost predicate OwnerClaims(p: Pool, list: seq<IPSpec>, n: nat)
    requires n <= |list|
  {
    && (forall i :: 0 <= i < n && Claims(p.slots, list, i) ==>
          list[i].ip in p.owner && p.owner[list[i].ip] == list[i].host)
    && (forall ip :: ip in p.owner ==> exists i :: 0 <= i < n && Claims(p.slots, list, i) && list[i].ip == ip)
  }

  lemma ClaimStep(p: Pool, list: seq<IPSpec>, n: nat)
    requires DistinctSlots(p.slots) && n < |list| && list[n].ip != "" && OwnerClaims(p, list, n)
    ensures OwnerClaims(PoolHandle(p, ReplayReq(list[n])).0, list, n + 1)
    ensures PoolHandle(p, ReplayReq(list[n])).0.slots == p.slots
  {
    var e := list[n];
    if SlotOf(e) in p.slots {
      forall i | 0 <= i < n && Claims(p.slots, list, i) && list[i].ip == e.ip ensures SlotOf(list[i]) == SlotOf(e) {
        SlotUnique(p.slots, e.ip, list[i].cidr, e.cidr);
      }
      if !Claims(p.slots, list, n) {
        var h := FirstToName(p.slots, list, n);
        assert h < n && list[h].ip in p.owner;
      }
    }
  }

  lemma {:induction false} ReplayClaims(initial: Core, list: seq<IPSpec>, n: nat)
    requires Unused(initial) && n <= |list| && forall e :: e in list ==> e.ip != ""
    ensures var core := HandleAll(initial, Each(ReplayReq, list)[..n]).0;
      && Consistent(core) && Slots(core.tables.rows) == Slots(initial.tables.rows)
      && OwnerClaims(Abs(core.tables), list, n)
    decreases n
  {
    hide Handle, Consistent, HandleAll, PoolHandle, OwnerClaims;
    var reqs := Each(ReplayReq, list);
    if n == 0 {
      assert reqs[..0] == [];
      Restart.NothingHandled(initial);
      NoClaims(initial, list);
    } else {
      ReplayClaims(initial, list, n - 1);
      var core := HandleAll(initial, reqs[..n - 1]).0;
      HandleAllSnoc(initial, reqs, n - 1);
      HandleRefines(core, reqs[n - 1]);
      HandleKeepsSlots(core, reqs[n - 1]);
      ConsistentDistinct(core);
      AbsSlots(core.tables);
      assert list[n - 1] in list;
      ClaimStep(Abs(core.tables), list, n - 1);
    }
  }

  lemma NoClaims(initial: Core, list: seq<IPSpec>)
    requires Unused(initial)
    ensures Consistent(initial) && OwnerClaims(Abs(initial.tables), list, 0)
  {
    hide Consistent;
    assert Abs(initial.tables).owner == map[];
  }

  lemma OwnsAfter(core: Core, reqs: seq<Request>, h: string, ip: string)
    requires Consistent(core) && ip in OwnedBy(Abs(core.tables), h)
    requires forall r :: r in reqs ==> Spares(r, h)
    ensures Consistent(HandleAll(core, reqs).0) && ARecord(ip, h) in HandleAll(core, reqs).0.tables.records
  {
    hide HandleAll, Consistent, PoolHandleAll, Abs;
    HandleAllRefines(core, reqs);
    RunSpares(Abs(core.tables), reqs, h);
    ConsistentRecords(HandleAll(core, reqs).0);
  }

  /** A granted entry's address stays with its host through the CREATEs that follow. */
  lemma BootOwns(initial: Core, spec: seq<HostSpec>, status: seq<IPSpec>, k: HostSpec)
    requires Unused(initial) && Written(status) && k in Regained(Slots(initial.tables.rows), status)
    ensures var core := HandleAll(initial, Each(ReplayReq, status) + Each(CreateReq, spec)).0;
      Consistent(core) && exists ip :: ARecord(ip, k.host) in core.tables.records
  {
    hide HandleAll, Consistent, Abs, StatusMap, UniqueKeys, Claims;
    var slots, replays := Slots(initial.tables.rows), Each(ReplayReq, status);
    var i :| 0 <= i < |status| && KeyOf(status[i]) == k && Claims(slots, status, i);
    ReplayClaims(initial, status, |status|);
    assert replays[..|status|] == replays;
    var core := HandleAll(initial, replays).0;
    AbsSlots(core.tables);
    HandleAllConcat(initial, replays, Each(CreateReq, spec));
    OwnsAfter(core, Each(CreateReq, spec), k.host, status[i].ip);
  }

  /** Exactly when a start agrees at the next rest: no host has two CIDRs among the spec and
      the status entries that are granted again. */
  lemma BootAgreesIff(initial: Core, spec: seq<HostSpec>, status: seq<IPSpec>, states: seq<Sys>, steps: seq<Step>)
    requires Unused(initial) && Written(status) && Functional(SpecSet(spec))
    requires QuietRun(initial, states, steps) && states[0] == Boot(initial, spec, status) && Quiescent(states[|steps|])
    ensures var t := states[|steps|];
      Agrees(t.core, SpecSet(spec) + Orphans(initial, spec, status), t.status) <==> Unmoved(initial, spec, status)
  {
    hide Next, Quiet, Inv, Agrees, StatusMap, UniqueKeys, HandleAll, Claimed, Consistent;
    var t, orphans := states[|steps|], Orphans(initial, spec, status);
    var reqs := WorkedOff(initial, states, steps);
    if Unmoved(initial, spec, status) {
      BootInv(initial, spec, status, false);
      QuietKept(initial, states, steps, orphans);
      KeptAtRest(initial, t, orphans, false);
    } else {
      var granted := Regained(Slots(initial.tables.rows), status).Keys;
      var k, l :| k in granted + SpecSet(spec) && l in granted + SpecSet(spec) && k.host == l.host && k != l;
      var g := if k in granted then k else l;
      BootOwns(initial, spec, status, g);
      var ip :| ARecord(ip, g.host) in t.core.tables.records;
      TwoHomes(t.core, SpecSet(spec) + orphans, t.status, k, l, ip);
    }
  }

  // ---------------------------------------------------------------- exactly when an update agrees

  lemma OrphanSpared(was: seq<HostSpec>, cur: seq<HostSpec>, reqs: seq<Request>, orphans: set<HostSpec>, k: HostSpec)
    requires Emits(Updated(was, cur), reqs)
    requires k in orphans && SpecSet(was) !! orphans && Functional(SpecSet(was) + orphans)
    ensures forall r :: r in reqs ==> Spares(r, k.host)
  {
    var gone, come :| EmitsUpdate(was, cur, gone, come, reqs);
    var deletes, creates := Each(DeleteReq, gone), Each(CreateReq, come);
    forall r | r in reqs ensures Spares(r, k.host) {
      if r in deletes {
        var i :| 0 <= i < |deletes| && deletes[i] == r;
        assert gone[i] in gone && gone[i] in SpecSet(was);
      }
    }
  }

  lemma {:induction false} QueueWalk(keys: set<HostSpec>, queue: seq<Event>, spec: seq<HostSpec>,
                                     orphans: set<HostSpec>, reqs: seq<Request>)
    requires QueueOk(keys, queue, spec, orphans) && Functional(keys) && EmitsAll(queue, reqs)
    ensures OkWalk(keys, reqs, orphans)
    decreases |queue|
  {
    hide Functional, Emits, WalkKeys;
    if queue != [] {
      var was, cur := queue[0].was, queue[0].cur;
      var a, b :| Emits(queue[0], a) && EmitsAll(queue[1..], b) && reqs == a + b;
      OkUpdate(keys, was, cur, a, orphans);
      QueueWalk(AfterUpdate(keys, was, cur), queue[1..], spec, orphans, b);
      OkWalkConcat(keys, a, b, orphans);
    }
  }

  lemma {:induction false} WalkSpares(keys: set<HostSpec>, reqs: seq<Request>, orphans: set<HostSpec>, k: HostSpec)
    requires OkWalk(keys, reqs, orphans) && k in orphans && k in keys
    ensures forall r :: r in reqs ==> Spares(r, k.host)
    decreases |reqs|
  {
    if reqs != [] {
      WalkSpares(StepKeys(keys, reqs[0]), reqs[1..], orphans, k);
    }
  }

  lemma {:induction false} ReplayAll(slots: seq<Slot>, core: Core, keys: set<HostSpec>, b: Bindings,
                                     replays: seq<IPSpec>, orphans: set<HostSpec>)
    requires StoreOk(slots, core, keys, b, replays, orphans)
    ensures StoreOk(slots, HandleAll(core, Each(ReplayReq, replays)).0, keys, b, [], orphans)
    decreases |replays|
  {
    hide StoreOk, Handle;
    var reqs := Each(ReplayReq, replays);
    if replays != [] {
      ServeReplay(slots, core, keys, b, replays, orphans);
      ReplayAll(slots, Handle(core, reqs[0]).0, keys, b, replays[1..], orphans);
      assert reqs[1..] == Each(ReplayReq, replays[1..]);
    }
  }

  lemma TodoSplit(s: Sys, reqs: seq<Request>) returns (more: seq<Request>)
    requires EmitsAll(s.queue, reqs) && (Starting(s) ==> s.pending == [])
    ensures s.pending + reqs == TodoReqs(s) + more && EmitsAll(TodoQueue(s), more)
  {
    more := reqs;
    if Starting(s) {
      var a, c :| Emits(s.queue[0], a) && EmitsAll(s.queue[1..], c) && reqs == a + c;
      hide Emits, EmitsAll;
      more := c;
      assert [] + (a + c) == a + c;
    }
  }

  /** What is under way is the replays still to come, then a walk that spares the orphans. */
  lemma PlanReqs(initial: Core, s: Sys, keys: set<HostSpec>, b: Bindings, replays: seq<IPSpec>,
                 orphans: set<HostSpec>, reqs: seq<Request>) returns (rest: seq<Request>)
    requires SysInv(initial, s, keys, b, replays, orphans, false) && EmitsAll(s.queue, reqs)
    ensures s.pending + reqs == Each(ReplayReq, replays) + rest && OkWalk(keys, rest, orphans)
  {
    hide StoreOk, ViewOk, Functional, WalkKeys, OkWalk, QueueOk, EmitsAll, TodoReqs, TodoQueue, Starting, Each;
    var todo := TodoReqs(s);
    var more := TodoSplit(s, reqs);
    var tail := todo[|replays|..];
    assert todo == todo[..|replays|] + tail;
    WalkFunctional(keys, tail, orphans);
    QueueWalk(WalkKeys(keys, tail), TodoQueue(s), s.spec, orphans, more);
    OkWalkConcat(keys, tail, more, orphans);
    rest := tail + more;
    assert Each(ReplayReq, replays) + tail + more == Each(ReplayReq, replays) + rest;
  }

  /** An orphan's host keeps its address through all that is under way. */
  lemma OrphanStays(initial: Core, s: Sys, orphans: set<HostSpec>, reqs: seq<Request>, k: HostSpec)
    returns (ip: string)
    requires Inv(initial, s, orphans, false) && EmitsAll(s.queue, reqs) && k in orphans
    ensures var core := HandleAll(s.core, s.pending + reqs).0;
      Consistent(core) && ip in OwnedBy(Abs(core.tables), k.host)
  {
    hide HandleAll, PlanOk, ViewOk, EmitsAll, OkWalk, Consistent, OwnerIs, ValidBindings, Abs, Due;
    var slots := Slots(initial.tables.rows);
    var keys, b, replays :| SysInv(initial, s, keys, b, replays, orphans, false);
    var rest := PlanReqs(initial, s, keys, b, replays, orphans, reqs);
    ReplayAll(slots, s.core, keys, b, replays, orphans);
    var mid := HandleAll(s.core, Each(ReplayReq, replays)).0;
    ip := b[k];
    OrphanOwns(slots, mid, keys, orphans, b, k);
    WalkSpares(keys, rest, orphans, k);
    HandleAllConcat(s.core, Each(ReplayReq, replays), rest);
    OwnsAfter(mid, rest, k.host, ip);
    RecordOwner(HandleAll(mid, rest).0, ip, k.host);
  }

  lemma RecordOwner(core: Core, ip: string, h: string)
    requires Consistent(core) && ARecord(ip, h) in core.tables.records
    ensures ip in OwnedBy(Abs(core.tables), h)
  {
    hide Consistent, Abs;
    ConsistentRecords(core);
  }

  lemma InvSpec(initial: Core, s: Sys, orphans: set<HostSpec>)
    requires Inv(initial, s, orphans, false)
    ensures s.live && SpecSet(s.spec) !! orphans && Functional(SpecSet(s.spec) + orphans) && UniqueKeys(s.status)
  {
    hide PlanOk, StoreOk, ViewOk, Functional;
    var keys, b, replays :| SysInv(initial, s, keys, b, replays, orphans, false);
    EchoFunctional(s, keys, replays, orphans);
    ViewUnique(s.status, s.inflight, b, KeySet(replays) - b.Keys);
  }

  /** Exactly when an update agrees at the next rest, whatever was under way before it, with
      the spec's hosts and the orphans not yet taken over: no orphan's host is asked for
      under another CIDR. */
  lemma UpdateAgreesIff(initial: Core, s: Sys, orphans: set<HostSpec>, newSpec: seq<HostSpec>,
                        states: seq<Sys>, steps: seq<Step>)
    requires Unused(initial) && Inv(initial, s, orphans, false) && Functional(SpecSet(newSpec))
    requires QuietRun(initial, states, steps) && Next(initial, s, UserUpdate(newSpec), states[0])
    requires Quiescent(states[|steps|])
    ensures var t := states[|steps|];
      Agrees(t.core, SpecSet(newSpec) + orphans, t.status) <==> Functional(SpecSet(newSpec) + orphans)
  {
    hide Quiet, Inv, Agrees, StatusMap, UniqueKeys, HandleAll, Consistent, Emits, EmitsAll, Handle, Internal;
    var t, left := states[|steps|], orphans - SpecSet(newSpec);
    InvSpec(initial, s, orphans);
    QuietInternal(initial, states, steps);
    var reqs := Outcome(initial, states, steps, true);
    assert SpecSet(newSpec) + left == SpecSet(newSpec) + orphans;
    if Functional(SpecSet(newSpec) + orphans) {
      StepUpdate(initial, s, states[0], newSpec, orphans, false);
      QuietKept(initial, states, steps, left);
      KeptAtRest(initial, t, left, false);
    } else {
      var k, l :| k in SpecSet(newSpec) + orphans && l in SpecSet(newSpec) + orphans && k.host == l.host && k != l;
      var o := if k in orphans then k else l;
      var a, b := EmitsSplit(s.queue, Updated(s.spec, newSpec), reqs);
      var ip := OrphanStays(initial, s, orphans, a, o);
      OrphanSpared(s.spec, newSpec, b, orphans, o);
      assert s.pending + reqs == s.pending + a + b;
      HandleAllConcat(s.core, s.pending + a, b);
      OwnsAfter(HandleAll(s.core, s.pending + a).0, b, o.host, ip);
      TwoHomes(t.core, SpecSet(newSpec) + orphans, t.status, k, l, ip);
    }
  }

  lemma OrphanOwns(slots: seq<Slot>, core: Core, keys: set<HostSpec>, orphans: set<HostSpec>, b: Bindings, k: HostSpec)
    requires StoreOk(slots, core, keys, b, [], orphans) && k in orphans
    ensures Consistent(core) && k in b && k in keys && b[k] in OwnedBy(Abs(core.tables), k.host)
  {
    hide Consistent, ValidBindings;
    assert k !in KeySet([]);
  }

  // ---------------------------------------------------------------- exactly when a re-creation agrees

  lemma {:induction false} PutsOver(m: Bindings, rs: seq<Response>)
    requires forall r :: r in rs ==> r.req.op == Create && r.ok
    ensures AppliedMapAll(m, rs) == m + AppliedMapAll(map[], rs)
    decreases |rs|
  {
    if rs != [] {
      var n := |rs| - 1;
      assert rs[n] in rs && forall r :: r in rs[..n] ==> r in rs;
      PutsOver(m, rs[..n]);
    }
  }

  lemma {:induction false} PlainAnswersOk(core: Core, reqs: seq<Request>)
    requires forall r :: r in reqs ==> PlainCreate(r)
    ensures forall r :: r in HandleAll(core, reqs).1 ==> r.req.op == Create && r.ok
    decreases |reqs|
  {
    hide AllocateAt, Manager.NextAddress, Manager.RecordCreated, Manager.RecordDeleted;
    if reqs != [] {
      assert reqs[0] in reqs && forall r :: r in reqs[1..] ==> r in reqs;
      PlainAnswersOk(Handle(core, reqs[0]).0, reqs[1..]);
    }
  }

  /** What a fresh start binds, read off its requests. */
  lemma FreshBindings(initial: Core, added: seq<HostSpec>)
    requires Unused(initial) && Functional(SpecSet(added))
    ensures var (core, rs) := HandleAll(initial, Each(CreateReq, added));
      StoreOk(Slots(initial.tables.rows), core, SpecSet(added), AppliedMapAll(map[], rs), [], {})
  {
    hide Next, Quiet, Inv, StatusMap, UniqueKeys, HandleAll, StoreOk, Functional, Unmoved, ValidBindings, Unused,
         AppliedMapAll, Orphans;
    EmptyStatus();
    FreshStart(initial, added);
    BootInv(initial, added, [], false);
    var states, steps := QuietToRest(initial, Boot(initial, added, []));
    QuietKept(initial, states, steps, {});
    var reqs := WorkedOff(initial, states, steps);
    KeptInv(initial, states[|steps|], {}, false);
    var b := RestBindings(initial, states[|steps|], {});
    assert Each(ReplayReq, []) + Each(CreateReq, added) == Each(CreateReq, added);
    assert SpecSet(added) + {} == SpecSet(added);
  }

  lemma EmptyStatus()
    ensures StatusMap([]) == map[] && UniqueKeys([])
  {
  }

  /** Exactly when a resource created again, at whatever stage of its teardown, agrees at the
      next rest: the fresh start grants every key for which the answers still to come from
      before the deletion leave an entry. */
  lemma ReaddAgreesIff(initial: Core, s: Sys, added: seq<HostSpec>, states: seq<Sys>, steps: seq<Step>)
    returns (reqs: seq<Request>)
    requires Unused(initial) && Leaving(initial, s) && Functional(SpecSet(added))
    requires QuietRun(initial, states, steps) && Next(initial, s, UserAdd(added), states[0])
    requires Quiescent(states[|steps|])
    ensures EmitsAll(s.queue, reqs)
    ensures var t := states[|steps|];
      var stale := AppliedMapAll(map[], s.inflight + HandleAll(s.core, s.pending + reqs).1);
      Agrees(t.core, SpecSet(added), t.status)
      <==> stale.Keys <= AppliedMapAll(map[], HandleAll(initial, Each(CreateReq, added)).1).Keys
  {
    hide Quiet, Internal, Inv, Agrees, StatusMap, UniqueKeys, HandleAll, Consistent, Emits, EmitsAll, Handle,
         StoreOk, Functional, AppliedMapAll, AppliedMap;
    var t, creates := states[|steps|], Each(CreateReq, added);
    EmptyStatus();
    QuietInternal(initial, states, steps);
    var all := Outcome(initial, states, steps, true);
    var creating: seq<Request>;
    reqs, creating := EmitsSplit(s.queue, Added(added, []), all);
    FreshEmits(added, creating);
    assert s.pending + all == s.pending + reqs + creates;
    HandleAllConcat(s.core, s.pending + reqs, creates);
    var rs, rs1 := HandleAll(s.core, s.pending + reqs).1, HandleAll(initial, creates).1;
    assert s.inflight + (rs + rs1) == s.inflight + rs + rs1;
    AppliedConcat(map[], s.inflight + rs, rs1);
    var stale, b := AppliedMapAll(map[], s.inflight + rs), AppliedMapAll(map[], rs1);
    PlainAnswersOk(initial, creates);
    PutsOver(stale, rs1);
    FreshBindings(initial, added);
    BoundAgreesIff(Slots(initial.tables.rows), t.core, SpecSet(added), b, {}, t.status);
    assert stale + b == b <==> stale.Keys <= b.Keys by {
      if stale + b == b { assert forall k :: k in stale ==> k in stale + b; }
    }
  }

  lemma FreshEmits(added: seq<HostSpec>, reqs: seq<Request>)
    requires Emits(Added(added, []), reqs)
    ensures reqs == Each(CreateReq, added)
  {
    assert Each(ReplayReq, []) + Each(CreateReq, added) == Each(CreateReq, added);
  }

  // ---------------------------------------------------------------- a restart at rest

  lemma BoundList(slots: seq<Slot>, b: Bindings, keys: set<HostSpec>, list: seq<IPSpec>)
    requires UniqueKeys(list) && b == StatusMap(list) && ValidBindings(slots, b) && b.Keys <= keys && Functional(keys)
    ensures Restart.Replayable(slots, list)
    ensures forall e, k :: e in list && k in keys && e.host == k.host ==> KeyOf(e) == k
    ensures forall e, f :: e in list && f in list && e.host == f.host ==> e == f
  {
    hide StatusMap;
    StatusMapIs(list);
    forall e, f | e in list && f in list && e.host == f.host ensures e == f { assert KeyOf(e) == KeyOf(f); }
    forall i, j | 0 <= i < j < |list| ensures list[i].ip != list[j].ip {
      assert list[i] in list && list[j] in list && KeyOf(list[i]) != KeyOf(list[j]);
    }
  }

  lemma AgreedRecords(core: Core, keys: set<HostSpec>, list: seq<IPSpec>)
    requires Agrees(core, keys, list) && forall e :: e in list ==> KeyOf(e) in keys
    ensures Restart.ListsBindings(core, list)
  {
    var records, listed := core.tables.records, Each(Restart.RecordOf, list);
    forall r: ARecord ensures r in records <==> r in listed {
      assert r == ARecord(r.ip, r.host);
      if r in records {
        var k :| k in keys && k.host == r.host;
        var e := IPSpec(k.host, k.cidr, r.ip);
        assert e in list;
        var i :| 0 <= i < |list| && list[i] == e;
        assert listed[i] == r;
      }
      if r in listed {
        var i :| 0 <= i < |listed| && listed[i] == r;
        var e := list[i];
        assert e == IPSpec(e.host, e.cidr, e.ip) && e in list && KeyOf(e) == HostSpec(e.host, e.cidr);
      }
    }
  }

  lemma RestReplayable(initial: Core, s: Sys, orphans: set<HostSpec>)
    requires Unused(initial) && Inv(initial, s, orphans, false) && Quiescent(s)
    ensures Consistent(s.core) && Slots(s.core.tables.rows) == Slots(initial.tables.rows) && UniqueKeys(s.status)
    ensures Restart.Replayable(Slots(initial.tables.rows), s.status) && Restart.ListsBindings(s.core, s.status)
    ensures forall e, f :: e in s.status && f in s.status && e.host == f.host ==> e == f
    ensures forall k, e :: k in SpecSet(s.spec) && e in s.status && k.host == e.host ==> KeyOf(e) == k
  {
    hide Inv, Consistent, StatusMap, OwnerIs, UniqueKeys, Agrees, ValidBindings, Functional, Restart.Replayable,
         Restart.ListsBindings;
    var b := RestBindings(initial, s, orphans);
    var keys := SpecSet(s.spec) + orphans;
    RestAgrees(initial, s, orphans);
    StatusMapIs(s.status);
    BoundList(Slots(initial.tables.rows), b, keys, s.status);
    AgreedRecords(s.core, keys, s.status);
  }

  /** A restart of a system at rest rebuilds the same store and the same status exactly when
      no host of the spec that was refused an address could be given one now. */
  lemma RestartInvisibleIff(initial: Core, s: Sys, orphans: set<HostSpec>, states: seq<Sys>, steps: seq<Step>)
    requires Unused(initial) && Inv(initial, s, orphans, false) && Quiescent(s)
    requires QuietRun(initial, states, steps) && states[0] == Boot(initial, s.spec, s.status)
    requires Quiescent(states[|steps|])
    ensures var t := states[|steps|];
      Restart.Same(t.core.tables, s.core.tables) && StatusMap(t.status) == StatusMap(s.status)
      <==> Restart.NothingToRetry(Abs(s.core.tables), s.status, s.spec)
  {
    hide Inv, Next, Quiet, Consistent, HandleAll, Restart.Replayable, Restart.ListsBindings, Restart.Same,
         Restart.NothingToRetry, Restart.Echoed, StatusMap, UniqueKeys, AppliedMapAll, AppliedAll, Abs;
    RestReplayable(initial, s, orphans);
    var reqs := WorkedOff(initial, states, steps);
    Restart.RestartTransparent(s.core, initial, s.status, s.spec);
    AppliedAllRefines(s.status, HandleAll(initial, reqs).1);
  }
}
