/** Runs outside the hypotheses of the end-to-end results, each possible for every pool that
    has an address at all: what goes wrong when one hypothesis is dropped. */
module Limits {
  import opened Wrappers
  import opened Store
  import opened Provider
  import opened Controller
  import opened Pool
  import opened Laws
  import opened Orchestrator
  import opened Status
  import opened System
  import opened Agreement
  import opened Lifecycle
  import Outcomes

  lemma Extend(initial: Core, states: seq<Sys>, steps: seq<Step>, step: Step, t: Sys)
    returns (states1: seq<Sys>, steps1: seq<Step>)
    requires IsRun(initial, states, steps) && Next(initial, states[|steps|], step, t)
    ensures states1 == states + [t] && steps1 == steps + [step] && IsRun(initial, states1, steps1)
  {
    hide Next;
    states1, steps1 := states + [t], steps + [step];
    forall i | 0 <= i < |steps1| ensures Next(initial, states1[i], steps1[i], states1[i + 1]) {
      if i < |steps| { assert Next(initial, states[i], steps[i], states[i + 1]); }
    }
  }

  lemma Start(initial: Core, s: Sys) returns (states: seq<Sys>, steps: seq<Step>)
    ensures states == [s] && steps == [] && IsRun(initial, states, steps)
  {
    states, steps := [s], [];
  }

  // One lemma per kind of step: what the state after it is.

  lemma Works(initial: Core, states: seq<Sys>, steps: seq<Step>, s: Sys, reqs: seq<Request>, t: Sys)
    returns (states1: seq<Sys>, steps1: seq<Step>)
    requires IsRun(initial, states, steps) && states[|steps|] == s && s.queue != [] && Emits(s.queue[0], reqs)
    requires t == s.(queue := s.queue[1..], pending := s.pending + reqs)
    ensures states1 == states + [t] && steps1 == steps + [Work(reqs)] && IsRun(initial, states1, steps1)
  {
    states1, steps1 := Extend(initial, states, steps, Work(reqs), t);
  }

  lemma Serves(initial: Core, states: seq<Sys>, steps: seq<Step>, s: Sys, t: Sys)
    returns (states1: seq<Sys>, steps1: seq<Step>)
    requires IsRun(initial, states, steps) && states[|steps|] == s && s.pending != []
    requires var (core1, r) := Handle(s.core, s.pending[0]);
      t == s.(core := core1, pending := s.pending[1..], inflight := s.inflight + Sent(r))
    ensures states1 == states + [t] && steps1 == steps + [Serve] && IsRun(initial, states1, steps1)
  {
    hide Handle;
    states1, steps1 := Extend(initial, states, steps, Serve, t);
  }

  lemma Delivers(initial: Core, states: seq<Sys>, steps: seq<Step>, s: Sys, i: nat, notify: bool, t: Sys)
    returns (states1: seq<Sys>, steps1: seq<Step>)
    requires IsRun(initial, states, steps) && states[|steps|] == s && i < |s.inflight|
    requires var status1 := if s.live then Applied(s.status, s.inflight[i]) else s.status;
      && (status1 != s.status ==> notify) && (notify ==> s.live)
      && t == s.(status := status1, inflight := DropAt(s.inflight, i),
                 queue := if notify then s.queue + [Updated(s.spec, s.spec)] else s.queue)
    ensures states1 == states + [t] && steps1 == steps + [Deliver(i, notify)] && IsRun(initial, states1, steps1)
  {
    hide Applied;
    states1, steps1 := Extend(initial, states, steps, Deliver(i, notify), t);
  }

  lemma Deletes(initial: Core, states: seq<Sys>, steps: seq<Step>, s: Sys, t: Sys)
    returns (states1: seq<Sys>, steps1: seq<Step>)
    requires IsRun(initial, states, steps) && states[|steps|] == s && s.live
    requires t == s.(live := false, spec := [], status := [], queue := s.queue + [Deleted(s.status)])
    ensures states1 == states + [t] && steps1 == steps + [UserDelete] && IsRun(initial, states1, steps1)
  {
    states1, steps1 := Extend(initial, states, steps, UserDelete, t);
  }

  lemma Join(initial: Core, a: seq<Sys>, steps: seq<Step>, step: Step, b: seq<Sys>, more: seq<Step>)
    requires IsRun(initial, a, steps) && IsRun(initial, b, more) && Next(initial, a[|steps|], step, b[0])
    ensures IsRun(initial, a + b, steps + [step] + more)
  {
    hide Next;
    var states, all := a + b, steps + [step] + more;
    forall i | 0 <= i < |all| ensures Next(initial, states[i], all[i], states[i + 1]) {
      if i < |steps| {
        assert Next(initial, a[i], steps[i], a[i + 1]);
      } else if i > |steps| {
        var j := i - |steps| - 1;
        assert Next(initial, b[j], more[j], b[j + 1]);
      }
    }
  }

  lemma EmitsFirst(k: HostSpec)
    ensures Emits(Added([k], []), [CreateReq(k)])
  {
    assert Each(ReplayReq, []) + Each(CreateReq, [k]) == [CreateReq(k)];
  }

  lemma EmitsAgain(l: HostSpec, e: IPSpec)
    ensures Emits(Added([l], [e]), [ReplayReq(e), CreateReq(l)])
  {
    assert Each(ReplayReq, [e]) + Each(CreateReq, [l]) == [ReplayReq(e), CreateReq(l)];
  }

  lemma EmitsEcho(spec: seq<HostSpec>)
    ensures Emits(Updated(spec, spec), [])
  {
    assert Each(DeleteReq, []) + Each(CreateReq, []) == [];
    assert EmitsUpdate(spec, spec, [], [], []);
  }

  lemma EmitsRemoval(k: HostSpec)
    ensures Emits(Updated([k], []), [DeleteReq(k)])
  {
    assert Each(DeleteReq, [k]) + Each(CreateReq, []) == [DeleteReq(k)];
    assert EmitsUpdate([k], [], [k], [], [DeleteReq(k)]);
  }

  /** The request is answered with the address and changes nothing. */
  predicate Answers(core: Core, req: Request, ip: string) {
    Handle(core, req) == (core, Some(Response(req, ip, true)))
  }

  /** The host owns just this address, so every plain CREATE for it answers with it. */
  ghost predicate Sticks(core: Core, h: string, ip: string) {
    && (forall c :: Answers(core, CreateReq(HostSpec(h, c)), ip))
    && ARecord(ip, h) in core.tables.records
  }

  lemma OwnsOne(core: Core, h: string, ip: string)
    requires Consistent(core) && OwnedBy(Abs(core.tables), h) == {ip}
    ensures Sticks(core, h, ip)
  {
    hide Handle, Consistent, Matched, Abs;
    ConsistentMatched(core);
    LeastIpIsLeast(core.tables, h);
    LeastOfOne(ip);
    forall c ensures Answers(core, CreateReq(HostSpec(h, c)), ip) {
      AnswersHeld(core, CreateReq(HostSpec(h, c)));
    }
  }

  /** The first CREATE into a CIDR with a row is granted. */
  lemma FirstGrant(initial: Core, slot: Slot, h: string) returns (ip: string)
    requires Unused(initial) && slot in Slots(initial.tables.rows)
    ensures var (core1, r) := Handle(initial, CreateReq(HostSpec(h, slot.cidr)));
      && r == Some(Response(CreateReq(HostSpec(h, slot.cidr)), ip, true)) && Sticks(core1, h, ip)
    ensures Slot(ip, slot.cidr) in Slots(initial.tables.rows)
  {
    hide Handle, Consistent;
    var req, p := CreateReq(HostSpec(h, slot.cidr)), Abs(initial.tables);
    HandleRefines(initial, req);
    AbsSlots(initial.tables);
    assert p.owner == map[];
    FreeIpsIn(p, slot.cidr, slot.ip);
    NextIpOpen(p, slot.cidr);
    ip := NextIp(p, slot.cidr).value;
    var core1 := Handle(initial, req).0;
    assert Abs(core1.tables).owner == map[ip := h];
    assert OwnedBy(Abs(core1.tables), h) == {ip};
    OwnsOne(core1, h, ip);
  }

  lemma ReplayGrant(initial: Core, e: IPSpec)
    requires Unused(initial) && SlotOf(e) in Slots(initial.tables.rows)
    ensures var (core1, r) := Handle(initial, ReplayReq(e));
      r == Some(Response(ReplayReq(e), e.ip, true)) && Sticks(core1, e.host, e.ip)
  {
    hide Handle, Consistent;
    var p := Abs(initial.tables);
    HandleRefines(initial, ReplayReq(e));
    AbsSlots(initial.tables);
    SlotNotEmpty(initial, SlotOf(e));
    assert p.owner == map[];
    var core1 := Handle(initial, ReplayReq(e)).0;
    assert Abs(core1.tables).owner == map[e.ip := e.host];
    assert OwnedBy(Abs(core1.tables), e.host) == {e.ip};
    OwnsOne(core1, e.host, e.ip);
  }

  /** From a start with one host to rest: it holds an address of its CIDR. */
  lemma OneHost(initial: Core, slot: Slot, h: string)
    returns (states: seq<Sys>, steps: seq<Step>, ip: string)
    requires Unused(initial) && slot in Slots(initial.tables.rows)
    ensures var k := HostSpec(h, slot.cidr);
      && IsRun(initial, states, steps) && steps == [Work([CreateReq(k)]), Serve, Deliver(0, true), Work([])]
      && states[0] == Boot(initial, [k], [])
      && states[4] == Sys(Handle(initial, CreateReq(k)).0, true, [k], [IPSpec(h, slot.cidr, ip)], [], [], [])
      && Slot(ip, slot.cidr) in Slots(initial.tables.rows)
  {
    hide IsRun, Next, Handle, Emits, Consistent, Applied;
    var k := HostSpec(h, slot.cidr);
    ip := FirstGrant(initial, slot, h);
    var (core1, r) := Handle(initial, CreateReq(k));
    EmitsFirst(k);
    LateEntry(k, ip);
    EmitsEcho([k]);
    var s0 := Boot(initial, [k], []);
    var s1 := s0.(queue := [], pending := [CreateReq(k)]);
    var s2 := s1.(core := core1, pending := [], inflight := [r.value]);
    var s3 := s2.(status := [IPSpec(h, slot.cidr, ip)], inflight := [], queue := [Updated([k], [k])]);
    states, steps := Start(initial, s0);
    states, steps := Works(initial, states, steps, s0, [CreateReq(k)], s1);
    states, steps := Serves(initial, states, steps, s1, s2);
    states, steps := Delivers(initial, states, steps, s2, 0, true, s3);
    states, steps := Works(initial, states, steps, s3, [], s3.(queue := []));
  }

  /** A start whose status shows the host under another CIDR than the spec: the replay. */
  lemma Replaying(initial: Core, e: IPSpec, l: HostSpec) returns (states: seq<Sys>, steps: seq<Step>)
    requires Unused(initial) && SlotOf(e) in Slots(initial.tables.rows)
    ensures IsRun(initial, states, steps) && steps == [Work([ReplayReq(e), CreateReq(l)]), Serve]
    ensures states[0] == Boot(initial, [l], [e])
    ensures states[2] == Sys(Handle(initial, ReplayReq(e)).0, true, [l], [e], [], [CreateReq(l)],
                             [Response(ReplayReq(e), e.ip, true)])
  {
    hide IsRun, Next, Handle, Emits, Consistent;
    ReplayGrant(initial, e);
    EmitsAgain(l, e);
    var (core1, r) := Handle(initial, ReplayReq(e));
    var s0 := Boot(initial, [l], [e]);
    var s1 := s0.(queue := [], pending := [ReplayReq(e), CreateReq(l)]);
    var s2 := s1.(core := core1, pending := [CreateReq(l)], inflight := [r.value]);
    states, steps := Start(initial, s0);
    states, steps := Works(initial, states, steps, s0, [ReplayReq(e), CreateReq(l)], s1);
    states, steps := Serves(initial, states, steps, s1, s2);
  }

  /** ... and the answers: the second one adds an entry. */
  lemma SecondHome(initial: Core, core: Core, e: IPSpec, other: string) returns (states: seq<Sys>, steps: seq<Step>)
    requires other != e.cidr
    ensures var l := HostSpec(e.host, other);
      && IsRun(initial, states, steps) && steps == [Deliver(0, false), Deliver(0, true), Work([])]
      && states[0] == Sys(core, true, [l], [e], [], [],
                          [Response(ReplayReq(e), e.ip, true), Response(CreateReq(l), e.ip, true)])
      && states[3] == Sys(core, true, [l], [e, IPSpec(e.host, other, e.ip)], [], [], [])
  {
    hide IsRun, Next, Handle, Emits, Applied;
    var l := HostSpec(e.host, other);
    EmitsEcho([l]);
    SecondEntry(e, other);
    var r, r2 := Response(ReplayReq(e), e.ip, true), Response(CreateReq(l), e.ip, true);
    var s0 := Sys(core, true, [l], [e], [], [], [r, r2]);
    var s1 := s0.(inflight := [r2]);
    var s2 := s1.(status := [e, IPSpec(e.host, other, e.ip)], inflight := [], queue := [Updated([l], [l])]);
    states, steps := Start(initial, s0);
    states, steps := Delivers(initial, states, steps, s0, 0, false, s1);
    states, steps := Delivers(initial, states, steps, s1, 0, true, s2);
    states, steps := Works(initial, states, steps, s2, [], s2.(queue := []));
  }

  /** A restart that catches a host between two CIDRs. At rest the host holds an address of the
      first; the user moves it to the second; the controller restarts before the move reaches
      the status. The replay is granted, the CREATE for the second CIDR is answered with the
      same address, and at rest the status shows it under both. */
  lemma MidMoveRestart(initial: Core, slot: Slot, h: string, other: string)
    returns (states: seq<Sys>, steps: seq<Step>, ip: string)
    requires Unused(initial) && slot in Slots(initial.tables.rows) && other != slot.cidr
    ensures IsRun(initial, states, steps) && |steps| == 12 && states[0] == Boot(initial, [HostSpec(h, slot.cidr)], [])
    ensures steps[4] == UserUpdate([HostSpec(h, other)]) && steps[5] == Restart
    ensures forall i :: 0 <= i < 12 && i != 4 && i != 5 ==>
              steps[i].Work? || steps[i].Serve? || (steps[i].Deliver? && steps[i].i == 0)
    ensures Slot(ip, slot.cidr) in Slots(initial.tables.rows)
    ensures Quiescent(states[4]) && states[4].status == [IPSpec(h, slot.cidr, ip)]
    ensures var t := states[12];
      && Quiescent(t) && t.live && t.spec == [HostSpec(h, other)]
      && t.status == [IPSpec(h, slot.cidr, ip), IPSpec(h, other, ip)]
      && !Agrees(t.core, {HostSpec(h, slot.cidr), HostSpec(h, other)}, t.status)
  {
    hide Handle, Emits, Consistent, Applied, Quiet, Agrees;
    var k, l := HostSpec(h, slot.cidr), HostSpec(h, other);
    states, steps, ip := OneHost(initial, slot, h);
    var e := IPSpec(h, slot.cidr, ip);
    ReplayGrant(initial, e);
    var core1 := Handle(initial, ReplayReq(e)).0;
    assert Answers(core1, CreateReq(l), ip);
    var a, replay := Replaying(initial, e, l);
    var b, more := SecondHome(initial, core1, e, other);
    var t := states[4].(spec := [l], queue := [Updated([k], [l])]);
    states, steps := Extend(initial, states, steps, UserUpdate([l]), t);
    Join(initial, states, steps, Restart, a, replay);
    Join(initial, states + a, steps + [Restart] + replay, Serve, b, more);
    states, steps := states + a + b, steps + [Restart] + replay + [Serve] + more;
    HandleRefines(initial, ReplayReq(e));
    Outcomes.TwoHomes(states[12].core, {k, l}, states[12].status, k, l, ip);
  }

  lemma SecondEntry(e: IPSpec, other: string)
    requires other != e.cidr
    ensures Applied([e], Response(ReplayReq(e), e.ip, true)) == [e]
    ensures Applied([e], Response(CreateReq(HostSpec(e.host, other)), e.ip, true)) == [e, IPSpec(e.host, other, e.ip)]
  {
    assert Matches([e][0], KeyOf(e));
  }

  lemma Leak(initial: Core, slot: Slot, h: string) returns (states: seq<Sys>, steps: seq<Step>, ip: string)
    requires Unused(initial) && slot in Slots(initial.tables.rows)
    ensures var k := HostSpec(h, slot.cidr);
      && IsRun(initial, states, steps) && states[0] == Boot(initial, [k], [])
      && steps == [Work([CreateReq(k)]), UserDelete, Serve, Deliver(0, false), Work([])]
      && states[5] == Sys(Handle(initial, CreateReq(k)).0, false, [], [], [], [], [])
    ensures Slot(ip, slot.cidr) in Slots(initial.tables.rows) && Sticks(states[5].core, h, ip)
  {
    hide IsRun, Next, Handle, Emits, Consistent, Sticks, Applied;
    var k := HostSpec(h, slot.cidr);
    ip := FirstGrant(initial, slot, h);
    var (core1, r) := Handle(initial, CreateReq(k));
    EmitsFirst(k);
    EmitsNone();
    var s0 := Boot(initial, [k], []);
    var s1 := s0.(queue := [], pending := [CreateReq(k)]);
    var s2 := s1.(live := false, spec := [], queue := [Deleted([])]);
    assert s1.queue + [Deleted(s1.status)] == s2.queue;
    var s3 := s2.(core := core1, pending := [], inflight := [r.value]);
    var s4 := s3.(inflight := []);
    states, steps := Start(initial, s0);
    states, steps := Works(initial, states, steps, s0, [CreateReq(k)], s1);
    states, steps := Deletes(initial, states, steps, s1, s2);
    states, steps := Serves(initial, states, steps, s2, s3);
    states, steps := Delivers(initial, states, steps, s3, 0, false, s4);
    states, steps := Works(initial, states, steps, s4, [], s4.(queue := []));
  }

  /** A start into a store where the host already owns an address, brought to rest. */
  lemma StuckStart(initial: Core, core: Core, l: HostSpec, ip: string) returns (states: seq<Sys>, steps: seq<Step>)
    requires Answers(core, CreateReq(l), ip)
    ensures IsRun(initial, states, steps) && states[0] == Boot(core, [l], [])
    ensures steps == [Work([CreateReq(l)]), Serve, Deliver(0, true), Work([])]
    ensures states[4] == Sys(core, true, [l], [IPSpec(l.host, l.cidr, ip)], [], [], [])
  {
    hide IsRun, Next, Handle, Emits, Applied;
    EmitsFirst(l);
    LateEntry(l, ip);
    EmitsEcho([l]);
    var s0 := Boot(core, [l], []);
    var s1 := s0.(queue := [], pending := [CreateReq(l)]);
    var s2 := s1.(pending := [], inflight := [Response(CreateReq(l), ip, true)]);
    var s3 := s2.(inflight := [], status := [IPSpec(l.host, l.cidr, ip)], queue := [Updated([l], [l])]);
    states, steps := Start(initial, s0);
    states, steps := Works(initial, states, steps, s0, [CreateReq(l)], s1);
    states, steps := Serves(initial, states, steps, s1, s2);
    states, steps := Delivers(initial, states, steps, s2, 0, true, s3);
    states, steps := Works(initial, states, steps, s3, [], s3.(queue := []));
  }

  /** Deleting the resource before its CREATE is served: the copy of the status the teardown
      goes by is empty, so the address stays taken with the resource gone; created again with
      the host in another CIDR, the resource shows it there. */
  lemma EarlyDelete(initial: Core, slot: Slot, h: string, other: string)
    returns (states: seq<Sys>, steps: seq<Step>, ip: string)
    requires Unused(initial) && slot in Slots(initial.tables.rows) && other != slot.cidr
    ensures IsRun(initial, states, steps) && |steps| == 10 && states[0] == Boot(initial, [HostSpec(h, slot.cidr)], [])
    ensures steps[1] == UserDelete && steps[5] == UserAdd([HostSpec(h, other)])
    ensures forall i :: 0 <= i < 10 && i != 1 && i != 5 ==>
              steps[i].Work? || steps[i].Serve? || (steps[i].Deliver? && steps[i].i == 0)
    ensures Slot(ip, slot.cidr) in Slots(initial.tables.rows)
    ensures Quiescent(states[5]) && !states[5].live && ARecord(ip, h) in states[5].core.tables.records
    ensures Quiescent(states[10]) && states[10].live && states[10].status == [IPSpec(h, other, ip)]
  {
    hide Handle, Emits, Consistent;
    var l := HostSpec(h, other);
    states, steps, ip := Leak(initial, slot, h);
    assert Answers(states[5].core, CreateReq(l), ip);
    var b, more := StuckStart(initial, states[5].core, l, ip);
    assert states[5].queue + [Added([l], [])] == b[0].queue;
    Join(initial, states, steps, UserAdd([l]), b, more);
    states, steps := states + b, steps + [UserAdd([l])] + more;
  }

  lemma EmitsNone()
    ensures Emits(Deleted([]), [])
  {
    assert Each(TeardownReq, []) == [];
  }

  /** The first steps of a start with one host, up to its CREATE's answer in flight. */
  lemma Answered(initial: Core, slot: Slot, h: string) returns (states: seq<Sys>, steps: seq<Step>, ip: string)
    requires Unused(initial) && slot in Slots(initial.tables.rows)
    ensures var k := HostSpec(h, slot.cidr);
      && IsRun(initial, states, steps) && steps == [Work([CreateReq(k)]), Serve]
      && states[0] == Boot(initial, [k], [])
      && states[2] == Sys(Handle(initial, CreateReq(k)).0, true, [k], [], [], [], [Response(CreateReq(k), ip, true)])
      && Handle(initial, CreateReq(k)).1 == Some(Response(CreateReq(k), ip, true))
  {
    hide IsRun, Next, Handle, Emits, Consistent;
    var k := HostSpec(h, slot.cidr);
    ip := FirstGrant(initial, slot, h);
    var (core1, r) := Handle(initial, CreateReq(k));
    EmitsFirst(k);
    var s0 := Boot(initial, [k], []);
    var s1 := s0.(queue := [], pending := [CreateReq(k)]);
    var s2 := s1.(core := core1, pending := [], inflight := [r.value]);
    states, steps := Start(initial, s0);
    states, steps := Works(initial, states, steps, s0, [CreateReq(k)], s1);
    states, steps := Serves(initial, states, steps, s1, s2);
  }

  lemma LateEntry(k: HostSpec, ip: string)
    ensures Applied([], Response(DeleteReq(k), "", true)) == []
    ensures Applied([], Response(CreateReq(k), ip, true)) == [IPSpec(k.host, k.cidr, ip)]
  {
  }

  /** The DELETE's answer received before the CREATE's. */
  lemma Overtaking(initial: Core, core: Core, k: HostSpec, ip: string) returns (states: seq<Sys>, steps: seq<Step>)
    requires Handle(core, DeleteReq(k)) == (initial, Some(Response(DeleteReq(k), "", true)))
    ensures IsRun(initial, states, steps)
    ensures states[0] == Sys(core, true, [], [], [Updated([k], [])], [], [Response(CreateReq(k), ip, true)])
    ensures steps == [Work([DeleteReq(k)]), Serve, Deliver(1, false), Deliver(0, true), Work([])]
    ensures states[3].inflight == [Response(CreateReq(k), ip, true)]
    ensures states[5] == Sys(initial, true, [], [IPSpec(k.host, k.cidr, ip)], [], [], [])
  {
    hide IsRun, Next, Handle, Emits, Applied;
    EmitsRemoval(k);
    LateEntry(k, ip);
    EmitsEcho([]);
    var r, d := Response(CreateReq(k), ip, true), Response(DeleteReq(k), "", true);
    var s0 := Sys(core, true, [], [], [Updated([k], [])], [], [r]);
    var s1 := s0.(queue := [], pending := [DeleteReq(k)]);
    var s2 := s1.(core := initial, pending := [], inflight := [r, d]);
    var s3 := s2.(inflight := [r]);
    var s4 := s3.(inflight := [], status := [IPSpec(k.host, k.cidr, ip)], queue := [Updated([], [])]);
    states, steps := Start(initial, s0);
    states, steps := Works(initial, states, steps, s0, [DeleteReq(k)], s1);
    states, steps := Serves(initial, states, steps, s1, s2);
    states, steps := Delivers(initial, states, steps, s2, 1, false, s3);
    states, steps := Delivers(initial, states, steps, s3, 0, true, s4);
    states, steps := Works(initial, states, steps, s4, [], s4.(queue := []));
  }

  /** A CREATE's answer overtaken by the answer to the DELETE of the same key: at rest the
      status shows a host of no spec with an address the store has taken back. */
  lemma Overtaken(initial: Core, slot: Slot, h: string)
    returns (states: seq<Sys>, steps: seq<Step>, ip: string)
    requires Unused(initial) && slot in Slots(initial.tables.rows)
    ensures IsRun(initial, states, steps) && |steps| == 8 && states[0] == Boot(initial, [HostSpec(h, slot.cidr)], [])
    ensures steps[2] == UserUpdate([]) && steps[5] == Deliver(1, false)
    ensures forall i :: 0 <= i < 8 && i != 2 && i != 5 ==> Quiet(states[i], steps[i])
    ensures var t := states[8];
      Quiescent(t) && t.core == initial && t.spec == [] && t.status == [IPSpec(h, slot.cidr, ip)]
  {
    hide Handle, Emits, Consistent;
    var k := HostSpec(h, slot.cidr);
    states, steps, ip := Answered(initial, slot, h);
    var core1 := Handle(initial, CreateReq(k)).0;
    CreateThenDelete(initial, CreateReq(k), DeleteReq(k));
    DeleteAnswer(core1, DeleteReq(k));
    var b, more := Overtaking(initial, core1, k, ip);
    assert states[2].queue + [Updated([k], [])] == b[0].queue;
    Join(initial, states, steps, UserUpdate([]), b, more);
    states, steps := states + b, steps + [UserUpdate([])] + more;
    assert states[6] == b[3];
  }

  lemma DeleteAnswer(core: Core, req: Request)
    requires req.op == Delete
    ensures Handle(core, req).1 == Some(Response(req, "", true))
  {
  }

  // ---------------------------------------------------------------- an orphan asked for elsewhere

  lemma EmitsReplay(e: IPSpec)
    ensures Emits(Added([], [e]), [ReplayReq(e)])
  {
    assert Each(ReplayReq, [e]) + Each(CreateReq, []) == [ReplayReq(e)];
  }

  lemma EmitsArrival(l: HostSpec)
    ensures Emits(Updated([], [l]), [CreateReq(l)])
  {
    assert Each(DeleteReq, []) + Each(CreateReq, [l]) == [CreateReq(l)];
    assert EmitsUpdate([], [l], [], [l], [CreateReq(l)]);
  }

  /** A start on an empty spec leaves the status entry as an orphan. */
  lemma OneOrphan(initial: Core, e: IPSpec) returns (states: seq<Sys>, steps: seq<Step>)
    requires Unused(initial) && SlotOf(e) in Slots(initial.tables.rows)
    ensures IsRun(initial, states, steps) && states[0] == Boot(initial, [], [e])
    ensures steps == [Work([ReplayReq(e)]), Serve, Deliver(0, false)]
    ensures states[3] == Sys(Handle(initial, ReplayReq(e)).0, true, [], [e], [], [], [])
  {
    hide IsRun, Next, Handle, Emits, Consistent, Applied;
    ReplayGrant(initial, e);
    EmitsReplay(e);
    SecondEntry(e, e.cidr + "?");
    var (core1, r) := Handle(initial, ReplayReq(e));
    var s0 := Boot(initial, [], [e]);
    var s1 := s0.(queue := [], pending := [ReplayReq(e)]);
    var s2 := s1.(core := core1, pending := [], inflight := [r.value]);
    states, steps := Start(initial, s0);
    states, steps := Works(initial, states, steps, s0, [ReplayReq(e)], s1);
    states, steps := Serves(initial, states, steps, s1, s2);
    states, steps := Delivers(initial, states, steps, s2, 0, false, s2.(inflight := []));
  }

  lemma Adopting(initial: Core, core: Core, e: IPSpec, other: string) returns (states: seq<Sys>, steps: seq<Step>)
    requires other != e.cidr && Answers(core, CreateReq(HostSpec(e.host, other)), e.ip)
    ensures var l := HostSpec(e.host, other);
      && IsRun(initial, states, steps) && steps == [Work([CreateReq(l)]), Serve, Deliver(0, true), Work([])]
      && states[0] == Sys(core, true, [l], [e], [Updated([], [l])], [], [])
      && states[4] == Sys(core, true, [l], [e, IPSpec(e.host, other, e.ip)], [], [], [])
  {
    hide IsRun, Next, Handle, Emits, Applied;
    var l := HostSpec(e.host, other);
    EmitsArrival(l);
    EmitsEcho([l]);
    SecondEntry(e, other);
    var s0 := Sys(core, true, [l], [e], [Updated([], [l])], [], []);
    var s1 := s0.(queue := [], pending := [CreateReq(l)]);
    var s2 := s1.(pending := [], inflight := [Response(CreateReq(l), e.ip, true)]);
    var s3 := s2.(inflight := [], status := [e, IPSpec(e.host, other, e.ip)], queue := [Updated([l], [l])]);
    states, steps := Start(initial, s0);
    states, steps := Works(initial, states, steps, s0, [CreateReq(l)], s1);
    states, steps := Serves(initial, states, steps, s1, s2);
    states, steps := Delivers(initial, states, steps, s2, 0, true, s3);
    states, steps := Works(initial, states, steps, s3, [], s3.(queue := []));
  }

  /** At rest with an orphan, an update asks for its host under another CIDR: the host keeps
      the orphan's address, and the status shows it under both. */
  lemma OrphanMoved(initial: Core, e: IPSpec, other: string) returns (states: seq<Sys>, steps: seq<Step>)
    requires Unused(initial) && SlotOf(e) in Slots(initial.tables.rows) && other != e.cidr
    ensures IsRun(initial, states, steps) && |steps| == 8 && states[0] == Boot(initial, [], [e])
    ensures Quiescent(states[3]) && steps[3] == UserUpdate([HostSpec(e.host, other)])
    ensures forall i :: 0 <= i < 8 && i != 3 ==>
              steps[i].Work? || steps[i].Serve? || (steps[i].Deliver? && steps[i].i == 0)
    ensures var t := states[8];
      && Quiescent(t) && t.live && t.spec == [HostSpec(e.host, other)]
      && t.status == [e, IPSpec(e.host, other, e.ip)]
  {
    hide Handle, Emits, Consistent;
    ReplayGrant(initial, e);
    var l, core1 := HostSpec(e.host, other), Handle(initial, ReplayReq(e)).0;
    states, steps := OneOrphan(initial, e);
    assert Answers(core1, CreateReq(l), e.ip);
    var b, more := Adopting(initial, core1, e, other);
    assert states[3].queue + [Updated([], [l])] == b[0].queue;
    Join(initial, states, steps, UserUpdate([l]), b, more);
    states, steps := states + b, steps + [UserUpdate([l])] + more;
  }

  // ---------------------------------------------------------------- a stale answer after a re-creation

  lemma EmitsMove(k: HostSpec, l: HostSpec)
    requires k != l
    ensures Emits(Updated([k], [l]), [DeleteReq(k), CreateReq(l)])
  {
    assert Each(DeleteReq, [k]) + Each(CreateReq, [l]) == [DeleteReq(k), CreateReq(l)];
    assert EmitsUpdate([k], [l], [k], [l], [DeleteReq(k), CreateReq(l)]);
  }

  lemma EmitsTeardown(e: IPSpec)
    ensures Emits(Deleted([e]), [TeardownReq(e)])
  {
    assert Each(TeardownReq, [e]) == [TeardownReq(e)];
  }

  lemma EmitsNothing()
    ensures Emits(Added([], []), [])
  {
    assert Each(ReplayReq, []) + Each(CreateReq, []) == [];
  }

  /** The host moves from one CIDR to another; both requests are served, neither answered. */
  lemma Moving(initial: Core, core: Core, mid: Core, last: Core, e: IPSpec, l: HostSpec, ip: string)
    returns (states: seq<Sys>, steps: seq<Step>)
    requires var k := HostSpec(e.host, e.cidr);
      && k != l && Handle(core, DeleteReq(k)) == (mid, Some(Response(DeleteReq(k), "", true)))
      && Handle(mid, CreateReq(l)) == (last, Some(Response(CreateReq(l), ip, true)))
    ensures var k := HostSpec(e.host, e.cidr);
      && IsRun(initial, states, steps) && steps == [Work([DeleteReq(k), CreateReq(l)]), Serve, Serve]
      && states[0] == Sys(core, true, [l], [e], [Updated([k], [l])], [], [])
      && states[3] == Sys(last, true, [l], [e], [], [],
                          [Response(DeleteReq(k), "", true), Response(CreateReq(l), ip, true)])
  {
    hide IsRun, Next, Handle, Emits;
    var k := HostSpec(e.host, e.cidr);
    EmitsMove(k, l);
    var d, r := Response(DeleteReq(k), "", true), Response(CreateReq(l), ip, true);
    var s0 := Sys(core, true, [l], [e], [Updated([k], [l])], [], []);
    var s1 := s0.(queue := [], pending := [DeleteReq(k), CreateReq(l)]);
    var s2 := s1.(core := mid, pending := [CreateReq(l)], inflight := [d]);
    states, steps := Start(initial, s0);
    states, steps := Works(initial, states, steps, s0, [DeleteReq(k), CreateReq(l)], s1);
    states, steps := Serves(initial, states, steps, s1, s2);
    states, steps := Serves(initial, states, steps, s2, s2.(core := last, pending := [], inflight := [d, r]));
  }

  lemma Tearing(initial: Core, core: Core, e: IPSpec, waiting: seq<Response>)
    returns (states: seq<Sys>, steps: seq<Step>)
    requires Handle(core, TeardownReq(e)) == (initial, Some(Response(TeardownReq(e), "", true)))
    ensures IsRun(initial, states, steps) && steps == [Work([TeardownReq(e)]), Serve]
    ensures states[0] == Sys(core, false, [], [], [Deleted([e])], [], waiting)
    ensures states[2] == Sys(initial, false, [], [], [], [], waiting + [Response(TeardownReq(e), "", true)])
  {
    hide IsRun, Next, Handle, Emits;
    EmitsTeardown(e);
    var s0 := Sys(core, false, [], [], [Deleted([e])], [], waiting);
    var s1 := s0.(queue := [], pending := [TeardownReq(e)]);
    var s2 := s1.(core := initial, pending := [], inflight := waiting + [Response(TeardownReq(e), "", true)]);
    states, steps := Start(initial, s0);
    states, steps := Works(initial, states, steps, s0, [TeardownReq(e)], s1);
    states, steps := Serves(initial, states, steps, s1, s2);
  }

  lemma StaleEntry(l: HostSpec, e: IPSpec, ip: string)
    requires l.host == e.host && l.cidr != e.cidr
    ensures Applied([IPSpec(l.host, l.cidr, ip)], Response(TeardownReq(e), "", true)) == [IPSpec(l.host, l.cidr, ip)]
  {
  }

  lemma Surfacing(initial: Core, e: IPSpec, l: HostSpec, ip: string) returns (states: seq<Sys>, steps: seq<Step>)
    requires l.host == e.host && l.cidr != e.cidr
    ensures IsRun(initial, states, steps)
    ensures var k := HostSpec(e.host, e.cidr);
      var due := [Response(DeleteReq(k), "", true), Response(CreateReq(l), ip, true),
                  Response(TeardownReq(e), "", true)];
      states[0] == Sys(initial, true, [], [], [Added([], [])], [], due)
    ensures steps == [Work([]), Deliver(0, false), Deliver(0, true), Deliver(0, false), Work([])]
    ensures states[5] == Sys(initial, true, [], [IPSpec(l.host, l.cidr, ip)], [], [], [])
  {
    hide IsRun, Next, Handle, Emits, Applied;
    var k := HostSpec(e.host, e.cidr);
    EmitsNothing();
    EmitsEcho([]);
    LateEntry(k, ip);
    LateEntry(l, ip);
    StaleEntry(l, e, ip);
    var d, r := Response(DeleteReq(k), "", true), Response(CreateReq(l), ip, true);
    var x := Response(TeardownReq(e), "", true);
    var s0 := Sys(initial, true, [], [], [Added([], [])], [], [d, r, x]);
    var s1 := s0.(queue := []);
    var s2 := s1.(inflight := [r, x]);
    var s3 := s2.(inflight := [x], status := [IPSpec(l.host, l.cidr, ip)], queue := [Updated([], [])]);
    var s4 := s3.(inflight := []);
    states, steps := Start(initial, s0);
    states, steps := Works(initial, states, steps, s0, [], s1);
    states, steps := Delivers(initial, states, steps, s1, 0, false, s2);
    states, steps := Delivers(initial, states, steps, s2, 0, true, s3);
    states, steps := Delivers(initial, states, steps, s3, 0, false, s4);
    states, steps := Works(initial, states, steps, s4, [], s4.(queue := []));
  }

  /** The host is on its way from one CIDR to another, served but not yet answered, when the
      resource is deleted: the copy of the status still covers the store, so everything is
      given back. Created again before the answers are in, the resource shows the address the
      host had been moved to, which the store has taken back. */
  lemma StaleAnswer(initial: Core, slot: Slot, other: Slot, h: string)
    returns (states: seq<Sys>, steps: seq<Step>, ip: string)
    requires Unused(initial) && slot in Slots(initial.tables.rows) && other in Slots(initial.tables.rows)
    requires slot.cidr != other.cidr
    ensures IsRun(initial, states, steps) && |steps| == 17 && states[0] == Boot(initial, [HostSpec(h, slot.cidr)], [])
    ensures steps[4] == UserUpdate([HostSpec(h, other.cidr)]) && steps[8] == UserDelete && steps[11] == UserAdd([])
    ensures forall i :: 0 <= i < 17 && i != 4 && i != 8 && i != 11 ==>
              steps[i].Work? || steps[i].Serve? || (steps[i].Deliver? && steps[i].i == 0)
    ensures states[11].core == initial && states[11].queue == [] && states[11].pending == []
    ensures var t := states[17];
      Quiescent(t) && t.core == initial && t.spec == [] && t.status == [IPSpec(h, other.cidr, ip)]
  {
    hide Handle, Emits, Consistent, Applied;
    var k, l := HostSpec(h, slot.cidr), HostSpec(h, other.cidr);
    var held: string;
    states, steps, held := OneHost(initial, slot, h);
    var e := IPSpec(h, slot.cidr, held);
    var core := states[4].core;
    var _ := FirstGrant(initial, slot, h);
    CreateThenDelete(initial, CreateReq(k), DeleteReq(k));
    DeleteAnswer(core, DeleteReq(k));
    ip := FirstGrant(initial, other, h);
    var last := Handle(initial, CreateReq(l)).0;
    CreateThenDelete(initial, CreateReq(l), TeardownReq(e));
    DeleteAnswer(last, TeardownReq(e));
    var a, moves := Moving(initial, core, initial, last, e, l, ip);
    assert states[4].queue + [Updated([k], [l])] == a[0].queue;
    Join(initial, states, steps, UserUpdate([l]), a, moves);
    states, steps := states + a, steps + [UserUpdate([l])] + moves;
    var b, tears := Tearing(initial, last, e, a[3].inflight);
    assert a[3].queue + [Deleted([e])] == b[0].queue;
    Join(initial, states, steps, UserDelete, b, tears);
    states, steps := states + b, steps + [UserDelete] + tears;
    var c, ends := Surfacing(initial, e, l, ip);
    assert b[2].queue + [Added([], [])] == c[0].queue && b[2].inflight == c[0].inflight;
    Join(initial, states, steps, UserAdd([]), c, ends);
    states, steps := states + c, steps + [UserAdd([])] + ends;
  }
}
