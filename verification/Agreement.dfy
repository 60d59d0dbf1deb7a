/** What every step of the whole system keeps, and what it means at rest: the status list says
    exactly what the store holds for the latest spec. */
module Agreement {
  import opened Wrappers
  import opened Store
  import opened Provider
  import opened Controller
  import opened Pool
  import opened Laws
  import opened Orchestrator
  import opened Status
  import opened System

  /** Which address each (host, CIDR) key is bound to. */
  type Bindings = map<HostSpec, string>

  /** Each host appears under one CIDR. */
  ghost predicate Functional(keys: set<HostSpec>) {
    forall a, b :: a in keys && b in keys && a.host == b.host ==> a == b
  }

  ghost predicate ValidBindings(slots: seq<Slot>, b: Bindings) {
    && Functional(b.Keys)
    && (forall k :: k in b ==> Slot(b[k], k.cidr) in slots)
    && (forall k, l :: k in b && l in b && b[k] == b[l] ==> k == l)
  }

  /** The owners are the bindings whose replay is not still waiting. */
  ghost predicate OwnerIs(owner: map<string, string>, b: Bindings, waiting: set<HostSpec>) {
    && (forall k :: k in b && k !in waiting ==> b[k] in owner && owner[b[k]] == k.host)
    && (forall ip :: ip in owner ==> exists k :: k in b && k !in waiting && b[k] == ip)
  }

  function KeySet(list: seq<IPSpec>): set<HostSpec> {
    set e | e in list :: KeyOf(e)
  }

  // ---------------------------------------------------------------- the store side

  function SlotOf(e: IPSpec): Slot { Slot(e.ip, e.cidr) }

  /** Entry i is the first of the list to name its slot, and the pool has that slot. */
  predicate Claims(slots: seq<Slot>, list: seq<IPSpec>, i: nat)
    requires i < |list|
  {
    SlotOf(list[i]) in slots && forall j :: 0 <= j < i ==> SlotOf(list[j]) != SlotOf(list[i])
  }

  ghost predicate Claimed(slots: seq<Slot>, list: seq<IPSpec>, k: HostSpec) {
    exists i :: 0 <= i < |list| && KeyOf(list[i]) == k && Claims(slots, list, i)
  }

  /** The entries of a list that are granted when it is replayed into an unused store. */
  ghost function Regained(slots: seq<Slot>, list: seq<IPSpec>): Bindings {
    map k | k in StatusMap(list) && Claimed(slots, list, k) :: StatusMap(list)[k]
  }

  /** Entry i of the replays to come is bound already, or will be refused: the pool lacks its
      slot, or a key that is not replayed later holds it. */
  ghost predicate Due(slots: seq<Slot>, b: Bindings, replays: seq<IPSpec>, i: nat)
    requires i < |replays|
  {
    var e, k := replays[i], KeyOf(replays[i]);
    && e.ip != ""
    && if k in b then b[k] == e.ip
       else SlotOf(e) in slots ==> exists l :: l in b && b[l] == e.ip && l !in KeySet(replays[i..])
  }

  /** The store after the requests served so far: `keys` are the specs committed to, `b` their
      bindings, `replays` the status entries of the last restart not yet replayed. */
  ghost predicate StoreOk(slots: seq<Slot>, core: Core, keys: set<HostSpec>, b: Bindings,
                          replays: seq<IPSpec>, orphans: set<HostSpec>)
  {
    && Consistent(core) && Slots(core.tables.rows) == slots
    && ValidBindings(slots, b)
    && orphans <= b.Keys <= keys
    && UniqueKeys(replays) && (forall i :: 0 <= i < |replays| ==> Due(slots, b, replays, i))
    && OwnerIs(Abs(core.tables).owner, b, KeySet(replays))
  }

  function AppliedSome(b: Bindings, r: Option<Response>): Bindings {
    match r
    case None => b
    case Some(resp) => AppliedMap(b, resp)
  }

  lemma SlotNotEmpty(core: Core, slot: Slot)
    requires Consistent(core) && slot in Slots(core.tables.rows)
    ensures slot.ip != ""
  {
  }

  lemma KeySetTail(replays: seq<IPSpec>)
    requires UniqueKeys(replays) && replays != []
    ensures KeySet(replays[1..]) == KeySet(replays) - {KeyOf(replays[0])}
    ensures UniqueKeys(replays[1..])
  {
  }

  lemma DueTail(slots: seq<Slot>, b: Bindings, replays: seq<IPSpec>)
    requires replays != [] && forall i :: 0 <= i < |replays| ==> Due(slots, b, replays, i)
    ensures forall i :: 0 <= i < |replays[1..]| ==> Due(slots, b, replays[1..], i)
  {
    forall i | 0 <= i < |replays[1..]| ensures Due(slots, b, replays[1..], i) {
      assert Due(slots, b, replays, i + 1);
      assert replays[1..][i..] == replays[i + 1..];
    }
  }

  /** The answer a replay gets: its own address if it is bound, a refusal otherwise. */
  function ReplayAnswer(b: Bindings, e: IPSpec): Response {
    if KeyOf(e) in b then Response(ReplayReq(e), e.ip, true) else Response(ReplayReq(e), "", false)
  }

  lemma PoolReplay(p: Pool, b: Bindings, replays: seq<IPSpec>)
    requires UniqueKeys(replays) && replays != [] && Due(p.slots, b, replays, 0)
    requires ValidBindings(p.slots, b) && OwnerIs(p.owner, b, KeySet(replays))
    ensures var (p1, r) := PoolHandle(p, ReplayReq(replays[0]));
      r == Some(ReplayAnswer(b, replays[0])) && OwnerIs(p1.owner, b, KeySet(replays[1..]))
  {
    var e, k := replays[0], KeyOf(replays[0]);
    KeySetTail(replays);
    assert k in KeySet(replays) && replays[0..] == replays;
    if k in b {
      WaitingUnowned(p.owner, b, KeySet(replays), k);
      ReplayOwner(p.owner, b, KeySet(replays), k);
    }
  }

  /** Replaying a status entry binds nothing new: it succeeds with its own address if it was
      the first to name a slot of the pool, and is refused otherwise. */
  lemma ServeReplay(slots: seq<Slot>, core: Core, keys: set<HostSpec>, b: Bindings,
                    replays: seq<IPSpec>, orphans: set<HostSpec>)
    requires StoreOk(slots, core, keys, b, replays, orphans) && replays != []
    ensures var (core1, r) := Handle(core, ReplayReq(replays[0]));
      && core1.cidrs == core.cidrs
      && r == Some(ReplayAnswer(b, replays[0]))
      && StoreOk(slots, core1, keys, b, replays[1..], orphans)
  {
    hide Handle, Consistent, Abs, PoolHandle, ValidBindings, OwnerIs, Due;
    var req := ReplayReq(replays[0]);
    HandleRefines(core, req);
    KeySetTail(replays);
    DueTail(slots, b, replays);
    AbsSlots(core.tables);
    AbsSlots(Handle(core, req).0.tables);
    SlotsFixed(Abs(core.tables), req);
    PoolReplay(Abs(core.tables), b, replays);
  }

  lemma AbsSlots(t: Tables)
    ensures Abs(t).slots == Slots(t.rows)
  {
  }

  lemma WaitingUnowned(owner: map<string, string>, b: Bindings, waiting: set<HostSpec>, k: HostSpec)
    requires OwnerIs(owner, b, waiting) && k in waiting && k in b
    requires forall x, y :: x in b && y in b && b[x] == b[y] ==> x == y
    ensures b[k] !in owner
  {
  }

  lemma ReplayOwner(owner: map<string, string>, b: Bindings, waiting: set<HostSpec>, k: HostSpec)
    requires OwnerIs(owner, b, waiting) && k in waiting && k in b
    requires forall x, y :: x in b && y in b && b[x] == b[y] ==> x == y
    ensures OwnerIs(owner[b[k] := k.host], b, waiting - {k})
  {
  }

  lemma HeldIs(owner: map<string, string>, b: Bindings, k: HostSpec, slots: seq<Slot>, keys: set<HostSpec>)
    requires OwnerIs(owner, b, {}) && b.Keys <= keys && Functional(keys + {k})
    ensures OwnedBy(Pool(slots, owner), k.host) == if k in b then {b[k]} else {}
  {
  }

  lemma ServePlain(slots: seq<Slot>, core: Core, keys: set<HostSpec>, b: Bindings, req: Request,
                   orphans: set<HostSpec>)
    requires StoreOk(slots, core, keys, b, [], orphans) && req.ip == ""
    requires Functional(keys) && Functional(StepKeys(keys, req))
    requires req.op == Delete ==> Key(req) in keys && Key(req) !in orphans
    ensures var (core1, r) := Handle(core, req);
      && core1.cidrs == core.cidrs
      && StoreOk(slots, core1, StepKeys(keys, req), AppliedSome(b, r), [], orphans)
  {
    hide Handle, Consistent, Abs, PoolHandle, OwnerIs, ValidBindings;
    var p, k := Abs(core.tables), Key(req);
    HandleRefines(core, req);
    AbsSlots(core.tables);
    AbsSlots(Handle(core, req).0.tables);
    assert KeySet([]) == {};
    ValidFunctional(slots, b);
    match req.op
    case Create =>
      assert keys + {k} == StepKeys(keys, req);
      HeldIs(p.owner, b, k, p.slots, keys);
      PoolCreate(p, b, req, keys);
    case Delete =>
      assert keys + {k} == keys;
      HeldIs(p.owner, b, k, p.slots, keys);
      PoolDelete(p, b, req, keys);
  }

  lemma ValidFunctional(slots: seq<Slot>, b: Bindings)
    requires ValidBindings(slots, b)
    ensures Functional(b.Keys)
  {
  }

  lemma LeastOfOne(ip: string)
    ensures Least({ip}) == ip
  {
  }

  lemma PoolCreate(p: Pool, b: Bindings, req: Request, keys: set<HostSpec>)
    requires PlainCreate(req) && OwnerIs(p.owner, b, {}) && ValidBindings(p.slots, b)
    requires b.Keys <= keys && Functional(keys + {Key(req)})
    requires OwnedBy(p, req.host) == if Key(req) in b then {b[Key(req)]} else {}
    ensures var (p1, r) := PoolHandle(p, req);
      && p1.slots == p.slots
      && ValidBindings(p.slots, AppliedSome(b, r))
      && b.Keys <= AppliedSome(b, r).Keys <= keys + {Key(req)}
      && OwnerIs(p1.owner, AppliedSome(b, r), {})
  {
    hide OwnerIs, ValidBindings, Functional;
    var k := Key(req);
    if k in b {
      LeastOfOne(b[k]);
      assert b[k := b[k]] == b;
    } else if NextIp(p, req.cidr).Some? {
      NextIpOpen(p, req.cidr);
      FunctionalSubset(b.Keys + {k}, keys + {k});
      BindNew(p, b, k, NextIp(p, req.cidr).value);
    }
  }

  lemma FunctionalSubset(a: set<HostSpec>, b: set<HostSpec>)
    requires a <= b && Functional(b)
    ensures Functional(a)
  {
  }

  lemma BindNew(p: Pool, b: Bindings, k: HostSpec, ip: string)
    requires OwnerIs(p.owner, b, {}) && ValidBindings(p.slots, b) && Functional(b.Keys + {k})
    requires k !in b && ip !in p.owner && Slot(ip, k.cidr) in p.slots
    ensures ValidBindings(p.slots, b[k := ip]) && OwnerIs(p.owner[ip := k.host], b[k := ip], {})
  {
    assert forall l :: l in b ==> b[l] in p.owner;
    BindValid(p.slots, b, k, ip);
    BindOwner(p.owner, b, k, ip);
  }

  lemma BindValid(slots: seq<Slot>, b: Bindings, k: HostSpec, ip: string)
    requires ValidBindings(slots, b) && Functional(b.Keys + {k}) && Slot(ip, k.cidr) in slots
    requires k !in b && forall l :: l in b ==> b[l] != ip
    ensures ValidBindings(slots, b[k := ip])
  {
  }

  lemma BindOwner(owner: map<string, string>, b: Bindings, k: HostSpec, ip: string)
    requires OwnerIs(owner, b, {}) && k !in b && forall l :: l in b ==> b[l] != ip
    ensures OwnerIs(owner[ip := k.host], b[k := ip], {})
  {
  }

  lemma UnbindOwner(owner: map<string, string>, b: Bindings, k: HostSpec)
    requires OwnerIs(owner, b, {}) && k in b
    requires forall x, y :: x in b && y in b && b[x] == b[y] ==> x == y
    ensures OwnerIs(owner - {b[k]}, b - {k}, {})
  {
    var owner1, b1 := owner - {b[k]}, b - {k};
    forall x | x in owner1 ensures exists l :: l in b1 && l !in {} && b1[l] == x {
      var l :| l in b && l !in {} && b[l] == x;
      assert l != k && b1[l] == x;
    }
  }

  lemma UnbindValid(slots: seq<Slot>, b: Bindings, k: HostSpec)
    requires ValidBindings(slots, b)
    ensures ValidBindings(slots, b - {k})
  {
  }

  lemma PoolDelete(p: Pool, b: Bindings, req: Request, keys: set<HostSpec>)
    requires req.op == Delete && OwnerIs(p.owner, b, {}) && ValidBindings(p.slots, b)
    requires b.Keys <= keys && Functional(keys)
    requires OwnedBy(p, req.host) == if Key(req) in b then {b[Key(req)]} else {}
    ensures var (p1, r) := PoolHandle(p, req);
      && p1.slots == p.slots
      && ValidBindings(p.slots, AppliedSome(b, r))
      && AppliedSome(b, r).Keys == b.Keys - {Key(req)}
      && OwnerIs(p1.owner, AppliedSome(b, r), {})
  {
    hide OwnerIs, OwnedBy, Functional;
    var k := Key(req);
    UnbindValid(p.slots, b, k);
    if k in b {
      LeastOfOne(b[k]);
      UnbindOwner(p.owner, b, k);
    } else {
      assert b - {k} == b;
    }
  }

  // ---------------------------------------------------------------- the plan: requests still to come

  /** Plain requests that keep the committed specs functional and only delete what is there. */
  ghost predicate OkWalk(keys: set<HostSpec>, reqs: seq<Request>, orphans: set<HostSpec>)
    decreases |reqs|
  {
    Functional(keys) &&
    (reqs != [] ==>
      && reqs[0].ip == ""
      && (reqs[0].op == Delete ==> Key(reqs[0]) in keys && Key(reqs[0]) !in orphans)
      && OkWalk(StepKeys(keys, reqs[0]), reqs[1..], orphans))
  }

  /** The committed keys once an update is worked off; those outside its old spec stay. */
  function AfterUpdate(keys: set<HostSpec>, was: seq<HostSpec>, cur: seq<HostSpec>): set<HostSpec> {
    keys - (SpecSet(was) - SpecSet(cur)) + SpecSet(cur)
  }

  /** The queued updates lead from the committed specs to the latest spec and the orphans. */
  ghost predicate QueueOk(keys: set<HostSpec>, queue: seq<Event>, spec: seq<HostSpec>, orphans: set<HostSpec>)
    decreases |queue|
  {
    if queue == [] then keys == SpecSet(spec) + orphans && SpecSet(spec) !! orphans
    else
      && queue[0].Updated?
      && SpecSet(queue[0].was) <= keys && SpecSet(queue[0].was) !! orphans
      && Functional(AfterUpdate(keys, queue[0].was, queue[0].cur))
      && QueueOk(AfterUpdate(keys, queue[0].was, queue[0].cur), queue[1..], spec, orphans)
  }

  /** A queued CREATE event stands for the requests it will emit. */
  predicate Starting(s: Sys) { s.queue != [] && s.queue[0].Added? }

  function TodoReqs(s: Sys): seq<Request> {
    if Starting(s) then Each(ReplayReq, s.queue[0].status) + Each(CreateReq, s.queue[0].spec) else s.pending
  }

  function TodoQueue(s: Sys): seq<Event> {
    if Starting(s) then s.queue[1..] else s.queue
  }

  ghost predicate PlanOk(keys: set<HostSpec>, replays: seq<IPSpec>, reqs: seq<Request>, queue: seq<Event>,
                         spec: seq<HostSpec>, orphans: set<HostSpec>)
  {
    && |replays| <= |reqs| && reqs[..|replays|] == Each(ReplayReq, replays)
    && OkWalk(keys, reqs[|replays|..], orphans)
    && QueueOk(WalkKeys(keys, reqs[|replays|..]), queue, spec, orphans)
  }

  lemma {:induction false} OkWalkConcat(keys: set<HostSpec>, a: seq<Request>, b: seq<Request>, orphans: set<HostSpec>)
    requires OkWalk(keys, a, orphans) && OkWalk(WalkKeys(keys, a), b, orphans)
    ensures OkWalk(keys, a + b, orphans)
    decreases |a|
  {
    if a == [] {
      assert a + b == b;
    } else {
      assert (a + b)[1..] == a[1..] + b;
      OkWalkConcat(StepKeys(keys, a[0]), a[1..], b, orphans);
    }
  }

  lemma {:induction false} OkDeletes(keys: set<HostSpec>, gone: seq<HostSpec>, orphans: set<HostSpec>)
    requires Functional(keys) && Lists(gone, SpecSet(gone)) && SpecSet(gone) <= keys - orphans
    ensures OkWalk(keys, Each(DeleteReq, gone), orphans)
    decreases |gone|
  {
    var reqs := Each(DeleteReq, gone);
    if gone != [] {
      var k, tail := gone[0], gone[1..];
      assert reqs[1..] == Each(DeleteReq, tail);
      assert Key(reqs[0]) == k && k in SpecSet(gone);
      assert forall i :: 0 <= i < |tail| ==> tail[i] == gone[i + 1];
      forall x | x in tail ensures x in SpecSet(gone) && x != k {}
      assert Lists(tail, SpecSet(tail));
      OkDeletes(keys - {k}, tail, orphans);
    }
  }

  lemma {:induction false} OkCreates(keys: set<HostSpec>, come: seq<HostSpec>, all: set<HostSpec>,
                                     orphans: set<HostSpec>)
    requires keys <= all && SpecSet(come) <= all && Functional(all)
    ensures OkWalk(keys, Each(CreateReq, come), orphans)
    decreases |come|
  {
    var reqs := Each(CreateReq, come);
    FunctionalSubset(keys, all);
    if come != [] {
      var k, tail := come[0], come[1..];
      assert reqs[1..] == Each(CreateReq, tail);
      assert Key(reqs[0]) == k && k in SpecSet(come);
      forall x | x in SpecSet(tail) ensures x in SpecSet(come) {}
      OkCreates(keys + {k}, tail, all, orphans);
    }
  }

  /** An update's requests, in any order it may emit them. */
  lemma OkUpdate(keys: set<HostSpec>, was: seq<HostSpec>, cur: seq<HostSpec>, reqs: seq<Request>,
                 orphans: set<HostSpec>)
    requires Emits(Updated(was, cur), reqs)
    requires SpecSet(was) <= keys && SpecSet(was) !! orphans
    requires Functional(keys) && Functional(AfterUpdate(keys, was, cur))
    ensures OkWalk(keys, reqs, orphans)
    ensures WalkKeys(keys, reqs) == AfterUpdate(keys, was, cur)
  {
    hide OkWalk, Functional, WalkKeys;
    var gone, come :| EmitsUpdate(was, cur, gone, come, reqs);
    assert EmitsUpdate(was, cur, gone, come, reqs);
    assert SpecSet(gone) == SpecSet(was) - SpecSet(cur);
    assert SpecSet(come) == SpecSet(cur) - SpecSet(was);
    OkDeletes(keys, gone, orphans);
    WalkDeletes(keys, gone);
    var mid := keys - SpecSet(gone);
    OkCreates(mid, come, AfterUpdate(keys, was, cur), orphans);
    WalkCreates(mid, come);
    OkWalkConcat(keys, Each(DeleteReq, gone), Each(CreateReq, come), orphans);
    WalkConcat(keys, Each(DeleteReq, gone), Each(CreateReq, come));
    assert mid + SpecSet(come) == AfterUpdate(keys, was, cur);
  }

  /** An update that names orphans takes them over: they are orphans no longer. */
  lemma {:induction false} QueueAppend(keys: set<HostSpec>, queue: seq<Event>, spec: seq<HostSpec>,
                                       newSpec: seq<HostSpec>, orphans: set<HostSpec>)
    requires QueueOk(keys, queue, spec, orphans)
    requires Functional(SpecSet(newSpec) + orphans)
    ensures QueueOk(keys, queue + [Updated(spec, newSpec)], newSpec, orphans - SpecSet(newSpec))
    decreases |queue|
  {
    hide Functional;
    var longer, left := queue + [Updated(spec, newSpec)], orphans - SpecSet(newSpec);
    if queue == [] {
      assert longer[1..] == [];
      assert AfterUpdate(keys, spec, newSpec) == SpecSet(newSpec) + left == SpecSet(newSpec) + orphans;
    } else {
      assert longer[1..] == queue[1..] + [Updated(spec, newSpec)];
      QueueAppend(AfterUpdate(keys, queue[0].was, queue[0].cur), queue[1..], spec, newSpec, orphans);
    }
  }

  lemma {:induction false} QueueDisjoint(keys: set<HostSpec>, queue: seq<Event>, spec: seq<HostSpec>,
                                         orphans: set<HostSpec>)
    requires QueueOk(keys, queue, spec, orphans) && Functional(keys)
    ensures SpecSet(spec) !! orphans && Functional(SpecSet(spec) + orphans)
    decreases |queue|
  {
    if queue != [] {
      QueueDisjoint(AfterUpdate(keys, queue[0].was, queue[0].cur), queue[1..], spec, orphans);
    }
  }

  lemma {:induction false} OkWalkFewer(keys: set<HostSpec>, reqs: seq<Request>, orphans: set<HostSpec>,
                                       fewer: set<HostSpec>)
    requires OkWalk(keys, reqs, orphans) && fewer <= orphans
    ensures OkWalk(keys, reqs, fewer)
    decreases |reqs|
  {
    if reqs != [] {
      OkWalkFewer(StepKeys(keys, reqs[0]), reqs[1..], orphans, fewer);
    }
  }

  lemma {:induction false} WalkFunctional(keys: set<HostSpec>, reqs: seq<Request>, orphans: set<HostSpec>)
    requires OkWalk(keys, reqs, orphans)
    ensures Functional(WalkKeys(keys, reqs))
    decreases |reqs|
  {
    if reqs != [] {
      WalkFunctional(StepKeys(keys, reqs[0]), reqs[1..], orphans);
    }
  }

  // ---------------------------------------------------------------- the view: status and responses

  /** The entries listed and the successes in flight all carry an address. */
  ghost predicate NoBlanks(status: seq<IPSpec>, inflight: seq<Response>) {
    && (forall e :: e in status ==> e.ip != "")
    && (forall r :: r in inflight && r.req.op == Create && r.ok ==> r.ip != "")
  }

  /** Delivering the responses in flight turns the status list into the bindings, apart from
      entries whose replay is still to come and will be refused. */
  ghost predicate ViewOk(status: seq<IPSpec>, inflight: seq<Response>, b: Bindings, refused: set<HostSpec>) {
    && UniqueKeys(status) && NoBlanks(status, inflight)
    && AppliedMapAll(StatusMap(status), inflight) - refused == b
  }

  /** Every stage of delivering the responses in flight, oldest first, is a valid set of
      bindings, so a restart at that stage would be granted every entry. */
  ghost predicate Stages(slots: seq<Slot>, status: seq<IPSpec>, inflight: seq<Response>) {
    forall n :: 0 <= n <= |inflight| ==> ValidBindings(slots, AppliedMapAll(StatusMap(status), inflight[..n]))
  }

  lemma AppendMap(m: Bindings, inflight: seq<Response>, r: Option<Response>)
    ensures AppliedMapAll(m, inflight + Sent(r)) == AppliedSome(AppliedMapAll(m, inflight), r)
  {
    var longer := inflight + Sent(r);
    if r.Some? { assert longer[..|inflight|] == inflight; } else { assert longer == inflight; }
  }

  lemma ViewAppend(status: seq<IPSpec>, inflight: seq<Response>, b: Bindings, refused: set<HostSpec>,
                   r: Option<Response>, b1: Bindings, refused1: set<HostSpec>)
    requires ViewOk(status, inflight, b, refused)
    requires r.Some? && r.value.req.op == Create && r.value.ok ==> r.value.ip != ""
    requires AppliedSome(AppliedMapAll(StatusMap(status), inflight), r) - refused1 == b1
    ensures ViewOk(status, inflight + Sent(r), b1, refused1)
  {
    hide StatusMap, UniqueKeys;
    AppendMap(StatusMap(status), inflight, r);
  }

  lemma StagesAppend(slots: seq<Slot>, status: seq<IPSpec>, inflight: seq<Response>, r: Option<Response>)
    requires Stages(slots, status, inflight)
    requires ValidBindings(slots, AppliedSome(AppliedMapAll(StatusMap(status), inflight), r))
    ensures Stages(slots, status, inflight + Sent(r))
  {
    hide ValidBindings, AppliedMap, AppliedMapAll, StatusMap, AppliedSome;
    var longer := inflight + Sent(r);
    AppendMap(StatusMap(status), inflight, r);
    assert longer[..|longer|] == longer;
    forall n | 0 <= n <= |longer| ensures ValidBindings(slots, AppliedMapAll(StatusMap(status), longer[..n])) {
      if n <= |inflight| {
        assert longer[..n] == inflight[..n];
      }
    }
  }

  /** What the answer to a replay does to the entries still to be refused. */
  lemma ReplayView(m: Bindings, b: Bindings, replays: seq<IPSpec>)
    requires UniqueKeys(replays) && replays != [] && (KeyOf(replays[0]) in b ==> b[KeyOf(replays[0])] == replays[0].ip)
    requires m - (KeySet(replays) - b.Keys) == b
    ensures AppliedMap(m, ReplayAnswer(b, replays[0])) - (KeySet(replays[1..]) - b.Keys) == b
    ensures KeyOf(replays[0]) in b ==> AppliedMap(m, ReplayAnswer(b, replays[0])) == m
  {
    KeySetTail(replays);
    var k := KeyOf(replays[0]);
    assert Key(ReplayReq(replays[0])) == k;
    if k in b {
      assert k in m && m[k] == b[k];
    }
  }

  lemma AnswerNotBlank(core: Core, req: Request)
    ensures var r := Handle(core, req).1;
      r.Some? && req.op == Create && r.value.ok ==> r.value.ip != ""
  {
    hide AllocateAt, Manager.NextAddress, Manager.RecordCreated, Manager.RecordDeleted;
  }

  lemma {:induction false} AppliedHead(m: Bindings, rs: seq<Response>)
    requires rs != []
    ensures AppliedMapAll(m, rs) == AppliedMapAll(AppliedMap(m, rs[0]), rs[1..])
    decreases |rs|
  {
    hide AppliedMap;
    var n := |rs| - 1;
    if n == 0 {
      assert rs[..0] == [] && rs[1..] == [];
    } else {
      AppliedHead(m, rs[..n]);
      assert rs[..n][1..] == rs[1..][..n - 1];
    }
  }

  lemma {:induction false} AppliedConcat(m: Bindings, a: seq<Response>, b: seq<Response>)
    ensures AppliedMapAll(m, a + b) == AppliedMapAll(AppliedMapAll(m, a), b)
    decreases |b|
  {
    hide AppliedMap;
    if b == [] {
      assert a + b == a;
    } else {
      var n := |b| - 1;
      AppliedConcat(m, a, b[..n]);
      assert (a + b)[..|a + b| - 1] == a + b[..n];
    }
  }

  /** A response passes all responses for other keys. */
  lemma {:induction false} Overtake(m: Bindings, front: seq<Response>, r: Response)
    requires forall x :: x in front ==> Key(x.req) != Key(r.req)
    ensures AppliedMap(AppliedMapAll(m, front), r) == AppliedMapAll(AppliedMap(m, r), front)
    decreases |front|
  {
    if front != [] {
      var n := |front| - 1;
      assert forall x :: x in front[..n] ==> x in front;
      Overtake(m, front[..n], r);
      CommuteIff(front[n], r);
    }
  }

  /** Responses for one key are received in the order they were started. */
  predicate OldestOfKey(inflight: seq<Response>, i: nat) {
    i < |inflight| && forall j :: 0 <= j < i ==> Key(inflight[j].req) != Key(inflight[i].req)
  }

  lemma DeliverMap(m: Bindings, inflight: seq<Response>, i: nat)
    requires OldestOfKey(inflight, i)
    ensures AppliedMapAll(AppliedMap(m, inflight[i]), DropAt(inflight, i)) == AppliedMapAll(m, inflight)
  {
    hide AppliedMap, AppliedMapAll;
    var front, r, back := inflight[..i], inflight[i], inflight[i + 1..];
    AppliedConcat(AppliedMap(m, r), front, back);
    Overtake(m, front, r);
    AppliedHead(AppliedMapAll(m, front), [r] + back);
    assert ([r] + back)[1..] == back;
    AppliedConcat(m, front, [r] + back);
    assert inflight == front + ([r] + back);
  }

  /** Delivering the oldest response of its key changes nothing of what status and responses
      in flight say together. */
  lemma ViewDeliver(status: seq<IPSpec>, inflight: seq<Response>, b: Bindings, refused: set<HostSpec>, i: nat)
    requires ViewOk(status, inflight, b, refused) && OldestOfKey(inflight, i)
    ensures ViewOk(Applied(status, inflight[i]), DropAt(inflight, i), b, refused)
  {
    hide Applied, AppliedMap, AppliedMapAll, StatusMap, UniqueKeys;
    AppliedRefines(status, inflight[i]);
    DeliverMap(StatusMap(status), inflight, i);
    var r := inflight[i];
    assert r in inflight;
    forall e | e in Applied(status, r) ensures e.ip != "" { AppliedFrom(status, r, e); }
    forall x | x in DropAt(inflight, i) ensures x in inflight {}
  }

  lemma StagesDeliver(slots: seq<Slot>, status: seq<IPSpec>, inflight: seq<Response>)
    requires Stages(slots, status, inflight) && inflight != [] && UniqueKeys(status)
    ensures Stages(slots, Applied(status, inflight[0]), DropAt(inflight, 0))
  {
    hide ValidBindings, Applied, AppliedMap;
    AppliedRefines(status, inflight[0]);
    var rest := DropAt(inflight, 0);
    assert rest == inflight[1..];
    forall n | 0 <= n <= |rest|
      ensures ValidBindings(slots, AppliedMapAll(StatusMap(Applied(status, inflight[0])), rest[..n]))
    {
      AppliedHead(StatusMap(status), inflight[..n + 1]);
      assert inflight[..n + 1][1..] == rest[..n];
    }
  }

  // ---------------------------------------------------------------- the invariant

  /** `inOrder` says that responses are received in the order they were started. */
  ghost predicate SysInv(initial: Core, s: Sys, keys: set<HostSpec>, b: Bindings, replays: seq<IPSpec>,
                         orphans: set<HostSpec>, inOrder: bool)
  {
    var slots := Slots(initial.tables.rows);
    && s.live && s.core.cidrs == initial.cidrs
    && (Starting(s) ==> s.pending == [])
    && PlanOk(keys, replays, TodoReqs(s), TodoQueue(s), s.spec, orphans)
    && StoreOk(slots, s.core, keys, b, replays, orphans)
    && ViewOk(s.status, s.inflight, b, KeySet(replays) - b.Keys)
    && (inOrder ==> Stages(slots, s.status, s.inflight) && KeySet(replays) <= b.Keys)
  }

  ghost predicate Inv(initial: Core, s: Sys, orphans: set<HostSpec>, inOrder: bool) {
    exists keys, b, replays :: SysInv(initial, s, keys, b, replays, orphans, inOrder)
  }

  /** A store nobody has allocated from. */
  predicate Unused(core: Core) { Consistent(core) && core.tables.records == [] }

  /** The entries a restart is granted although the spec does not ask for them. */
  ghost function Orphans(initial: Core, spec: seq<HostSpec>, status: seq<IPSpec>): set<HostSpec> {
    Regained(Slots(initial.tables.rows), status).Keys - SpecSet(spec)
  }

  /** A status list as the system writes it. */
  predicate Written(status: seq<IPSpec>) { UniqueKeys(status) && forall e :: e in status ==> e.ip != "" }

  /** No host has two CIDRs among the spec and the entries that a restart is granted. */
  ghost predicate Unmoved(initial: Core, spec: seq<HostSpec>, status: seq<IPSpec>) {
    Functional(Regained(Slots(initial.tables.rows), status).Keys + SpecSet(spec))
  }

  lemma KeySetIs(list: seq<IPSpec>)
    requires UniqueKeys(list)
    ensures KeySet(list) == StatusMap(list).Keys
  {
  }

  lemma {:induction false} FirstToName(slots: seq<Slot>, list: seq<IPSpec>, i: nat) returns (j: nat)
    requires i < |list| && SlotOf(list[i]) in slots
    ensures j <= i && SlotOf(list[j]) == SlotOf(list[i]) && Claims(slots, list, j)
    decreases i
  {
    if Claims(slots, list, i) {
      j := i;
    } else {
      var h :| 0 <= h < i && SlotOf(list[h]) == SlotOf(list[i]);
      j := FirstToName(slots, list, h);
    }
  }

  lemma RegainedValid(slots: seq<Slot>, list: seq<IPSpec>)
    requires DistinctSlots(slots) && UniqueKeys(list) && Functional(Regained(slots, list).Keys)
    ensures ValidBindings(slots, Regained(slots, list))
  {
    hide DistinctSlots;
    var b := Regained(slots, list);
    StatusMapIs(list);
    forall k | k in b ensures Slot(b[k], k.cidr) in slots {
      var i :| 0 <= i < |list| && KeyOf(list[i]) == k && Claims(slots, list, i);
      assert list[i] in list;
    }
    forall k, l | k in b && l in b && b[k] == b[l] ensures k == l {
      var i :| 0 <= i < |list| && KeyOf(list[i]) == k && Claims(slots, list, i);
      var j :| 0 <= j < |list| && KeyOf(list[j]) == l && Claims(slots, list, j);
      assert list[i] in list && list[j] in list;
      SlotUnique(slots, b[k], k.cidr, l.cidr);
    }
  }

  lemma RegainedDue(slots: seq<Slot>, list: seq<IPSpec>, i: nat)
    requires Written(list) && i < |list|
    ensures Due(slots, Regained(slots, list), list, i)
  {
    var b, e := Regained(slots, list), list[i];
    StatusMapIs(list);
    assert e in list;
    if KeyOf(e) !in b && SlotOf(e) in slots {
      var j := FirstToName(slots, list, i);
      var l := KeyOf(list[j]);
      assert list[j] in list && l in b && b[l] == e.ip;
      assert j < i;
      assert forall h :: i <= h < |list| ==> KeyOf(list[h]) != l;
      assert l !in KeySet(list[i..]);
    }
  }

  lemma BootStore(initial: Core, status: seq<IPSpec>, orphans: set<HostSpec>)
    requires Unused(initial) && Written(status)
    requires Functional(Regained(Slots(initial.tables.rows), status).Keys)
    requires orphans <= Regained(Slots(initial.tables.rows), status).Keys
    ensures var slots := Slots(initial.tables.rows);
      var b := Regained(slots, status);
      StoreOk(slots, initial, b.Keys, b, status, orphans)
  {
    hide ValidBindings, Consistent, Due, Functional, DistinctSlots;
    var slots := Slots(initial.tables.rows);
    var b := Regained(slots, status);
    KeySetIs(status);
    ConsistentDistinct(initial);
    RegainedValid(slots, status);
    forall i | 0 <= i < |status| ensures Due(slots, b, status, i) { RegainedDue(slots, status, i); }
    assert Abs(initial.tables).owner == map[];
    NothingOwned(b, KeySet(status));
  }

  lemma ConsistentDistinct(core: Core)
    requires Consistent(core)
    ensures DistinctSlots(Slots(core.tables.rows))
  {
  }

  lemma NothingOwned(b: Bindings, waiting: set<HostSpec>)
    requires b.Keys <= waiting
    ensures OwnerIs(map[], b, waiting)
  {
  }

  lemma BootPlan(keys: set<HostSpec>, spec: seq<HostSpec>, status: seq<IPSpec>, orphans: set<HostSpec>)
    requires Functional(keys + SpecSet(spec)) && orphans == keys - SpecSet(spec)
    ensures PlanOk(keys, status, Each(ReplayReq, status) + Each(CreateReq, spec), [], spec, orphans)
  {
    hide Functional, WalkKeys, OkWalk;
    var reqs := Each(ReplayReq, status) + Each(CreateReq, spec);
    assert reqs[|status|..] == Each(CreateReq, spec);
    OkCreates(keys, spec, keys + SpecSet(spec), orphans);
    WalkCreates(keys, spec);
    assert keys + SpecSet(spec) == SpecSet(spec) + orphans;
  }

  /** Starting, for the first time or again, on whatever status the system has left behind,
      establishes the invariant, as long as no host is caught between two CIDRs. */
  lemma BootInv(initial: Core, spec: seq<HostSpec>, status: seq<IPSpec>, inOrder: bool)
    requires Unused(initial) && Written(status) && Unmoved(initial, spec, status)
    requires inOrder ==> ValidBindings(Slots(initial.tables.rows), StatusMap(status))
    ensures Inv(initial, Boot(initial, spec, status), Orphans(initial, spec, status), inOrder)
  {
    hide Functional, WalkKeys, OkWalk, StatusMap, ValidBindings, PlanOk, StoreOk, UniqueKeys, Consistent, Regained;
    var s, orphans, slots := Boot(initial, spec, status), Orphans(initial, spec, status), Slots(initial.tables.rows);
    var b := Regained(slots, status);
    FunctionalSubset(b.Keys, b.Keys + SpecSet(spec));
    BootPlan(b.Keys, spec, status, orphans);
    BootStore(initial, status, orphans);
    BootView(slots, status);
    assert s.queue[1..] == [];
    if inOrder {
      ValidGranted(slots, status);
      assert forall n :: 0 <= n <= |s.inflight| ==> s.inflight[..n] == [];
    }
    assert SysInv(initial, s, b.Keys, b, status, orphans, inOrder);
  }

  lemma BootView(slots: seq<Slot>, status: seq<IPSpec>)
    requires Written(status)
    ensures ViewOk(status, [], Regained(slots, status), KeySet(status) - Regained(slots, status).Keys)
  {
    KeySetIs(status);
    assert AppliedMapAll(StatusMap(status), []) == StatusMap(status);
  }

  /** All entries of a valid set of bindings are granted. */
  lemma ValidGranted(slots: seq<Slot>, list: seq<IPSpec>)
    requires UniqueKeys(list) && ValidBindings(slots, StatusMap(list))
    ensures Regained(slots, list) == StatusMap(list) && KeySet(list) <= Regained(slots, list).Keys
  {
    StatusMapIs(list);
    KeySetIs(list);
    forall k | k in StatusMap(list) ensures Claimed(slots, list, k) {
      var i :| 0 <= i < |list| && KeyOf(list[i]) == k;
      assert list[i] in list;
      forall j | 0 <= j < i ensures SlotOf(list[j]) != SlotOf(list[i]) {
        assert list[j] in list && KeyOf(list[j]) != KeyOf(list[i]);
      }
      assert Claims(slots, list, i);
    }
  }

  // ---------------------------------------------------------------- steps of a live resource

  lemma NotStarting(keys: set<HostSpec>, replays: seq<IPSpec>, reqs: seq<Request>, queue: seq<Event>,
                    spec: seq<HostSpec>, orphans: set<HostSpec>)
    requires PlanOk(keys, replays, reqs, queue, spec, orphans)
    ensures queue != [] ==> queue[0].Updated?
  {
  }

  /** Appending an update to the queue, the user's or a status write's echo. */
  lemma PlanAppend(s: Sys, keys: set<HostSpec>, replays: seq<IPSpec>, newSpec: seq<HostSpec>, orphans: set<HostSpec>)
    requires PlanOk(keys, replays, TodoReqs(s), TodoQueue(s), s.spec, orphans)
    requires Functional(SpecSet(newSpec) + orphans)
    ensures var t := s.(spec := newSpec, queue := s.queue + [Updated(s.spec, newSpec)]);
      && (Starting(t) <==> Starting(s))
      && PlanOk(keys, replays, TodoReqs(t), TodoQueue(t), newSpec, orphans - SpecSet(newSpec))
  {
    hide OkWalk, WalkKeys, Functional, QueueOk;
    var event, rest := Updated(s.spec, newSpec), TodoReqs(s)[|replays|..];
    OkWalkFewer(keys, rest, orphans, orphans - SpecSet(newSpec));
    QueueAppend(WalkKeys(keys, rest), TodoQueue(s), s.spec, newSpec, orphans);
    if Starting(s) {
      assert (s.queue + [event])[1..] == s.queue[1..] + [event];
    }
  }

  lemma EchoFunctional(s: Sys, keys: set<HostSpec>, replays: seq<IPSpec>, orphans: set<HostSpec>)
    requires PlanOk(keys, replays, TodoReqs(s), TodoQueue(s), s.spec, orphans)
    ensures SpecSet(s.spec) !! orphans && Functional(SpecSet(s.spec) + orphans)
  {
    hide Functional, OkWalk, WalkKeys, QueueOk;
    var rest := TodoReqs(s)[|replays|..];
    WalkFunctional(keys, rest, orphans);
    QueueDisjoint(WalkKeys(keys, rest), TodoQueue(s), s.spec, orphans);
  }

  lemma StepUpdate(initial: Core, s: Sys, t: Sys, newSpec: seq<HostSpec>, orphans: set<HostSpec>, inOrder: bool)
    requires Inv(initial, s, orphans, inOrder) && Next(initial, s, UserUpdate(newSpec), t)
    requires Functional(SpecSet(newSpec) + orphans)
    ensures Inv(initial, t, orphans - SpecSet(newSpec), inOrder)
  {
    hide PlanOk, ViewOk, Functional, ValidBindings, OwnerIs, Consistent, Due, Stages;
    var keys, b, replays :| SysInv(initial, s, keys, b, replays, orphans, inOrder);
    PlanAppend(s, keys, replays, newSpec, orphans);
    assert SysInv(initial, t, keys, b, replays, orphans - SpecSet(newSpec), inOrder);
  }

  /** At any moment the status is one that a restart may start from; with responses in order
      all its entries would be granted again. */
  lemma InvWritten(initial: Core, s: Sys, orphans: set<HostSpec>, inOrder: bool)
    requires Inv(initial, s, orphans, inOrder)
    ensures s.live && Written(s.status)
    ensures inOrder ==> ValidBindings(Slots(initial.tables.rows), StatusMap(s.status))
  {
    hide PlanOk, StoreOk, ValidBindings;
    var keys, b, replays :| SysInv(initial, s, keys, b, replays, orphans, inOrder);
    assert s.inflight[..0] == [];
    assert AppliedMapAll(StatusMap(s.status), []) == StatusMap(s.status);
  }

  lemma StepRestart(initial: Core, s: Sys, t: Sys, orphans: set<HostSpec>, inOrder: bool)
    requires Unused(initial)
    requires Inv(initial, s, orphans, inOrder) && Next(initial, s, Restart, t) && Unmoved(initial, s.spec, s.status)
    ensures Inv(initial, t, Orphans(initial, s.spec, s.status), inOrder)
  {
    hide Inv, Unmoved, Written, ValidBindings;
    InvWritten(initial, s, orphans, inOrder);
    BootInv(initial, s.spec, s.status, inOrder);
    assert t == Boot(initial, s.spec, s.status);
  }

  lemma PlanWork(keys: set<HostSpec>, replays: seq<IPSpec>, pending: seq<Request>, queue: seq<Event>,
                 spec: seq<HostSpec>, orphans: set<HostSpec>, reqs: seq<Request>)
    requires PlanOk(keys, replays, pending, queue, spec, orphans)
    requires queue != [] && Emits(queue[0], reqs)
    ensures PlanOk(keys, replays, pending + reqs, queue[1..], spec, orphans)
  {
    hide Functional, WalkKeys, OkWalk, Emits;
    var rest := pending[|replays|..];
    WalkFunctional(keys, rest, orphans);
    OkUpdate(WalkKeys(keys, rest), queue[0].was, queue[0].cur, reqs, orphans);
    OkWalkConcat(keys, rest, reqs, orphans);
    WalkConcat(keys, rest, reqs);
    assert (pending + reqs)[|replays|..] == rest + reqs;
    assert (pending + reqs)[..|replays|] == pending[..|replays|];
  }

  lemma StepWork(initial: Core, s: Sys, t: Sys, reqs: seq<Request>, orphans: set<HostSpec>, inOrder: bool)
    requires Inv(initial, s, orphans, inOrder) && Next(initial, s, Work(reqs), t)
    ensures Inv(initial, t, orphans, inOrder)
  {
    hide PlanOk, StoreOk, ViewOk, Functional, Stages;
    var keys, b, replays :| SysInv(initial, s, keys, b, replays, orphans, inOrder);
    assert SysInv(initial, s, keys, b, replays, orphans, inOrder);
    NotStarting(keys, replays, TodoReqs(s), TodoQueue(s), s.spec, orphans);
    if Starting(s) {
      assert [] + reqs == reqs;
      assert TodoReqs(t) == TodoReqs(s) && TodoQueue(t) == TodoQueue(s);
    } else {
      PlanWork(keys, replays, s.pending, s.queue, s.spec, orphans, reqs);
      NotStarting(keys, replays, s.pending + reqs, s.queue[1..], s.spec, orphans);
    }
    assert SysInv(initial, t, keys, b, replays, orphans, inOrder);
  }

  lemma StepServeReplay(initial: Core, s: Sys, t: Sys, keys: set<HostSpec>, b: Bindings, replays: seq<IPSpec>,
                        orphans: set<HostSpec>, inOrder: bool)
    requires SysInv(initial, s, keys, b, replays, orphans, inOrder) && Next(initial, s, Serve, t) && replays != []
    ensures SysInv(initial, t, keys, b, replays[1..], orphans, inOrder)
  {
    hide Functional, Handle, QueueOk, OkWalk, ViewOk, Stages, AppliedMap, Consistent, OwnerIs, ValidBindings;
    var slots, e := Slots(initial.tables.rows), replays[0];
    assert s.pending[0] == ReplayReq(e) by {
      assert s.pending[..|replays|][0] == Each(ReplayReq, replays)[0];
    }
    ServeReplay(slots, s.core, keys, b, replays, orphans);
    assert Due(slots, b, replays, 0);
    ReplayStage(slots, s.status, s.inflight, b, replays, inOrder);
    assert s.pending[1..][|replays| - 1..] == s.pending[|replays|..];
    assert s.pending[1..][..|replays| - 1] == Each(ReplayReq, replays[1..]) by {
      assert s.pending[1..][..|replays| - 1] == s.pending[..|replays|][1..];
    }
  }

  lemma ReplayStage(slots: seq<Slot>, status: seq<IPSpec>, inflight: seq<Response>, b: Bindings,
                    replays: seq<IPSpec>, inOrder: bool)
    requires ViewOk(status, inflight, b, KeySet(replays) - b.Keys)
    requires UniqueKeys(replays) && replays != [] && replays[0].ip != ""
    requires KeyOf(replays[0]) in b ==> b[KeyOf(replays[0])] == replays[0].ip
    requires inOrder ==> Stages(slots, status, inflight) && KeySet(replays) <= b.Keys
    ensures var r := Sent(Some(ReplayAnswer(b, replays[0])));
      && ViewOk(status, inflight + r, b, KeySet(replays[1..]) - b.Keys)
      && (inOrder ==> Stages(slots, status, inflight + r) && KeySet(replays[1..]) <= b.Keys)
  {
    hide ValidBindings, AppliedMap, AppliedMapAll, StatusMap, UniqueKeys;
    var m, r := AppliedMapAll(StatusMap(status), inflight), Some(ReplayAnswer(b, replays[0]));
    ReplayView(m, b, replays);
    KeySetTail(replays);
    ViewAppend(status, inflight, b, KeySet(replays) - b.Keys, r, b, KeySet(replays[1..]) - b.Keys);
    if inOrder {
      assert KeyOf(replays[0]) in KeySet(replays);
      assert inflight[..|inflight|] == inflight;
      StagesAppend(slots, status, inflight, r);
    }
  }

  lemma StepServePlain(initial: Core, s: Sys, t: Sys, keys: set<HostSpec>, b: Bindings,
                       orphans: set<HostSpec>, inOrder: bool)
    requires SysInv(initial, s, keys, b, [], orphans, inOrder) && Next(initial, s, Serve, t)
    ensures SysInv(initial, t, StepKeys(keys, s.pending[0]), AppliedSome(b, Handle(s.core, s.pending[0]).1), [],
                   orphans, inOrder)
  {
    hide StoreOk, ViewOk, Stages, Functional, Handle, QueueOk, AppliedSome;
    var slots, req := Slots(initial.tables.rows), s.pending[0];
    var (core1, r) := Handle(s.core, req);
    var b1 := AppliedSome(b, r);
    assert s.pending[0..] == s.pending && s.pending[1..][0..] == s.pending[1..];
    OkHead(keys, s.pending, orphans);
    ServePlain(slots, s.core, keys, b, req, orphans);
    StoreBindings(slots, core1, StepKeys(keys, req), b1, [], orphans);
    AnswerNotBlank(s.core, req);
    AnswersItself(s.core, req);
    assert KeySet([]) - b.Keys == {} && KeySet([]) - b1.Keys == {};
    PlainStage(slots, s.status, s.inflight, b, r, inOrder);
  }

  lemma PlainStage(slots: seq<Slot>, status: seq<IPSpec>, inflight: seq<Response>, b: Bindings,
                   r: Option<Response>, inOrder: bool)
    requires ViewOk(status, inflight, b, {}) && ValidBindings(slots, AppliedSome(b, r))
    requires r.Some? && r.value.req.op == Create && r.value.ok ==> r.value.ip != ""
    requires inOrder ==> Stages(slots, status, inflight)
    ensures ViewOk(status, inflight + Sent(r), AppliedSome(b, r), {})
    ensures inOrder ==> Stages(slots, status, inflight + Sent(r))
  {
    hide ValidBindings, AppliedSome, AppliedMapAll, StatusMap, UniqueKeys;
    var m := AppliedMapAll(StatusMap(status), inflight);
    assert m - {} == m;
    assert AppliedSome(b, r) - {} == AppliedSome(b, r);
    ViewAppend(status, inflight, b, {}, r, AppliedSome(b, r), {});
    if inOrder { StagesAppend(slots, status, inflight, r); }
  }

  lemma StepServe(initial: Core, s: Sys, t: Sys, orphans: set<HostSpec>, inOrder: bool)
    requires Inv(initial, s, orphans, inOrder) && Next(initial, s, Serve, t)
    ensures Inv(initial, t, orphans, inOrder)
  {
    hide SysInv, Next;
    var keys, b, replays :| SysInv(initial, s, keys, b, replays, orphans, inOrder);
    if replays != [] {
      StepServeReplay(initial, s, t, keys, b, replays, orphans, inOrder);
    } else {
      StepServePlain(initial, s, t, keys, b, orphans, inOrder);
    }
  }

  lemma OkHead(keys: set<HostSpec>, reqs: seq<Request>, orphans: set<HostSpec>)
    requires OkWalk(keys, reqs, orphans) && reqs != []
    ensures Functional(keys) && Functional(StepKeys(keys, reqs[0]))
  {
  }

  lemma StoreBindings(slots: seq<Slot>, core: Core, keys: set<HostSpec>, b: Bindings,
                      replays: seq<IPSpec>, orphans: set<HostSpec>)
    requires StoreOk(slots, core, keys, b, replays, orphans)
    ensures ValidBindings(slots, b)
  {
  }

  /** The echo of a status write changes nothing that matters. */
  lemma StepEcho(initial: Core, s: Sys, orphans: set<HostSpec>, inOrder: bool)
    requires Inv(initial, s, orphans, inOrder)
    ensures Inv(initial, s.(queue := s.queue + [Updated(s.spec, s.spec)]), orphans, inOrder)
  {
    hide PlanOk, StoreOk, ViewOk, Stages, Functional;
    var keys, b, replays :| SysInv(initial, s, keys, b, replays, orphans, inOrder);
    EchoFunctional(s, keys, replays, orphans);
    PlanAppend(s, keys, replays, s.spec, orphans);
    assert orphans - SpecSet(s.spec) == orphans;
    assert SysInv(initial, s.(queue := s.queue + [Updated(s.spec, s.spec)]), keys, b, replays, orphans, inOrder);
  }

  lemma StepDeliver(initial: Core, s: Sys, t: Sys, i: nat, notify: bool, orphans: set<HostSpec>, inOrder: bool)
    requires Inv(initial, s, orphans, inOrder) && Next(initial, s, Deliver(i, notify), t)
    requires OldestOfKey(s.inflight, i) && (inOrder ==> i == 0)
    ensures Inv(initial, t, orphans, inOrder)
  {
    hide PlanOk, StoreOk, ViewOk, Stages, Functional, Applied, DropAt;
    var keys, b, replays :| SysInv(initial, s, keys, b, replays, orphans, inOrder);
    assert SysInv(initial, s, keys, b, replays, orphans, inOrder);
    ViewUnique(s.status, s.inflight, b, KeySet(replays) - b.Keys);
    ViewDeliver(s.status, s.inflight, b, KeySet(replays) - b.Keys, i);
    if inOrder { StagesDeliver(Slots(initial.tables.rows), s.status, s.inflight); }
    var u := s.(status := Applied(s.status, s.inflight[i]), inflight := DropAt(s.inflight, i));
    assert SysInv(initial, u, keys, b, replays, orphans, inOrder);
    if notify { StepEcho(initial, u, orphans, inOrder); }
  }

  lemma ViewUnique(status: seq<IPSpec>, inflight: seq<Response>, b: Bindings, refused: set<HostSpec>)
    requires ViewOk(status, inflight, b, refused)
    ensures UniqueKeys(status)
  {
  }

  // ---------------------------------------------------------------- at rest

  /** What the user wants to read off a resource at rest: the list has no key twice, it has
      exactly the (host, CIDR, address) of a key of the spec whose host holds the address in
      the store, every such address is an allocated row of the CIDR, and the store holds
      nothing else. */
  ghost predicate Agrees(core: Core, keys: set<HostSpec>, status: seq<IPSpec>) {
    var t := core.tables;
    && UniqueKeys(status)
    && (forall k: HostSpec, ip ::
          IPSpec(k.host, k.cidr, ip) in status <==> k in keys && ARecord(ip, k.host) in t.records)
    && (forall e :: e in status ==> Row(e.ip, Allocated, e.cidr) in t.rows)
    && (forall r :: r in t.records ==> exists k :: k in keys && k.host == r.host)
  }

  /** Once everything is served, the bindings are what status and responses in flight say. */
  lemma ServedBindings(initial: Core, s: Sys, orphans: set<HostSpec>) returns (b: Bindings)
    requires Inv(initial, s, orphans, false) && s.queue == [] && s.pending == []
    ensures StoreOk(Slots(initial.tables.rows), s.core, SpecSet(s.spec) + orphans, b, [], orphans)
    ensures UniqueKeys(s.status) && b == AppliedMapAll(StatusMap(s.status), s.inflight)
    ensures s.core.cidrs == initial.cidrs
    ensures SpecSet(s.spec) !! orphans && Functional(SpecSet(s.spec) + orphans)
  {
    hide StoreOk, Functional, ValidBindings;
    var keys, b1, replays :| SysInv(initial, s, keys, b1, replays, orphans, false);
    assert SysInv(initial, s, keys, b1, replays, orphans, false);
    EchoFunctional(s, keys, replays, orphans);
    b := b1;
    assert KeySet([]) - b.Keys == {};
    var m := AppliedMapAll(StatusMap(s.status), s.inflight);
    assert m - {} == m;
  }

  lemma RestBindings(initial: Core, s: Sys, orphans: set<HostSpec>) returns (b: Bindings)
    requires Inv(initial, s, orphans, false) && Quiescent(s)
    ensures StoreOk(Slots(initial.tables.rows), s.core, SpecSet(s.spec) + orphans, b, [], orphans)
    ensures UniqueKeys(s.status) && b == StatusMap(s.status) && s.core.cidrs == initial.cidrs
    ensures SpecSet(s.spec) !! orphans && Functional(SpecSet(s.spec) + orphans)
  {
    hide Inv, StoreOk, Functional, StatusMap, UniqueKeys;
    b := ServedBindings(initial, s, orphans);
  }

  lemma RecordBound(owner: map<string, string>, b: Bindings, keys: set<HostSpec>, k: HostSpec, ip: string)
    requires OwnerIs(owner, b, {}) && b.Keys <= keys && Functional(keys) && k in keys
    ensures ip in owner && owner[ip] == k.host <==> k in b && b[k] == ip
  {
  }

  lemma RowAllocated(t: Tables, slot: Slot)
    requires Matched(t) && slot in Slots(t.rows) && slot.ip in Abs(t).owner
    ensures Row(slot.ip, Allocated, slot.cidr) in t.rows
  {
  }

  /** A status list agrees exactly when it lists the bindings. */
  lemma BoundAgreesIff(slots: seq<Slot>, core: Core, keys: set<HostSpec>, b: Bindings, orphans: set<HostSpec>,
                       status: seq<IPSpec>)
    requires StoreOk(slots, core, keys, b, [], orphans) && Functional(keys) && UniqueKeys(status)
    ensures Agrees(core, keys, status) <==> StatusMap(status) == b
  {
    hide Consistent, Functional, ValidBindings, OwnerIs, Abs, StatusMap, UniqueKeys;
    var records, owner, m := core.tables.records, Abs(core.tables).owner, StatusMap(status);
    StatusMapIs(status);
    ConsistentRecords(core);
    assert KeySet([]) == {};
    forall k: HostSpec, ip ensures k in keys && ARecord(ip, k.host) in records <==> k in b && b[k] == ip {
      if k in keys { RecordBound(owner, b, keys, k, ip); }
    }
    if Agrees(core, keys, status) {
      forall k, ip ensures Binds(m, k, ip) <==> Binds(b, k, ip) {
        assert IPSpec(k.host, k.cidr, ip) in status <==> k in keys && ARecord(ip, k.host) in records;
      }
      SameBindings(m, b);
    }
    if m == b {
      BoundRows(slots, core, b, status);
      forall r | r in records ensures exists k :: k in keys && k.host == r.host {
        assert r == ARecord(r.ip, r.host);
        var k := OwnerBinding(owner, b, r.ip);
      }
    }
  }

  predicate Binds(b: Bindings, k: HostSpec, ip: string) { k in b && b[k] == ip }

  lemma SameBindings(a: Bindings, b: Bindings)
    requires forall k, ip :: Binds(a, k, ip) <==> Binds(b, k, ip)
    ensures a == b
  {
    forall k | k in a ensures k in b && b[k] == a[k] { assert Binds(a, k, a[k]); }
    forall k | k in b ensures k in a && a[k] == b[k] { assert Binds(b, k, b[k]); }
  }

  lemma BoundRows(slots: seq<Slot>, core: Core, b: Bindings, status: seq<IPSpec>)
    requires Consistent(core) && Slots(core.tables.rows) == slots && ValidBindings(slots, b)
    requires OwnerIs(Abs(core.tables).owner, b, {}) && UniqueKeys(status) && StatusMap(status) == b
    ensures forall e :: e in status ==> Row(e.ip, Allocated, e.cidr) in core.tables.rows
  {
    hide Consistent, ValidBindings, Abs, StatusMap, UniqueKeys;
    StatusMapIs(status);
    ConsistentMatched(core);
    forall e | e in status ensures Row(e.ip, Allocated, e.cidr) in core.tables.rows {
      var k := KeyOf(e);
      assert k in b && b[k] == e.ip && k !in {};
      BoundSlot(slots, b, k);
      RowAllocated(core.tables, Slot(e.ip, e.cidr));
    }
  }

  /** At rest the status agrees with the store for the spec and the orphans together. */
  lemma RestAgrees(initial: Core, s: Sys, orphans: set<HostSpec>)
    requires Inv(initial, s, orphans, false) && Quiescent(s)
    ensures Agrees(s.core, SpecSet(s.spec) + orphans, s.status)
    ensures forall k :: k in orphans ==> k !in SpecSet(s.spec) && exists ip :: IPSpec(k.host, k.cidr, ip) in s.status
  {
    hide Inv, Consistent, Functional, ValidBindings, OwnerIs, SpecSet, Abs, Agrees, StatusMap, UniqueKeys;
    var b := RestBindings(initial, s, orphans);
    BoundAgreesIff(Slots(initial.tables.rows), s.core, SpecSet(s.spec) + orphans, b, orphans, s.status);
    StatusMapIs(s.status);
    forall k | k in orphans ensures k !in SpecSet(s.spec) && exists ip :: IPSpec(k.host, k.cidr, ip) in s.status {
      assert IPSpec(k.host, k.cidr, b[k]) in s.status;
    }
  }

  lemma ConsistentRecords(core: Core)
    requires Consistent(core)
    ensures forall ip, host :: ARecord(ip, host) in core.tables.records <==>
              ip in Abs(core.tables).owner && Abs(core.tables).owner[ip] == host
  {
    OwnerIn(core.tables.records);
  }

  lemma BoundSlot(slots: seq<Slot>, b: Bindings, k: HostSpec)
    requires ValidBindings(slots, b) && k in b
    ensures Slot(b[k], k.cidr) in slots
  {
  }

  lemma OwnerBinding(owner: map<string, string>, b: Bindings, ip: string) returns (k: HostSpec)
    requires OwnerIs(owner, b, {}) && ip in owner
    ensures k in b && b[k] == ip && owner[ip] == k.host
  {
    k :| k in b && k !in {} && b[k] == ip;
  }
}
