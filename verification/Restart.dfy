/** A restart is invisible: replaying the status rebuilds a store that answers alike. */
module Restart {
  import opened Wrappers
  import opened Store
  import opened Provider
  import opened Controller
  import opened Pool
  import opened Laws
  import opened Orchestrator
  import opened Status

  /** Status entries that name slots, no address twice. */
  ghost predicate Replayable(slots: seq<Slot>, list: seq<IPSpec>) {
    && (forall e :: e in list ==> Slot(e.ip, e.cidr) in slots)
    && (forall i, j :: 0 <= i < j < |list| ==> list[i].ip != list[j].ip)
  }

  function OkReplay(e: IPSpec): Response { Response(ReplayReq(e), e.ip, true) }

  function RecordOf(e: IPSpec): ARecord { ARecord(e.ip, e.host) }

  lemma TableReplay(t: Tables, e: IPSpec)
    requires Matched(t) && Slot(e.ip, e.cidr) in Slots(t.rows) && e.ip !in Owner(t.records)
    ensures var (t1, r) := TableHandle(t, ReplayReq(e));
      t1.records == t.records + [RecordOf(e)] && r == Some(OkReplay(e))
  {
  }

  /** Replaying an entry whose address is free adds its record and succeeds. */
  lemma ReplayStep(core: Core, e: IPSpec)
    requires Consistent(core) && Slot(e.ip, e.cidr) in Slots(core.tables.rows) && e.ip !in Owner(core.tables.records)
    ensures var (core1, r) := Handle(core, ReplayReq(e));
      && Consistent(core1) && core1.cidrs == core.cidrs && Slots(core1.tables.rows) == Slots(core.tables.rows)
      && core1.tables.records == core.tables.records + [RecordOf(e)]
      && r == Some(OkReplay(e))
  {
    hide Handle, Usable, TableHandle, Matched;
    GuardsTransparent(core, ReplayReq(e));
    HandleRefines(core, ReplayReq(e));
    HandleKeepsSlots(core, ReplayReq(e));
    ConsistentMatched(core);
    TableReplay(core.tables, e);
  }

  lemma RecordsDistinct(list: seq<IPSpec>)
    requires forall i, j :: 0 <= i < j < |list| ==> list[i].ip != list[j].ip
    ensures DistinctIps(Each(RecordOf, list))
  {
  }

  /** Replaying into an unused store of the same ranges leaves one record per entry, in order,
      and every replay succeeds with its own address. */
  lemma {:induction false} ReplayStore(initial: Core, list: seq<IPSpec>, n: nat)
    requires Consistent(initial) && initial.tables.records == [] && n <= |list|
    requires Replayable(Slots(initial.tables.rows), list)
    ensures var (core1, rs) := HandleAll(initial, Each(ReplayReq, list)[..n]);
      && Consistent(core1) && core1.cidrs == initial.cidrs
      && Slots(core1.tables.rows) == Slots(initial.tables.rows)
      && core1.tables.records == Each(RecordOf, list)[..n]
      && rs == Each(OkReplay, list)[..n]
    decreases n
  {
    hide Handle, Usable, Consistent, HandleAll;
    if n > 0 {
      ReplayStore(initial, list, n - 1);
      var reqs := Each(ReplayReq, list);
      var core0 := HandleAll(initial, reqs[..n - 1]).0;
      HandleAllSnoc(initial, reqs, n - 1);
      var e := list[n - 1];
      assert e in list;
      Unclaimed(list, n - 1);
      ReplayStep(core0, e);
      assert Each(RecordOf, list)[..n] == Each(RecordOf, list)[..n - 1] + [RecordOf(e)];
      assert Each(OkReplay, list)[..n] == Each(OkReplay, list)[..n - 1] + [OkReplay(e)];
    } else {
      assert Each(ReplayReq, list)[..0] == [];
      NothingHandled(initial);
    }
  }

  lemma NothingHandled(core: Core)
    ensures HandleAll(core, []) == (core, [])
  {
  }

  lemma Unclaimed(list: seq<IPSpec>, n: nat)
    requires forall i, j :: 0 <= i < j < |list| ==> list[i].ip != list[j].ip
    requires n < |list|
    ensures list[n].ip !in Owner(Each(RecordOf, list)[..n])
  {
    var records := Each(RecordOf, list);
    RecordsDistinct(list);
    assert forall i :: 0 <= i < n ==> records[..n][i] == records[i] && records[i].ip != list[n].ip;
    OwnerIn(records[..n]);
  }

  /** The status lists exactly the store's records. */
  ghost predicate ListsBindings(core: Core, list: seq<IPSpec>) {
    forall r :: r in core.tables.records <==> r in Each(RecordOf, list)
  }

  /** The same rows, and the same records up to their order. */
  ghost predicate Same(a: Tables, b: Tables) {
    a.rows == b.rows && forall r :: r in a.records <==> r in b.records
  }

  lemma SameOwners(a: Tables, b: Tables)
    requires Matched(a) && Matched(b) && Slots(a.rows) == Slots(b.rows)
    requires forall r :: r in a.records <==> r in b.records
    ensures Same(a, b) && Abs(a) == Abs(b)
  {
    OwnerIn(a.records);
    OwnerIn(b.records);
    assert Owner(a.records) == Owner(b.records);
    assert |a.rows| == |Slots(a.rows)| == |b.rows|;
    forall i | 0 <= i < |a.rows| ensures a.rows[i] == b.rows[i] {
      assert Slots(a.rows)[i] == Slots(b.rows)[i];
      assert a.rows[i].status == Allocated <==> b.rows[i].status == Allocated;
    }
  }

  /** Stores that are the same up to the order of their records answer every later run of
      requests alike. */
  lemma SameAnswers(a: Core, b: Core, reqs: seq<Request>)
    requires Consistent(a) && Consistent(b) && Abs(a.tables) == Abs(b.tables)
    ensures HandleAll(a, reqs).1 == HandleAll(b, reqs).1
    ensures Abs(HandleAll(a, reqs).0.tables) == Abs(HandleAll(b, reqs).0.tables)
  {
    hide Consistent, Abs, HandleAll;
    HandleAllRefines(a, reqs);
    HandleAllRefines(b, reqs);
  }

  /** Exactly when a replayed status rebuilds a store: it lists that store's records, no more
      and no fewer. */
  lemma ReplayExactIff(core: Core, initial: Core, list: seq<IPSpec>)
    requires Consistent(core) && Consistent(initial) && initial.tables.records == []
    requires Slots(initial.tables.rows) == Slots(core.tables.rows)
    requires Replayable(Slots(initial.tables.rows), list)
    ensures Same(HandleAll(initial, Each(ReplayReq, list)).0.tables, core.tables) <==> ListsBindings(core, list)
    ensures ListsBindings(core, list) ==>
      Abs(HandleAll(initial, Each(ReplayReq, list)).0.tables) == Abs(core.tables)
  {
    hide HandleAll, Consistent, Replayable;
    var reqs := Each(ReplayReq, list);
    ReplayStore(initial, list, |list|);
    assert reqs[..|list|] == reqs;
    assert Each(RecordOf, list)[..|list|] == Each(RecordOf, list);
    var core1 := HandleAll(initial, reqs).0;
    ConsistentMatched(core1);
    ConsistentMatched(core);
    if ListsBindings(core, list) {
      SameOwners(core1.tables, core.tables);
    }
  }

  // ---------------------------------------------------------------- the spec CREATEs that follow

  lemma PutIdle(list: seq<IPSpec>, e: IPSpec)
    requires UniqueKeys(list) && e in list
    ensures Put(list, KeyOf(e), e.ip) == list
  {
  }

  /** A success that repeats what an entry already says. */
  predicate Echo(r: Response, list: seq<IPSpec>) {
    r.req.op == Create && r.ok && IPSpec(r.req.host, r.req.cidr, r.ip) in list
  }

  lemma {:induction false} EchoesIdle(list: seq<IPSpec>, rs: seq<Response>)
    requires UniqueKeys(list) && forall r :: r in rs ==> Echo(r, list)
    ensures AppliedAll(list, rs) == list
    decreases |rs|
  {
    if rs != [] {
      var n := |rs| - 1;
      assert forall r :: r in rs[..n] ==> r in rs;
      EchoesIdle(list, rs[..n]);
      var r := rs[n];
      assert r in rs;
      PutIdle(list, IPSpec(r.req.host, r.req.cidr, r.ip));
    }
  }

  ghost predicate Entered(list: seq<IPSpec>, s: HostSpec) { exists e :: e in list && KeyOf(e) == s }

  /** The host owns just the address its entry shows, or has no entry and owns nothing. */
  ghost predicate Held(p: Pool, list: seq<IPSpec>, s: HostSpec) {
    || (exists e :: e in list && KeyOf(e) == s && OwnedBy(p, s.host) == {e.ip})
    || (!Entered(list, s) && OwnedBy(p, s.host) == {})
  }

  /** No spec without an entry, so refused before, would be granted an address now. */
  ghost predicate NothingToRetry(p: Pool, list: seq<IPSpec>, specs: seq<HostSpec>) {
    forall s :: s in specs && !Entered(list, s) ==> FreeIps(p, s.cidr) == {}
  }

  /** Every spec with an entry is answered with that entry's address, and nothing else is said. */
  ghost predicate Echoed(list: seq<IPSpec>, specs: seq<HostSpec>, rs: seq<Response>) {
    && (forall r :: r in rs ==> Echo(r, list))
    && (forall e :: e in list && KeyOf(e) in specs ==> Response(CreateReq(KeyOf(e)), e.ip, true) in rs)
    && ((forall s :: s in specs ==> Entered(list, s)) ==> |rs| == |specs|)
  }

  lemma {:induction false} PlainCreatesKeep(p: Pool, reqs: seq<Request>, ip: string)
    requires forall r :: r in reqs ==> PlainCreate(r)
    requires ip in p.owner
    ensures ip in PoolHandleAll(p, reqs).0.owner
    decreases |reqs|
  {
    if reqs != [] {
      assert reqs[0] in reqs;
      PlainCreatesKeep(PoolHandle(p, reqs[0]).0, reqs[1..], ip);
    }
  }

  /** One CREATE of a restart: an echo, a second refusal, or a grant that was refused before. */
  lemma CreateAgain(p: Pool, list: seq<IPSpec>, s: HostSpec)
    requires Held(p, list, s) && forall e, f :: e in list && f in list && e.host == f.host ==> e == f
    ensures var (p1, r) := PoolHandle(p, CreateReq(s));
      if Entered(list, s) then
        p1 == p && exists e :: e in list && KeyOf(e) == s && r == Some(Response(CreateReq(s), e.ip, true))
      else if FreeIps(p, s.cidr) == {} then p1 == p && r == None
      else exists ip :: ip in p1.owner && ip !in p.owner
  {
    if e :| e in list && KeyOf(e) == s && OwnedBy(p, s.host) == {e.ip} {
      assert Least({e.ip}) == e.ip;
      assert PoolHandle(p, CreateReq(s)) == (p, Some(Response(CreateReq(s), e.ip, true)));
    } else {
      assert OwnedBy(p, s.host) == {};
      if NextIp(p, s.cidr).Some? {
        NextIpOpen(p, s.cidr);
        assert NextIp(p, s.cidr).value in PoolHandle(p, CreateReq(s)).0.owner;
      }
    }
  }

  /** The CREATEs of a restart move nothing exactly when there is nothing to retry. */
  lemma {:induction false} CreatesIdleIff(p: Pool, list: seq<IPSpec>, specs: seq<HostSpec>)
    requires forall s :: s in specs ==> Held(p, list, s)
    requires forall e, f :: e in list && f in list && e.host == f.host ==> e == f
    ensures var (p1, rs) := PoolHandleAll(p, Each(CreateReq, specs));
      && (p1 == p <==> NothingToRetry(p, list, specs))
      && (NothingToRetry(p, list, specs) ==> Echoed(list, specs, rs))
    decreases |specs|
  {
    hide PoolHandle, Held, FreeIps, OwnedBy, Echoed, Entered;
    if specs == [] {
      NothingEchoed(list);
    } else {
      var s, tail, creates := specs[0], specs[1..], Each(CreateReq, specs);
      assert specs == [s] + tail;
      assert s in specs && forall x :: x in tail ==> x in specs;
      CreateAgain(p, list, s);
      assert creates[1..] == Each(CreateReq, tail);
      var (p1, r) := PoolHandle(p, creates[0]);
      if !Entered(list, s) && FreeIps(p, s.cidr) != {} {
        var ip :| ip in p1.owner && ip !in p.owner;
        PlainCreatesKeep(p1, creates[1..], ip);
        assert !NothingToRetry(p, list, specs);
      } else {
        CreatesIdleIff(p, list, tail);
        if NothingToRetry(p, list, tail) {
          EchoedMore(list, s, tail, r, PoolHandleAll(p, Each(CreateReq, tail)).1);
        }
      }
    }
  }

  lemma NothingEchoed(list: seq<IPSpec>)
    ensures Echoed(list, [], [])
  {
  }

  lemma EchoedMore(list: seq<IPSpec>, s: HostSpec, tail: seq<HostSpec>, r: Option<Response>, rest: seq<Response>)
    requires forall e, f :: e in list && f in list && e.host == f.host ==> e == f
    requires if Entered(list, s) then
               exists e :: e in list && KeyOf(e) == s && r == Some(Response(CreateReq(s), e.ip, true))
             else r == None
    requires Echoed(list, tail, rest)
    ensures Echoed(list, [s] + tail, Sent(r) + rest)
  {
    forall e | e in list && KeyOf(e) in [s] + tail
      ensures Response(CreateReq(KeyOf(e)), e.ip, true) in Sent(r) + rest
    {
      if KeyOf(e) != s { assert KeyOf(e) in tail; }
    }
    if forall x :: x in [s] + tail ==> Entered(list, x) {
      assert s in [s] + tail;
      forall x | x in tail ensures Entered(list, x) { assert x in [s] + tail; }
    }
  }

  lemma AnswersIdle(list: seq<IPSpec>, specs: seq<HostSpec>, more: seq<Response>)
    requires UniqueKeys(list) && Echoed(list, specs, more)
    ensures var rs := Each(OkReplay, list) + more;
      Each(OkReplay, list) <= rs && rs[|list|..] == more && AppliedAll(list, rs) == list
  {
    hide Echo, UniqueKeys;
    OkReplaysEcho(list);
    EchoesIdle(list, Each(OkReplay, list) + more);
  }

  /** Every later run of requests is answered alike. */
  ghost predicate AnswersAlike(a: Core, b: Core) {
    forall reqs :: HandleAll(a, reqs).1 == HandleAll(b, reqs).1
  }

  lemma SameForever(a: Core, b: Core)
    requires Consistent(a) && Consistent(b) && Abs(a.tables) == Abs(b.tables)
    ensures AnswersAlike(a, b)
  {
    hide Consistent, Abs, HandleAll;
    forall reqs ensures HandleAll(a, reqs).1 == HandleAll(b, reqs).1 {
      SameAnswers(a, b, reqs);
    }
  }

  /** The whole restart. Replaying a status that lists the store's bindings, then the CREATEs
      of a spec that keeps those hosts where they are, rebuilds the same rows and records
      exactly when no spec without an entry has a free address in its CIDR. Then the rebuilt
      store answers every later run of requests as the old one would, each entry and each spec
      with an entry is answered with the address the entry shows, and delivering it all leaves
      the list as it is. */
  lemma RestartTransparent(core: Core, initial: Core, list: seq<IPSpec>, specs: seq<HostSpec>)
    requires Consistent(core) && Consistent(initial) && initial.tables.records == []
    requires Slots(initial.tables.rows) == Slots(core.tables.rows)
    requires Replayable(Slots(initial.tables.rows), list) && UniqueKeys(list)
    requires ListsBindings(core, list)
    requires forall e, f :: e in list && f in list && e.host == f.host ==> e == f
    requires forall s, e :: s in specs && e in list && s.host == e.host ==> KeyOf(e) == s
    ensures var (core1, rs) := HandleAll(initial, Each(ReplayReq, list) + Each(CreateReq, specs));
      && (Same(core1.tables, core.tables) <==> NothingToRetry(Abs(core.tables), list, specs))
      && (NothingToRetry(Abs(core.tables), list, specs) ==>
            && AnswersAlike(core1, core)
            && Each(OkReplay, list) <= rs && Echoed(list, specs, rs[|list|..])
            && AppliedAll(list, rs) == list)
  {
    hide HandleAll, Consistent, Replayable, ListsBindings, Same, Abs, AppliedAll, Each, OwnedBy, UniqueKeys,
         NothingToRetry, Held, Echo, Echoed, KeyOf, Slots, AnswersAlike;
    var replays, creates := Each(ReplayReq, list), Each(CreateReq, specs);
    Replayed(core, initial, list);
    var core0 := HandleAll(initial, replays).0;
    SpecsHeld(core, list, specs);
    HandleAllConcat(initial, replays, creates);
    CreatesUnmoved(core0, core, list, specs);
    var (core1, rs) := HandleAll(initial, replays + creates);
    if NothingToRetry(Abs(core.tables), list, specs) {
      SameForever(core1, core);
      AnswersIdle(list, specs, HandleAll(core0, creates).1);
    }
  }

  lemma Replayed(core: Core, initial: Core, list: seq<IPSpec>)
    requires Consistent(core) && Consistent(initial) && initial.tables.records == []
    requires Slots(initial.tables.rows) == Slots(core.tables.rows)
    requires Replayable(Slots(initial.tables.rows), list) && ListsBindings(core, list)
    ensures var (core0, rs) := HandleAll(initial, Each(ReplayReq, list));
      && Consistent(core0) && Slots(core0.tables.rows) == Slots(core.tables.rows)
      && Abs(core0.tables) == Abs(core.tables)
      && rs == Each(OkReplay, list)
  {
    hide HandleAll, Consistent, Replayable, ListsBindings, Same, Abs;
    ReplayStore(initial, list, |list|);
    assert Each(ReplayReq, list)[..|list|] == Each(ReplayReq, list);
    assert Each(OkReplay, list)[..|list|] == Each(OkReplay, list);
    ReplayExactIff(core, initial, list);
  }

  lemma OkReplaysEcho(list: seq<IPSpec>)
    ensures forall r :: r in Each(OkReplay, list) ==> Echo(r, list)
  {
  }

  lemma CreatesUnmoved(core0: Core, core: Core, list: seq<IPSpec>, specs: seq<HostSpec>)
    requires Consistent(core0) && Consistent(core) && Abs(core0.tables) == Abs(core.tables)
    requires forall s :: s in specs ==> Held(Abs(core.tables), list, s)
    requires forall e, f :: e in list && f in list && e.host == f.host ==> e == f
    ensures var (core1, rs) := HandleAll(core0, Each(CreateReq, specs));
      && Consistent(core1)
      && (Same(core1.tables, core.tables) <==> NothingToRetry(Abs(core.tables), list, specs))
      && (NothingToRetry(Abs(core.tables), list, specs) ==>
            Abs(core1.tables) == Abs(core.tables) && Echoed(list, specs, rs))
  {
    hide HandleAll, Consistent, PoolHandleAll, Abs, Same, Matched, Echoed, NothingToRetry, Held;
    var creates := Each(CreateReq, specs);
    HandleAllRefines(core0, creates);
    CreatesIdleIff(Abs(core.tables), list, specs);
    var core1 := HandleAll(core0, creates).0;
    ConsistentMatched(core1);
    ConsistentMatched(core);
    RowsConserved(core0, creates);
    SlotsOfAbs(core0.tables, core.tables);
    SameIffAbs(core1.tables, core.tables);
  }

  lemma SlotsOfAbs(a: Tables, b: Tables)
    requires Abs(a) == Abs(b)
    ensures Slots(a.rows) == Slots(b.rows)
  {
    assert Abs(a).slots == Slots(a.rows) && Abs(b).slots == Slots(b.rows);
  }

  lemma SameIffAbs(a: Tables, b: Tables)
    requires Matched(a) && Matched(b) && Slots(a.rows) == Slots(b.rows)
    ensures Same(a, b) <==> Abs(a) == Abs(b)
  {
    hide Matched;
    if Abs(a) == Abs(b) { AbsRecords(a, b); }
    if forall r :: r in a.records <==> r in b.records { SameOwners(a, b); }
  }

  lemma AbsRecords(a: Tables, b: Tables)
    requires Matched(a) && Matched(b) && Abs(a) == Abs(b)
    ensures Slots(a.rows) == Slots(b.rows) && forall r :: r in a.records <==> r in b.records
  {
    OwnerIn(a.records);
    OwnerIn(b.records);
    assert Abs(a).slots == Slots(a.rows) && Abs(b).slots == Slots(b.rows);
    forall r ensures r in a.records <==> r in b.records {
      assert r == ARecord(r.ip, r.host);
    }
  }

  lemma SpecsHeld(core: Core, list: seq<IPSpec>, specs: seq<HostSpec>)
    requires Consistent(core) && ListsBindings(core, list)
    requires forall e, f :: e in list && f in list && e.host == f.host ==> e == f
    requires forall s, e :: s in specs && e in list && s.host == e.host ==> KeyOf(e) == s
    ensures forall s :: s in specs ==> Held(Abs(core.tables), list, s)
  {
    hide Usable, WellFormed, Owner, UniqueKeys;
    OwnerIn(core.tables.records);
    var records := Each(RecordOf, list);
    forall s | s in specs ensures Held(Abs(core.tables), list, s) {
      var held := OwnedBy(Abs(core.tables), s.host);
      forall ip | ip in held ensures exists e :: e in list && KeyOf(e) == s && e.ip == ip {
        assert ARecord(ip, s.host) in records;
        var j :| 0 <= j < |list| && records[j] == ARecord(ip, s.host);
        assert list[j] in list && list[j].host == s.host;
      }
      if e :| e in list && KeyOf(e) == s {
        var i :| 0 <= i < |list| && list[i] == e;
        assert records[i] == ARecord(e.ip, e.host) && records[i] in records;
        assert held == {e.ip};
      }
    }
  }
}
