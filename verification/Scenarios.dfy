/** What one more event does to a system at rest. */
module Scenarios {
  import opened Store
  import opened Provider
  import opened Controller
  import opened Pool
  import opened Laws
  import opened Orchestrator
  import opened Status
  import opened System
  import opened Agreement
  import Restart

  lemma {:induction false} AskedPositive(reqs: seq<Request>, r: Request)
    requires r in reqs
    ensures Asked(reqs, r.host) > 0
    decreases |reqs|
  {
    if reqs[0] != r {
      assert r in reqs[1..];
      AskedPositive(reqs[1..], r);
    }
  }

  /** Each host of functional bindings owns its one address or nothing. */
  lemma OwnsAtMostOne(core: Core, keys: set<HostSpec>, b: Bindings, h: string)
    requires OwnerIs(Abs(core.tables).owner, b, {}) && b.Keys <= keys && Functional(keys)
    ensures |OwnedBy(Abs(core.tables), h)| <= 1
    ensures forall ip :: ip in OwnedBy(Abs(core.tables), h) ==>
              exists k :: k in b && k.host == h && b[k] == ip && OwnedBy(Abs(core.tables), h) == {ip}
  {
    hide Abs;
    var p := Abs(core.tables);
    var held := OwnedBy(p, h);
    forall ip | ip in held
      ensures exists k :: k in b && k.host == h && b[k] == ip && held == {ip}
    {
      var k := OwnerBinding(p.owner, b, ip);
      assert keys + {k} == keys;
      HeldIs(p.owner, b, k, p.slots, keys);
      assert k in b && k.host == h && b[k] == ip && held == {ip};
    }
    if held != {} {
      var ip :| ip in held;
      assert held == {ip};
    }
  }

  lemma RestStore(initial: Core, s: Sys, orphans: set<HostSpec>) returns (b: Bindings)
    requires Inv(initial, s, orphans, false) && Quiescent(s)
    ensures var keys := SpecSet(s.spec) + orphans;
      && Consistent(s.core) && Slots(s.core.tables.rows) == Slots(initial.tables.rows)
      && s.core.cidrs == initial.cidrs
      && b.Keys <= keys && Functional(keys) && OwnerIs(Abs(s.core.tables).owner, b, {})
      && UniqueKeys(s.status) && b == StatusMap(s.status)
  {
    hide Inv, Consistent, Functional, OwnerIs, ValidBindings, Abs;
    b := RestBindings(initial, s, orphans);
    assert KeySet([]) == {};
  }

  /** How many entries of a list name a host. */
  function EntriesOf(list: seq<IPSpec>, h: string): nat {
    if list == [] then 0 else (if list[0].host == h then 1 else 0) + EntriesOf(list[1..], h)
  }

  lemma {:induction false} AskedIsEntries(list: seq<IPSpec>, h: string)
    ensures Asked(Each(TeardownReq, list), h) == EntriesOf(list, h)
    decreases |list|
  {
    if list != [] {
      assert Each(TeardownReq, list)[1..] == Each(TeardownReq, list[1..]);
      AskedIsEntries(list[1..], h);
    }
  }

  /** A copy of the status lists each host at least as often as the host has records. */
  ghost predicate Covered(core: Core, list: seq<IPSpec>) {
    forall h :: CountHost(core.tables.records, h) <= EntriesOf(list, h)
  }

  /** Exactly when a teardown gives everything back, for the store at the moment its own
      requests start and any copy of the status: the copy covers the store. */
  lemma TeardownIff(initial: Core, core: Core, list: seq<IPSpec>)
    requires Unused(initial) && Consistent(core)
    requires Slots(core.tables.rows) == Slots(initial.tables.rows) && core.cidrs == initial.cidrs
    ensures HandleAll(core, Each(TeardownReq, list)).0 == initial
       <==> Covered(core, list)
  {
    hide Consistent, HandleAll, Matched, LeastIp, CountHost, EntriesOf, Each, Abs;
    var core1 := HandleAll(core, Each(TeardownReq, list)).0;
    HandleAllRefines(core, Each(TeardownReq, list));
    RowsConserved(core, Each(TeardownReq, list));
    ConsistentMatched(core1);
    ConsistentMatched(initial);
    if core1.tables.records == [] {
      Restart.SameOwners(core1.tables, initial.tables);
      assert core1.tables == initial.tables;
      forall h ensures CountHost(core.tables.records, h) <= EntriesOf(list, h) {
        TeardownHost(core, list, h);
        NoRecords(core1.tables, h);
      }
    } else {
      var h := core1.tables.records[0].host;
      TeardownHost(core, list, h);
      HasRecord(core1.tables);
      assert !(CountHost(core.tables.records, h) <= EntriesOf(list, h));
    }
  }

  lemma TeardownHost(core: Core, list: seq<IPSpec>, h: string)
    requires Consistent(core)
    ensures LeastIp(HandleAll(core, Each(TeardownReq, list)).0.tables.records, h) == ""
       <==> CountHost(core.tables.records, h) <= EntriesOf(list, h)
  {
    hide Consistent, HandleAll, LeastIp, CountHost, EntriesOf;
    TeardownsDelete(list);
    DrainedIff(core, Each(TeardownReq, list), h);
    AskedIsEntries(list, h);
  }

  lemma NoRecords(t: Tables, h: string)
    requires Matched(t) && t.records == []
    ensures LeastIp(t.records, h) == ""
  {
  }

  lemma HasRecord(t: Tables)
    requires Matched(t) && t.records != []
    ensures LeastIp(t.records, t.records[0].host) != ""
  {
    hide Matched, Owner, LeastIp;
    var r := t.records[0];
    RecordOwned(t, r);
    LeastIpIsLeast(t, r.host);
    assert r.ip in OwnedBy(Abs(t), r.host);
  }

  lemma TeardownsDelete(list: seq<IPSpec>)
    ensures AllDeletes(Each(TeardownReq, list))
  {
  }

  lemma RestEntries(initial: Core, s: Sys, orphans: set<HostSpec>, h: string)
    requires Inv(initial, s, orphans, false) && Quiescent(s)
    ensures CountHost(s.core.tables.records, h) <= EntriesOf(s.status, h)
  {
    hide Inv, Functional, OwnerIs, StatusMap, UniqueKeys, EntriesOf, Usable, Asked;
    var b := RestStore(initial, s, orphans);
    var p := Abs(s.core.tables);
    CountHostOwned(s.core.tables.records, h);
    assert OwnedBy(p, h) == OwnedBy(Pool([], p.owner), h);
    OwnsAtMostOne(s.core, SpecSet(s.spec) + orphans, b, h);
    if ip :| ip in OwnedBy(p, h) {
      var k :| k in b && k.host == h && b[k] == ip;
      AskedBound(s.status, k);
      AskedIsEntries(s.status, h);
    }
  }

  lemma AskedBound(status: seq<IPSpec>, k: HostSpec)
    requires UniqueKeys(status) && k in StatusMap(status)
    ensures Asked(Each(TeardownReq, status), k.host) > 0
  {
    hide UniqueKeys, Asked, StatusMap;
    StatusMapIs(status);
    var e := IPSpec(k.host, k.cidr, StatusMap(status)[k]);
    var i :| 0 <= i < |status| && status[i] == e;
    assert Each(TeardownReq, status)[i] == TeardownReq(e);
    AskedPositive(Each(TeardownReq, status), TeardownReq(e));
  }

  /** The teardown of a resource at rest gives every address back: the store is the
      configured one again, row for row. */
  lemma TeardownReclaims(initial: Core, s: Sys, orphans: set<HostSpec>)
    requires Unused(initial) && Inv(initial, s, orphans, false) && Quiescent(s)
    ensures HandleAll(s.core, Each(TeardownReq, s.status)).0 == initial
  {
    hide Inv, Consistent, HandleAll, CountHost, EntriesOf;
    var _ := RestStore(initial, s, orphans);
    RestCovered(initial, s, orphans);
    TeardownIff(initial, s.core, s.status);
  }

  lemma RestCovered(initial: Core, s: Sys, orphans: set<HostSpec>)
    requires Inv(initial, s, orphans, false) && Quiescent(s)
    ensures Covered(s.core, s.status)
  {
    hide Inv, CountHost, EntriesOf;
    forall h ensures CountHost(s.core.tables.records, h) <= EntriesOf(s.status, h) {
      RestEntries(initial, s, orphans, h);
    }
  }

  /** Whatever the queued events turn into, once all that is asked for so far is served, the
      status as it stands now covers the store. */
  ghost predicate Drains(s: Sys) {
    forall reqs :: EmitsAll(s.queue, reqs) ==> Covered(HandleAll(s.core, s.pending + reqs).0, s.status)
  }

  /** At rest that is always so. */
  lemma RestDrains(initial: Core, s: Sys, orphans: set<HostSpec>)
    requires Inv(initial, s, orphans, false) && Quiescent(s)
    ensures Drains(s)
  {
    hide Inv, Covered, Handle;
    RestCovered(initial, s, orphans);
    assert s.pending + [] == [];
  }

  lemma RecordOwned(t: Tables, r: ARecord)
    requires Matched(t) && r in t.records
    ensures r.ip in Owner(t.records) && Owner(t.records)[r.ip] == r.host
  {
    OwnerIn(t.records);
  }

  lemma {:induction false} DeletesAnswered(core: Core, reqs: seq<Request>)
    requires AllDeletes(reqs)
    ensures |HandleAll(core, reqs).1| == |reqs|
    decreases |reqs|
  {
    hide Manager.RecordDeleted, Manager.AddressReleased;
    if reqs != [] {
      assert reqs[0] in reqs;
      assert forall r :: r in reqs[1..] ==> r in reqs;
      DeletesAnswered(Handle(core, reqs[0]).0, reqs[1..]);
    }
  }

  /** The hosts an update creates own nothing, or are deleted by the same update. */
  lemma UpdateHosts(core: Core, was: seq<HostSpec>, cur: seq<HostSpec>, gone: seq<HostSpec>, come: seq<HostSpec>,
                    b: Bindings, k: HostSpec)
    requires Lists(gone, SpecSet(was) - SpecSet(cur)) && Lists(come, SpecSet(cur) - SpecSet(was)) && k in come
    requires OwnerIs(Abs(core.tables).owner, b, {}) && b.Keys <= SpecSet(was)
    requires Functional(SpecSet(was)) && Functional(SpecSet(cur))
    ensures OwnedBy(Abs(core.tables), k.host) == {} || Asked(Each(DeleteReq, gone), k.host) > 0
  {
    hide Abs;
    OwnsAtMostOne(core, SpecSet(was), b, k.host);
    if ip :| ip in OwnedBy(Abs(core.tables), k.host) {
      var l :| l in b && l.host == k.host && b[l] == ip;
      assert l in SpecSet(was) && k in SpecSet(cur) - SpecSet(was);
      assert l in gone;
      var i :| 0 <= i < |gone| && gone[i] == l;
      assert Each(DeleteReq, gone)[i] == DeleteReq(l);
      AskedPositive(Each(DeleteReq, gone), DeleteReq(l));
    }
  }

  lemma {:induction false} AllNeedy(p: Pool, deletes: seq<Request>, creates: seq<Request>)
    requires forall r :: r in creates ==> OwnedBy(p, r.host) == {} || Asked(deletes, r.host) > 0
    ensures Needy(p, deletes, creates) == creates
    decreases |creates|
  {
    hide OwnedBy;
    if creates != [] {
      AllNeedy(p, deletes, creates[1..]);
      assert creates == [creates[0]] + creates[1..];
    }
  }

  /** One update of a system at rest, orphans of a restart included, for every order in which
      the two maps may be walked: every request is answered exactly when no CIDR is asked for
      more, by hosts that own nothing or are deleted, than its free addresses plus those its
      deleted hosts hold. Without orphans all created hosts are such hosts. */
  lemma SwapUpdate(initial: Core, s: Sys, orphans: set<HostSpec>, cur: seq<HostSpec>,
                   gone: seq<HostSpec>, come: seq<HostSpec>, reqs: seq<Request>)
    requires Inv(initial, s, orphans, false) && Quiescent(s) && Functional(SpecSet(cur))
    requires EmitsUpdate(s.spec, cur, gone, come, reqs)
    ensures var (p, deletes, creates) := (Abs(s.core.tables), Each(DeleteReq, gone), Each(CreateReq, come));
      && (|HandleAll(s.core, reqs).1| == |reqs| <==> Supplied(p, deletes, creates))
      && (orphans == {} ==> Needy(p, deletes, creates) == creates)
  {
    hide Inv, Consistent, Functional, OwnerIs, HandleAll, PoolHandleAll, Abs, Supplied, Lists, Needy, OwnedBy;
    var b := RestStore(initial, s, orphans);
    var p, deletes, creates := Abs(s.core.tables), Each(DeleteReq, gone), Each(CreateReq, come);
    SwapAnswers(s.core, deletes, creates);
    ConsistentMatched(s.core);
    MatchedSound(s.core.tables);
    forall h | Asked(deletes, h) > 0 ensures |OwnedBy(p, h)| <= Asked(deletes, h) {
      OwnsAtMostOne(s.core, SpecSet(s.spec) + orphans, b, h);
    }
    HostsDistinct(cur, s.spec, come);
    SwapUnderExhaustion(p, deletes, creates);
    if orphans == {} {
      assert SpecSet(s.spec) + orphans == SpecSet(s.spec);
      AllNew(s.core, s.spec, cur, gone, come, b);
    }
  }

  lemma SwapAnswers(core: Core, deletes: seq<Request>, creates: seq<Request>)
    requires Consistent(core) && AllDeletes(deletes)
    ensures var p1 := PoolHandleAll(Abs(core.tables), deletes).0;
      |HandleAll(core, deletes + creates).1| == |deletes| + |PoolHandleAll(p1, creates).1|
  {
    hide Consistent, HandleAll, PoolHandleAll, Abs;
    HandleAllConcat(core, deletes, creates);
    HandleAllRefines(core, deletes);
    HandleAllRefines(HandleAll(core, deletes).0, creates);
    DeletesAnswered(core, deletes);
  }

  lemma AllNew(core: Core, was: seq<HostSpec>, cur: seq<HostSpec>, gone: seq<HostSpec>, come: seq<HostSpec>,
               b: Bindings)
    requires Lists(gone, SpecSet(was) - SpecSet(cur)) && Lists(come, SpecSet(cur) - SpecSet(was))
    requires OwnerIs(Abs(core.tables).owner, b, {}) && b.Keys <= SpecSet(was)
    requires Functional(SpecSet(was)) && Functional(SpecSet(cur))
    ensures var creates := Each(CreateReq, come);
      Needy(Abs(core.tables), Each(DeleteReq, gone), creates) == creates
  {
    hide Functional, OwnerIs, Abs, Lists, Needy, OwnedBy;
    var creates, deletes := Each(CreateReq, come), Each(DeleteReq, gone);
    forall r | r in creates ensures OwnedBy(Abs(core.tables), r.host) == {} || Asked(deletes, r.host) > 0 {
      var i :| 0 <= i < |come| && creates[i] == r;
      UpdateHosts(core, was, cur, gone, come, b, come[i]);
    }
    AllNeedy(Abs(core.tables), deletes, creates);
  }

  lemma HostsDistinct(cur: seq<HostSpec>, was: seq<HostSpec>, come: seq<HostSpec>)
    requires Lists(come, SpecSet(cur) - SpecSet(was)) && Functional(SpecSet(cur))
    ensures forall i, j :: 0 <= i < j < |come| ==> Each(CreateReq, come)[i].host != Each(CreateReq, come)[j].host
  {
    forall i, j | 0 <= i < j < |come| ensures Each(CreateReq, come)[i].host != Each(CreateReq, come)[j].host {
      assert come[i] in come && come[j] in come;
      assert come[i] in SpecSet(cur) && come[j] in SpecSet(cur);
    }
  }
}
