/** What the allocator promises over runs of requests. */
module Laws {
  import opened Wrappers
  import opened Text
  import opened Store
  import opened Provider
  import opened Manager
  import opened Controller
  import opened Pool

  /** What a consistent store's pool satisfies. */
  ghost predicate Sound(p: Pool) {
    DistinctSlots(p.slots) && forall ip :: ip in p.owner ==> InSlots(p.slots, ip)
  }

  // ---------------------------------------------------------------- one step on a pool

  lemma NextIpOpen(p: Pool, cidr: string)
    requires NextIp(p, cidr).Some?
    ensures NextIp(p, cidr).value !in p.owner
    ensures NextIp(p, cidr).value in FreeIps(p, cidr)
    ensures Slot(NextIp(p, cidr).value, cidr) in p.slots
  {
  }

  lemma FreeIpsIn(p: Pool, cidr: string, ip: string)
    ensures ip in FreeIps(p, cidr) <==> Slot(ip, cidr) in p.slots && ip !in p.owner
  {
  }

  lemma StepSound(p: Pool, req: Request)
    requires Sound(p)
    ensures Sound(PoolHandle(p, req).0) && PoolHandle(p, req).0.slots == p.slots
  {
  }

  /** Does the request leave host `h` alone: another host's, or a plain CREATE for `h`. */
  predicate Spares(req: Request, h: string) {
    req.host == h ==> req.op == Create && req.ip == ""
  }

  /** Such requests never change what a host with an address owns. */
  lemma StepSpares(p: Pool, req: Request, h: string)
    requires Spares(req, h)
    requires req.host == h ==> OwnedBy(p, h) != {}
    ensures OwnedBy(PoolHandle(p, req).0, h) == OwnedBy(p, h)
  {
  }

  lemma {:induction false} RunSpares(p: Pool, reqs: seq<Request>, h: string)
    requires forall r :: r in reqs ==> Spares(r, h)
    requires OwnedBy(p, h) != {}
    ensures OwnedBy(PoolHandleAll(p, reqs).0, h) == OwnedBy(p, h)
    decreases |reqs|
  {
    if reqs != [] {
      StepSpares(p, reqs[0], h);
      RunSpares(PoolHandle(p, reqs[0]).0, reqs[1..], h);
    }
  }

  // ---------------------------------------------------------------- bijection

  /** How many records name an address. */
  function CountIp(records: seq<ARecord>, ip: string): nat {
    if records == [] then 0
    else
      var n := |records| - 1;
      CountIp(records[..n], ip) + if records[n].ip == ip then 1 else 0
  }

  lemma {:induction false} CountDistinct(records: seq<ARecord>, ip: string)
    requires DistinctIps(records)
    ensures CountIp(records, ip) == if ip in Owner(records) then 1 else 0
  {
    if records != [] {
      var n := |records| - 1;
      CountDistinct(records[..n], ip);
      LastIsNew(records);
    }
  }

  lemma LastIsNew(records: seq<ARecord>)
    requires DistinctIps(records) && records != []
    ensures records[|records| - 1].ip !in Owner(records[..|records| - 1])
  {
    var n := |records| - 1;
    OwnerIn(records[..n]);
    forall r | r in records[..n] ensures r.ip != records[n].ip {}
  }

  lemma MatchedRows(t: Tables, i: nat)
    requires Matched(t) && i < |t.rows|
    ensures t.rows[i].status == Allocated <==> CountIp(t.records, t.rows[i].ip) == 1
    ensures t.rows[i].status == Available <==> CountIp(t.records, t.rows[i].ip) == 0
  {
    CountDistinct(t.records, t.rows[i].ip);
  }

  lemma MatchedRecord(t: Tables, r: ARecord)
    requires Matched(t) && r in t.records
    ensures exists i :: 0 <= i < |t.rows| && t.rows[i].ip == r.ip
  {
    OwnerIn(t.records);
    var i :| 0 <= i < |t.rows| && Slots(t.rows)[i].ip == r.ip;
    assert t.rows[i].ip == r.ip;
  }

  lemma OneHolder(t: Tables, r: ARecord, s: ARecord)
    requires Matched(t) && r in t.records && s in t.records && r.ip == s.ip
    ensures r.host == s.host
  {
  }

  /** After any run of requests, for any hosts in any order: a row is allocated exactly when
      one record names its address, every record names a row, and no two hosts share one. */
  lemma RecordsMatchRows(core: Core, reqs: seq<Request>)
    requires Consistent(core)
    ensures var t := HandleAll(core, reqs).0.tables;
      && (forall i :: 0 <= i < |t.rows| ==>
            (t.rows[i].status == Allocated <==> CountIp(t.records, t.rows[i].ip) == 1)
            && (t.rows[i].status == Available <==> CountIp(t.records, t.rows[i].ip) == 0))
      && (forall r :: r in t.records ==> exists i :: 0 <= i < |t.rows| && t.rows[i].ip == r.ip)
      && (forall r, s :: r in t.records && s in t.records && r.ip == s.ip ==> r.host == s.host)
  {
    hide HandleAll, Consistent, Matched, CountIp, PoolHandleAll;
    HandleAllRefines(core, reqs);
    ConsistentMatched(HandleAll(core, reqs).0);
    var t := HandleAll(core, reqs).0.tables;
    forall i | 0 <= i < |t.rows|
      ensures t.rows[i].status == Allocated <==> CountIp(t.records, t.rows[i].ip) == 1
      ensures t.rows[i].status == Available <==> CountIp(t.records, t.rows[i].ip) == 0
    {
      MatchedRows(t, i);
    }
    forall r | r in t.records ensures exists i :: 0 <= i < |t.rows| && t.rows[i].ip == r.ip {
      MatchedRecord(t, r);
    }
    forall r, s | r in t.records && s in t.records && r.ip == s.ip ensures r.host == s.host {
      OneHolder(t, r, s);
    }
  }

  // ---------------------------------------------------------------- conservation

  lemma HandleKeepsSlots(core: Core, req: Request)
    ensures Slots(Handle(core, req).0.tables.rows) == Slots(core.tables.rows)
    ensures Handle(core, req).0.cidrs == core.cidrs
  {
    hide IsIPv4Addr, InPrefix, Ip.ParseCIDR;
  }

  /** No request ever adds, drops, relabels or reorders a row, whatever the store holds. */
  lemma {:induction false} RowsConserved(core: Core, reqs: seq<Request>)
    ensures Slots(HandleAll(core, reqs).0.tables.rows) == Slots(core.tables.rows)
    ensures HandleAll(core, reqs).0.cidrs == core.cidrs
    decreases |reqs|
  {
    if reqs != [] {
      HandleKeepsSlots(core, reqs[0]);
      RowsConserved(Handle(core, reqs[0]).0, reqs[1..]);
    }
  }

  // ---------------------------------------------------------------- sticky allocation

  predicate PlainCreate(req: Request) { req.op == Create && req.ip == "" }

  /** Once a CREATE answers host h with an address, explicit or not, later plain CREATEs for h
      in whatever CIDR repeat it and change nothing, over any run that neither deletes h nor
      asks an explicit address for it: exactly when the address was not an explicit one that
      sorts after an address h already held. */
  lemma StickyIff(core: Core, first: Request, reqs: seq<Request>, again: Request)
    requires Consistent(core)
    requires first.op == Create && PlainCreate(again) && again.host == first.host
    requires var r := Handle(core, first).1; r.Some? && r.value.ok
    requires forall r :: r in reqs ==> Spares(r, first.host)
    ensures var ip, held := Handle(core, first).1.value.ip, LeastIp(core.tables.records, first.host);
      var later := HandleAll(Handle(core, first).0, reqs).0;
      Handle(later, again) == (later, Some(Response(again, ip, true)))
      <==> first.ip == "" || held == "" || LexLe(first.ip, held)
  {
    hide Handle, HandleAll, Consistent, Abs, PoolHandle, PoolHandleAll, OwnedBy, Matched, LexLe;
    var h := first.host;
    HandleRefines(core, first);
    ConsistentMatched(core);
    LeastIpIsLeast(core.tables, h);
    var core1 := Handle(core, first).0;
    var p, p1 := Abs(core.tables), Abs(core1.tables);
    FirstAnswer(p, first);
    HandleAllRefines(core1, reqs);
    RunSpares(p1, reqs, h);
    var later := HandleAll(core1, reqs).0;
    ConsistentMatched(later);
    LeastIpIsLeast(later.tables, h);
    AnswersHeld(later, again);
  }

  /** A plain CREATE is always sticky. */
  lemma Sticky(core: Core, first: Request, reqs: seq<Request>, again: Request)
    requires Consistent(core)
    requires PlainCreate(first) && PlainCreate(again) && again.host == first.host
    requires Handle(core, first).1.Some?
    requires forall r :: r in reqs ==> Spares(r, first.host)
    ensures var ip := Handle(core, first).1.value.ip;
      var later := HandleAll(Handle(core, first).0, reqs).0;
      Handle(later, again) == (later, Some(Response(again, ip, true)))
  {
    hide HandleAll, Consistent;
    StickyIff(core, first, reqs, again);
  }

  /** A CREATE that is granted leaves the host owning addresses, its answer among them: their
      least unless it was an explicit address that sorts after one the host owned. */
  lemma FirstAnswer(p: Pool, req: Request)
    requires req.op == Create && PoolHandle(p, req).1.Some? && PoolHandle(p, req).1.value.ok
    ensures var before, after := OwnedBy(p, req.host), OwnedBy(PoolHandle(p, req).0, req.host);
      && after != {}
      && (PoolHandle(p, req).1.value.ip == Least(after)
          <==> req.ip == "" || before == {} || LexLe(req.ip, Least(before)))
  {
    hide LexLe;
    var before, after := OwnedBy(p, req.host), OwnedBy(PoolHandle(p, req).0, req.host);
    var ip := PoolHandle(p, req).1.value.ip;
    if req.ip == "" {
      if before == {} {
        NextIpOpen(p, req.cidr);
        assert after == {ip};
      }
    } else {
      assert after == before + {ip};
      if before != {} {
        LeastOfMore(before, ip);
      }
    }
  }

  lemma LeastOfMore(s: set<string>, ip: string)
    requires s != {}
    ensures Least(s + {ip}) == ip <==> LexLe(ip, Least(s))
  {
    hide LexLe;
    var least := Least(s);
    assert IsLeast(s + {ip}, Least(s + {ip}));
    if LexLe(ip, least) {
      LexTotal(ip, ip);
      forall x | x in s ensures LexLe(ip, x) { LexTransitive(ip, least, x); }
      LeastUnique(s + {ip}, Least(s + {ip}), ip);
    }
  }

  lemma AnswersHeld(core: Core, req: Request)
    requires PlainCreate(req) && LeastIp(core.tables.records, req.host) != ""
    ensures Handle(core, req) == (core, Some(Response(req, LeastIp(core.tables.records, req.host), true)))
  {
  }

  // ---------------------------------------------------------------- inverse and drain

  lemma {:induction false} WithoutAbsent(records: seq<ARecord>, r: ARecord)
    requires r !in records
    ensures Without(records, r) == records
  {
    if records != [] {
      var n := |records| - 1;
      WithoutAbsent(records[..n], r);
      assert records == records[..n] + [records[n]];
    }
  }

  lemma RevokeGranted(t: Tables, k: nat, host: string)
    requires Matched(t) && k < |t.rows| && t.rows[k].status == Available
    ensures Revoked(Granted(t, k, host), t.rows[k].ip, host) == t
  {
    var ip := t.rows[k].ip;
    var t1 := Granted(t, k, host);
    GrantKeeps(t, k, host);
    OwnerIn(t.records);
    WithoutAbsent(t.records, ARecord(ip, host));
    assert t1.records[..|t.records|] == t.records;
    forall i | 0 <= i < |t.rows| && i != k ensures t.rows[i].ip != ip {
      assert Slots(t.rows)[i].ip == t.rows[i].ip && Slots(t.rows)[k].ip == ip;
    }
    assert Released(t1.rows, ip) == t.rows;
  }

  lemma TableCreateThenDelete(t: Tables, create: Request, delete: Request)
    requires Matched(t)
    requires create.op == Create && delete.op == Delete && delete.host == create.host
    requires LeastIp(t.records, create.host) == ""
    requires var r := TableHandle(t, create).1; r.Some? && r.value.ok
    ensures TableHandle(TableHandle(t, create).0, delete).0 == t
  {
    hide Matched, Owner, Revoked, LeastIp, Slots;
    var h := create.host;
    var k := if create.ip != "" then FirstFreeAt(t.rows, create.cidr, create.ip) else FirstFree(t.rows, create.cidr);
    var t1 := Granted(t, k, h);
    RevokeGranted(t, k, h);
    GrantKeeps(t, k, h);
    LeastIpIsLeast(t, h);
    LeastIpIsLeast(t1, h);
    assert OwnedBy(Abs(t1), h) == {t.rows[k].ip};
  }

  /** A successful CREATE for a host without a record, explicit or not, undone by its DELETE:
      rows and records come back exactly, order included. */
  lemma CreateThenDelete(core: Core, create: Request, delete: Request)
    requires Consistent(core)
    requires create.op == Create && delete.op == Delete && delete.host == create.host
    requires LeastIp(core.tables.records, create.host) == ""
    requires var r := Handle(core, create).1; r.Some? && r.value.ok
    ensures Handle(Handle(core, create).0, delete).0 == core
  {
    hide Handle, TableHandle, Abs, Usable;
    GuardsTransparent(core, create);
    HandleRefines(core, create);
    GuardsTransparent(Handle(core, create).0, delete);
    TableCreateThenDelete(core.tables, create, delete);
  }

  /** However a run from an empty record table goes, when no record is left the store is the
      initial one again: all rows available, in their old order. */
  lemma DrainedIsInitial(core: Core, reqs: seq<Request>)
    requires Consistent(core) && core.tables.records == []
    requires HandleAll(core, reqs).0.tables.records == []
    ensures HandleAll(core, reqs).0 == core
  {
    HandleAllRefines(core, reqs);
    RowsConserved(core, reqs);
    var rows, rows1 := core.tables.rows, HandleAll(core, reqs).0.tables.rows;
    assert |rows1| == |Slots(rows1)| == |rows|;
    forall i | 0 <= i < |rows| ensures rows1[i] == rows[i] {
      assert Slots(rows1)[i] == Slots(rows)[i];
      assert rows[i].status != Allocated && rows1[i].status != Allocated;
    }
  }

  // ---------------------------------------------------------------- reclamation

  predicate AllDeletes(reqs: seq<Request>) { forall r :: r in reqs ==> r.op == Delete }

  /** How many of the requests name a host. */
  function Asked(reqs: seq<Request>, h: string): nat {
    if reqs == [] then 0 else (if reqs[0].host == h then 1 else 0) + Asked(reqs[1..], h)
  }

  function CountHost(records: seq<ARecord>, h: string): nat {
    if records == [] then 0
    else
      var n := |records| - 1;
      CountHost(records[..n], h) + if records[n].host == h then 1 else 0
  }

  lemma {:induction false} CountHostOwned(records: seq<ARecord>, h: string)
    requires DistinctIps(records)
    ensures CountHost(records, h) == |OwnedBy(Pool([], Owner(records)), h)|
  {
    if records != [] {
      var n := |records| - 1;
      CountHostOwned(records[..n], h);
      LastIsNew(records);
      var front, all := OwnedBy(Pool([], Owner(records[..n])), h), OwnedBy(Pool([], Owner(records)), h);
      var ip := records[n].ip;
      assert all == if records[n].host == h then front + {ip} else front;
    }
  }

  /** Deletes take a host's addresses away in text order, one each, and no other's. */
  lemma {:induction false} DeletesDrain(p: Pool, reqs: seq<Request>, h: string)
    requires AllDeletes(reqs)
    ensures var before, left := OwnedBy(p, h), OwnedBy(PoolHandleAll(p, reqs).0, h);
      && left <= before
      && |left| == (if |before| <= Asked(reqs, h) then 0 else |before| - Asked(reqs, h))
      && (forall x, y :: x in before - left && y in left ==> LexLe(x, y))
    decreases |reqs|
  {
    if reqs != [] {
      var req := reqs[0];
      var p1 := PoolHandle(p, req).0;
      var before, mid := OwnedBy(p, h), OwnedBy(p1, h);
      DeletesDrain(p1, reqs[1..], h);
      assert mid == if req.host == h && before != {} then before - {Least(before)} else before;
    }
  }

  lemma {:induction false} DeletesShrink(p: Pool, reqs: seq<Request>)
    requires AllDeletes(reqs)
    ensures var p1 := PoolHandleAll(p, reqs).0;
      && p1.slots == p.slots
      && (forall ip :: ip in p1.owner ==> ip in p.owner && p1.owner[ip] == p.owner[ip])
    decreases |reqs|
  {
    if reqs != [] {
      DeletesShrink(PoolHandle(p, reqs[0]).0, reqs[1..]);
    }
  }

  /** A host has no record left exactly when it was deleted at least once per record. */
  lemma DrainedIff(core: Core, reqs: seq<Request>, h: string)
    requires Consistent(core) && AllDeletes(reqs)
    ensures LeastIp(HandleAll(core, reqs).0.tables.records, h) == ""
       <==> CountHost(core.tables.records, h) <= Asked(reqs, h)
  {
    var p := Abs(core.tables);
    HandleAllRefines(core, reqs);
    var core1 := HandleAll(core, reqs).0;
    DeletesDrain(p, reqs, h);
    CountHostOwned(core.tables.records, h);
    assert OwnedBy(p, h) == OwnedBy(Pool([], p.owner), h);
    LeastIpIsLeast(core1.tables, h);
  }

  /** Enough deletes for every host they name: exactly those hosts' records go, exactly their
      rows become available, and nothing else changes. */
  lemma FullReclamation(core: Core, reqs: seq<Request>)
    requires Consistent(core) && AllDeletes(reqs)
    requires forall h :: Asked(reqs, h) > 0 ==> CountHost(core.tables.records, h) <= Asked(reqs, h)
    ensures var t, t1 := core.tables, HandleAll(core, reqs).0.tables;
      && (forall r :: r in t1.records <==> r in t.records && Asked(reqs, r.host) == 0)
      && |t1.rows| == |t.rows|
      && (forall i :: 0 <= i < |t.rows| ==>
            t1.rows[i] == if exists r :: r in t.records && r.ip == t.rows[i].ip && Asked(reqs, r.host) > 0
                          then t.rows[i].(status := Available) else t.rows[i])
  {
    HandleAllRefines(core, reqs);
    RowsConserved(core, reqs);
    var t, t1 := core.tables, HandleAll(core, reqs).0.tables;
    var p, p1 := Abs(t), Abs(t1);
    DeletesShrink(p, reqs);
    OwnerIn(t.records);
    OwnerIn(t1.records);
    forall r: ARecord ensures r in t1.records <==> r in t.records && Asked(reqs, r.host) == 0 {
      assert r == ARecord(r.ip, r.host);
      DeletesDrain(p, reqs, r.host);
      CountHostOwned(t.records, r.host);
      assert OwnedBy(p, r.host) == OwnedBy(Pool([], p.owner), r.host);
      assert r in t1.records <==> r.ip in OwnedBy(p1, r.host);
      assert r in t.records <==> r.ip in OwnedBy(p, r.host);
      SubsetSize(OwnedBy(p1, r.host), OwnedBy(p, r.host));
    }
    assert |t1.rows| == |Slots(t1.rows)| == |t.rows|;
    forall i | 0 <= i < |t.rows|
      ensures t1.rows[i] == if exists r :: r in t.records && r.ip == t.rows[i].ip && Asked(reqs, r.host) > 0
                            then t.rows[i].(status := Available) else t.rows[i]
    {
      var ip := t.rows[i].ip;
      assert Slots(t1.rows)[i] == Slots(t.rows)[i];
      if ip in p.owner {
        assert ARecord(ip, p.owner[ip]) in t.records;
        assert ip in p1.owner <==> Asked(reqs, p.owner[ip]) == 0;
      }
    }
  }

  /** Any run that ends with a DELETE for every record left returns to the initial store. */
  lemma EnoughDeletes(core: Core, reqs: seq<Request>, deletes: seq<Request>)
    requires Consistent(core) && core.tables.records == [] && AllDeletes(deletes)
    requires forall h :: CountHost(HandleAll(core, reqs).0.tables.records, h) <= Asked(deletes, h)
    ensures HandleAll(core, reqs + deletes).0 == core
  {
    hide HandleAll, Consistent, PoolHandleAll;
    HandleAllRefines(core, reqs);
    HandleAllConcat(core, reqs, deletes);
    var mid := HandleAll(core, reqs).0;
    FullReclamation(mid, deletes);
    var records, records1 := mid.tables.records, HandleAll(mid, deletes).0.tables.records;
    forall r | r in records ensures Asked(deletes, r.host) > 0 {
      CountHostPositive(records, r);
    }
    assert forall i :: 0 <= i < |records1| ==> records1[i] in records1;
    DrainedIsInitial(core, reqs + deletes);
  }

  lemma {:induction false} CountHostPositive(records: seq<ARecord>, r: ARecord)
    requires r in records
    ensures CountHost(records, r.host) > 0
  {
    var n := |records| - 1;
    if records[n] != r {
      assert records == records[..n] + [records[n]];
      CountHostPositive(records[..n], r);
    }
  }

  lemma SubsetSize(a: set<string>, b: set<string>)
    requires a <= b
    ensures |a| <= |b| && (|a| == |b| ==> a == b)
  {
    assert b == a + (b - a);
  }

  // ---------------------------------------------------------------- capacity

  /** Plain CREATEs for pairwise distinct hosts that own nothing. */
  ghost predicate Newcomers(p: Pool, reqs: seq<Request>) {
    && (forall r :: r in reqs ==> PlainCreate(r) && OwnedBy(p, r.host) == {})
    && (forall i, j :: 0 <= i < j < |reqs| ==> reqs[i].host != reqs[j].host)
  }

  function AskedIn(reqs: seq<Request>, cidr: string): nat {
    if reqs == [] then 0 else (if reqs[0].cidr == cidr then 1 else 0) + AskedIn(reqs[1..], cidr)
  }

  function ServedIn(rs: seq<Response>, cidr: string): nat {
    if rs == [] then 0 else (if rs[0].req.cidr == cidr then 1 else 0) + ServedIn(rs[1..], cidr)
  }

  lemma SlotUnique(slots: seq<Slot>, ip: string, c: string, d: string)
    requires DistinctSlots(slots) && Slot(ip, c) in slots && Slot(ip, d) in slots
    ensures c == d
  {
  }

  /** A newcomer takes one free address of its CIDR, or nothing when there is none. */
  lemma NewcomerStep(p: Pool, req: Request, cidr: string)
    requires Sound(p) && PlainCreate(req) && OwnedBy(p, req.host) == {}
    ensures var (p1, r) := PoolHandle(p, req);
      && (r.Some? <==> FreeIps(p, req.cidr) != {})
      && (r.Some? ==> r.value.ok && r.value.req == req && r.value.ip in FreeIps(p, req.cidr))
      && (r.Some? ==> p1.owner == p.owner[r.value.ip := req.host])
      && (FreeIps(p1, cidr)
          == if r.Some? && cidr == req.cidr then FreeIps(p, cidr) - {r.value.ip} else FreeIps(p, cidr))
  {
    var (p1, r) := PoolHandle(p, req);
    if r.Some? {
      NextIpOpen(p, req.cidr);
      forall ip ensures ip in FreeIps(p1, cidr) <==>
        ip in if cidr == req.cidr then FreeIps(p, cidr) - {r.value.ip} else FreeIps(p, cidr)
      {
        FreeIpsIn(p, cidr, ip);
        FreeIpsIn(p1, cidr, ip);
        if ip == r.value.ip && Slot(ip, cidr) in p.slots {
          SlotUnique(p.slots, ip, cidr, req.cidr);
        }
      }
    }
  }

  lemma NewcomersLeft(p: Pool, reqs: seq<Request>)
    requires Sound(p) && Newcomers(p, reqs) && reqs != []
    ensures Newcomers(PoolHandle(p, reqs[0]).0, reqs[1..])
  {
  }

  lemma NewcomersHead(p: Pool, reqs: seq<Request>)
    requires Newcomers(p, reqs) && reqs != []
    ensures PlainCreate(reqs[0]) && OwnedBy(p, reqs[0].host) == {}
  {
  }

  /** k newcomers into CIDRs with f free addresses: per CIDR exactly min(k, f) are answered
      and that many addresses go; the others get no response at all. */
  lemma {:induction false} Capacity(p: Pool, reqs: seq<Request>, cidr: string)
    requires Sound(p) && Newcomers(p, reqs)
    ensures var (p1, rs) := PoolHandleAll(p, reqs);
      var f, k := |FreeIps(p, cidr)|, AskedIn(reqs, cidr);
      && ServedIn(rs, cidr) == (if k <= f then k else f)
      && |FreeIps(p1, cidr)| == f - ServedIn(rs, cidr)
    decreases |reqs|
  {
    hide PoolHandle, FreeIps, Newcomers, Sound, OwnedBy;
    if reqs != [] {
      NewcomersHead(p, reqs);
      var (p1, r) := PoolHandle(p, reqs[0]);
      NewcomerStep(p, reqs[0], cidr);
      NewcomersLeft(p, reqs);
      StepSound(p, reqs[0]);
      Capacity(p1, reqs[1..], cidr);
      var rest := PoolHandleAll(p1, reqs[1..]).1;
      assert r.Some? ==> ([r.value] + rest)[1..] == rest;
      assert r.None? ==> [] + rest == rest;
    }
  }

  /** All successes, each an address of the asked CIDR that is free in `p`, no address twice. */
  ghost predicate Answers(p: Pool, reqs: seq<Request>, rs: seq<Response>) {
    && (forall i :: 0 <= i < |rs| ==> rs[i].ok && rs[i].req in reqs && rs[i].ip in FreeIps(p, rs[i].req.cidr))
    && (forall i, j :: 0 <= i < j < |rs| ==> rs[i].ip != rs[j].ip)
  }

  lemma {:induction false} AnswersDistinct(p: Pool, reqs: seq<Request>)
    requires Sound(p) && Newcomers(p, reqs)
    ensures Answers(p, reqs, PoolHandleAll(p, reqs).1)
    decreases |reqs|
  {
    hide PoolHandle, FreeIps, Newcomers, Sound, OwnedBy;
    if reqs != [] {
      var p1 := PoolHandle(p, reqs[0]).0;
      NewcomersLeft(p, reqs);
      StepSound(p, reqs[0]);
      AnswersDistinct(p1, reqs[1..]);
      AppendAnswers(p, reqs, PoolHandleAll(p1, reqs[1..]).1);
    }
  }

  lemma AppendAnswers(p: Pool, reqs: seq<Request>, rest: seq<Response>)
    requires Sound(p) && Newcomers(p, reqs) && reqs != []
    requires Answers(PoolHandle(p, reqs[0]).0, reqs[1..], rest)
    ensures Answers(p, reqs, Sent(PoolHandle(p, reqs[0]).1) + rest)
  {
    hide PoolHandle, FreeIps, Newcomers, Sound, OwnedBy;
    NewcomersHead(p, reqs);
    var (p1, r) := PoolHandle(p, reqs[0]);
    NewcomerStep(p, reqs[0], reqs[0].cidr);
    forall i | 0 <= i < |rest|
      ensures rest[i].ip in FreeIps(p, rest[i].req.cidr)
      ensures r.Some? ==> rest[i].ip != r.value.ip
    {
      NewcomerStep(p, reqs[0], rest[i].req.cidr);
      FreeIpsIn(p1, rest[i].req.cidr, rest[i].ip);
    }
    var rs := Sent(r) + rest;
    assert forall i :: |Sent(r)| <= i < |rs| ==> rs[i] == rest[i - |Sent(r)|];
  }

  function CountFree(rows: seq<Row>, cidr: string): nat {
    if rows == [] then 0
    else
      var n := |rows| - 1;
      CountFree(rows[..n], cidr) + if Free(rows[n], cidr) then 1 else 0
  }

  ghost function FreeBelow(t: Tables, cidr: string, n: nat): set<string>
    requires n <= |t.rows|
  {
    set i | 0 <= i < n && Free(t.rows[i], cidr) :: t.rows[i].ip
  }

  lemma RowsDistinct(t: Tables)
    requires Matched(t)
    ensures forall i, j :: 0 <= i < j < |t.rows| ==> t.rows[i].ip != t.rows[j].ip
  {
    assert forall i :: 0 <= i < |t.rows| ==> Slots(t.rows)[i].ip == t.rows[i].ip;
  }

  lemma {:induction false} CountFreeBelow(t: Tables, cidr: string, n: nat)
    requires n <= |t.rows| && forall i, j :: 0 <= i < j < |t.rows| ==> t.rows[i].ip != t.rows[j].ip
    ensures CountFree(t.rows[..n], cidr) == |FreeBelow(t, cidr, n)|
    decreases n
  {
    hide FreeBelow, Free;
    if n > 0 {
      CountFreeBelow(t, cidr, n - 1);
      assert t.rows[..n][..n - 1] == t.rows[..n - 1];
      FreeBelowNext(t, cidr, n - 1);
    } else {
      assert FreeBelow(t, cidr, 0) == {} by { FreeBelowNone(t, cidr); }
    }
  }

  lemma FreeBelowNone(t: Tables, cidr: string)
    ensures FreeBelow(t, cidr, 0) == {}
  {
  }

  lemma FreeBelowNext(t: Tables, cidr: string, n: nat)
    requires n < |t.rows| && forall i, j :: 0 <= i < j < |t.rows| ==> t.rows[i].ip != t.rows[j].ip
    ensures |FreeBelow(t, cidr, n + 1)| == |FreeBelow(t, cidr, n)| + if Free(t.rows[n], cidr) then 1 else 0
  {
    var ip := t.rows[n].ip;
    assert FreeBelow(t, cidr, n + 1) ==
      if Free(t.rows[n], cidr) then FreeBelow(t, cidr, n) + {ip} else FreeBelow(t, cidr, n);
    assert ip !in FreeBelow(t, cidr, n);
  }

  /** The available rows of a CIDR are its free addresses, one each. */
  lemma CountFreeIs(t: Tables, cidr: string)
    requires Matched(t)
    ensures CountFree(t.rows, cidr) == |FreeIps(Abs(t), cidr)|
  {
    RowsDistinct(t);
    CountFreeBelow(t, cidr, |t.rows|);
    assert t.rows[..|t.rows|] == t.rows;
    forall i | 0 <= i < |t.rows| ensures Free(t.rows[i], cidr) <==> Open(Abs(t), i, cidr) {
      FreeIsOpen(t, i, cidr);
    }
    assert forall i :: 0 <= i < |t.rows| ==> Slots(t.rows)[i].ip == t.rows[i].ip;
    assert FreeBelow(t, cidr, |t.rows|) == FreeIps(Abs(t), cidr);
  }

  lemma {:induction false} OneCidr(reqs: seq<Request>, rs: seq<Response>, cidr: string)
    requires forall r :: r in reqs ==> r.cidr == cidr
    requires forall r :: r in rs ==> r.req in reqs
    ensures AskedIn(reqs, cidr) == |reqs| && ServedIn(rs, cidr) == |rs|
    decreases |reqs| + |rs|
  {
    if rs != [] {
      assert rs[0] in rs;
      assert forall r :: r in rs[1..] ==> r in rs;
      OneCidr(reqs, rs[1..], cidr);
    } else if reqs != [] {
      assert reqs[0] in reqs;
      assert forall r :: r in reqs[1..] ==> r in reqs;
      OneCidr(reqs[1..], [], cidr);
    }
  }

  /** k CREATEs for distinct hosts without a record, into a CIDR with f available rows:
      min(k, f) answers, all successes, pairwise distinct addresses of available rows of that
      CIDR, and nothing at all for the rest. */
  lemma StoreCapacity(core: Core, reqs: seq<Request>, cidr: string)
    requires Consistent(core)
    requires forall r :: r in reqs ==> PlainCreate(r) && r.cidr == cidr && LeastIp(core.tables.records, r.host) == ""
    requires forall i, j :: 0 <= i < j < |reqs| ==> reqs[i].host != reqs[j].host
    ensures var rs, f := HandleAll(core, reqs).1, CountFree(core.tables.rows, cidr);
      && |rs| == (if |reqs| <= f then |reqs| else f)
      && (forall i :: 0 <= i < |rs| ==>
            rs[i].ok && rs[i].req in reqs && Row(rs[i].ip, Available, cidr) in core.tables.rows)
      && (forall i, j :: 0 <= i < j < |rs| ==> rs[i].ip != rs[j].ip)
  {
    hide HandleAll, Consistent, PoolHandleAll, Abs, FreeIps, LeastIp, Matched, OwnedBy;
    HandleAllRefines(core, reqs);
    ConsistentMatched(core);
    var t, p, rs := core.tables, Abs(core.tables), HandleAll(core, reqs).1;
    MatchedSound(t);
    forall r | r in reqs ensures OwnedBy(p, r.host) == {} { LeastIpIsLeast(t, r.host); }
    AnswersDistinct(p, reqs);
    assert Answers(p, reqs, rs);
    OneCidr(reqs, rs, cidr);
    Capacity(p, reqs, cidr);
    CountFreeIs(t, cidr);
    forall i | 0 <= i < |rs| ensures Row(rs[i].ip, Available, cidr) in t.rows {
      FreeIsRow(t, rs[i].ip, cidr);
    }
  }

  lemma FreeIsRow(t: Tables, ip: string, cidr: string)
    requires Matched(t) && ip in FreeIps(Abs(t), cidr)
    ensures Row(ip, Available, cidr) in t.rows
  {
  }

  lemma MatchedSound(t: Tables)
    requires Matched(t)
    ensures Sound(Abs(t))
  {
  }

  /** First come, first served: request i is answered exactly when fewer newcomers asked for
      its CIDR before it than the CIDR had free addresses. */
  lemma {:induction false} ServedIff(p: Pool, reqs: seq<Request>, i: nat)
    requires Sound(p) && Newcomers(p, reqs) && i < |reqs|
    ensures PoolHandle(PoolHandleAll(p, reqs[..i]).0, reqs[i]).1.Some?
       <==> AskedIn(reqs[..i], reqs[i].cidr) < |FreeIps(p, reqs[i].cidr)|
    decreases i
  {
    var req := reqs[i];
    NewcomerStep(p, reqs[0], req.cidr);
    if i > 0 {
      var p1 := PoolHandle(p, reqs[0]).0;
      NewcomersLeft(p, reqs);
      StepSound(p, reqs[0]);
      ServedIff(p1, reqs[1..], i - 1);
      assert reqs[..i][1..] == reqs[1..][..i - 1];
      assert reqs[1..][i - 1] == req;
    }
  }

  lemma {:induction false} AtMostOneEach(p: Pool, reqs: seq<Request>)
    ensures |PoolHandleAll(p, reqs).1| <= |reqs|
    decreases |reqs|
  {
    if reqs != [] {
      AtMostOneEach(PoolHandle(p, reqs[0]).0, reqs[1..]);
    }
  }

  ghost predicate Fits(p: Pool, reqs: seq<Request>) {
    forall c :: AskedIn(reqs, c) <= |FreeIps(p, c)|
  }

  /** Plain CREATEs for pairwise distinct hosts. */
  ghost predicate PlainCreates(reqs: seq<Request>) {
    && (forall r :: r in reqs ==> PlainCreate(r))
    && (forall i, j :: 0 <= i < j < |reqs| ==> reqs[i].host != reqs[j].host)
  }

  /** Those of the requests whose host owns nothing. */
  ghost function Fresh(p: Pool, reqs: seq<Request>): seq<Request> {
    if reqs == [] then []
    else (if OwnedBy(p, reqs[0].host) == {} then [reqs[0]] else []) + Fresh(p, reqs[1..])
  }

  lemma {:induction false} FreshElsewhere(p: Pool, p1: Pool, reqs: seq<Request>)
    requires forall r :: r in reqs ==> OwnedBy(p, r.host) == OwnedBy(p1, r.host)
    ensures Fresh(p, reqs) == Fresh(p1, reqs)
  {
    if reqs != [] {
      FreshElsewhere(p, p1, reqs[1..]);
    }
  }

  /** What serving the first of several plain CREATEs leaves for the others. */
  lemma FreshStep(p: Pool, reqs: seq<Request>)
    requires Sound(p) && PlainCreates(reqs) && reqs != []
    ensures var (p1, r) := PoolHandle(p, reqs[0]);
      var rest := Fresh(p1, reqs[1..]);
      && PlainCreate(reqs[0]) && PlainCreates(reqs[1..])
      && (OwnedBy(p, reqs[0].host) != {} ==> p1 == p && r.Some? && Fresh(p, reqs) == rest)
      && (OwnedBy(p, reqs[0].host) == {} ==> Fresh(p, reqs) == [reqs[0]] + rest)
  {
    var p1 := PoolHandle(p, reqs[0]).0;
    forall r | r in reqs[1..] ensures OwnedBy(p, r.host) == OwnedBy(p1, r.host) {
      if OwnedBy(p, reqs[0].host) == {} { NewcomerStep(p, reqs[0], reqs[0].cidr); }
    }
    FreshElsewhere(p, p1, reqs[1..]);
  }

  /** Every plain CREATE is answered exactly when no CIDR is asked for more than it has free
      by the hosts that own nothing. */
  lemma {:induction false} AllServedIff(p: Pool, reqs: seq<Request>)
    requires Sound(p) && PlainCreates(reqs)
    ensures |PoolHandleAll(p, reqs).1| == |reqs| <==> Fits(p, Fresh(p, reqs))
    decreases |reqs|
  {
    hide PoolHandle, FreeIps, PlainCreates, Sound, OwnedBy, Fits;
    if reqs == [] {
      NothingFits(p);
    } else {
      var (p1, r) := PoolHandle(p, reqs[0]);
      FreshStep(p, reqs);
      StepSound(p, reqs[0]);
      AllServedIff(p1, reqs[1..]);
      AtMostOneEach(p1, reqs[1..]);
      if OwnedBy(p, reqs[0].host) == {} {
        FitsStep(p, reqs[0], Fresh(p1, reqs[1..]));
      }
    }
  }

  lemma NothingFits(p: Pool)
    ensures Fits(p, [])
  {
  }

  lemma FitsStep(p: Pool, req: Request, rest: seq<Request>)
    requires Sound(p) && PlainCreate(req) && OwnedBy(p, req.host) == {}
    ensures var (p1, r) := PoolHandle(p, req);
      Fits(p, [req] + rest) <==> r.Some? && Fits(p1, rest)
  {
    hide PoolHandle, FreeIps, Sound, OwnedBy;
    var (p1, r) := PoolHandle(p, req);
    var c0, reqs := req.cidr, [req] + rest;
    assert reqs[1..] == rest;
    NewcomerStep(p, req, c0);
    assert AskedIn(reqs, c0) == AskedIn(rest, c0) + 1;
    if Fits(p, reqs) {
      forall c ensures AskedIn(rest, c) <= |FreeIps(p1, c)| {
        NewcomerStep(p, req, c);
        assert AskedIn(reqs, c) <= |FreeIps(p, c)|;
      }
    }
    if r.Some? && Fits(p1, rest) {
      forall c ensures AskedIn(reqs, c) <= |FreeIps(p, c)| {
        NewcomerStep(p, req, c);
        assert AskedIn(rest, c) <= |FreeIps(p1, c)|;
      }
    }
    if r.None? {
      assert !(AskedIn(reqs, c0) <= |FreeIps(p, c0)|);
    }
  }

  // ---------------------------------------------------------------- swap under exhaustion

  /** The addresses of a CIDR held by hosts the deletes name. */
  ghost function LiveIn(p: Pool, deletes: seq<Request>, cidr: string): set<string> {
    set ip | ip in p.owner && Asked(deletes, p.owner[ip]) > 0 && Slot(ip, cidr) in p.slots
  }

  /** Every host the deletes name is deleted at least once per address. */
  ghost predicate Covers(p: Pool, deletes: seq<Request>) {
    forall h :: Asked(deletes, h) > 0 ==> |OwnedBy(p, h)| <= Asked(deletes, h)
  }

  lemma DeletesFree(p: Pool, deletes: seq<Request>, cidr: string)
    requires Sound(p) && AllDeletes(deletes) && Covers(p, deletes)
    ensures |FreeIps(PoolHandleAll(p, deletes).0, cidr)| == |FreeIps(p, cidr)| + |LiveIn(p, deletes, cidr)|
  {
    var p1 := PoolHandleAll(p, deletes).0;
    DeletesShrink(p, deletes);
    forall ip ensures ip in FreeIps(p1, cidr) <==> ip in FreeIps(p, cidr) + LiveIn(p, deletes, cidr) {
      FreeIpsIn(p, cidr, ip);
      FreeIpsIn(p1, cidr, ip);
      if ip in p.owner {
        var h := p.owner[ip];
        DeletesDrain(p, deletes, h);
        SubsetSize(OwnedBy(p1, h), OwnedBy(p, h));
        assert ip in p1.owner <==> ip in OwnedBy(p1, h);
        assert ip in OwnedBy(p, h);
      }
    }
    forall ip | ip in LiveIn(p, deletes, cidr) ensures ip !in FreeIps(p, cidr) {
      FreeIpsIn(p, cidr, ip);
    }
    assert FreeIps(p1, cidr) == FreeIps(p, cidr) + LiveIn(p, deletes, cidr);
  }

  lemma {:induction false} DeletesSound(p: Pool, deletes: seq<Request>)
    requires Sound(p)
    ensures Sound(PoolHandleAll(p, deletes).0) && PoolHandleAll(p, deletes).0.slots == p.slots
    decreases |deletes|
  {
    if deletes != [] {
      StepSound(p, deletes[0]);
      DeletesSound(PoolHandle(p, deletes[0]).0, deletes[1..]);
    }
  }

  /** Those of the creates whose host owns nothing or is named by the deletes. */
  ghost function Needy(p: Pool, deletes: seq<Request>, creates: seq<Request>): seq<Request> {
    if creates == [] then []
    else
      var r := creates[0];
      (if OwnedBy(p, r.host) == {} || Asked(deletes, r.host) > 0 then [r] else []) + Needy(p, deletes, creates[1..])
  }

  lemma {:induction false} NeedyIsFresh(p: Pool, deletes: seq<Request>, creates: seq<Request>)
    requires AllDeletes(deletes) && Covers(p, deletes)
    ensures Needy(p, deletes, creates) == Fresh(PoolHandleAll(p, deletes).0, creates)
    decreases |creates|
  {
    hide OwnedBy, PoolHandleAll;
    if creates != [] {
      var h := creates[0].host;
      DeletesDrain(p, deletes, h);
      SubsetSize(OwnedBy(PoolHandleAll(p, deletes).0, h), OwnedBy(p, h));
      NeedyIsFresh(p, deletes, creates[1..]);
    }
  }

  /** No CIDR is asked for more, by hosts that own nothing or are deleted, than its free
      addresses plus those its deleted hosts give back. */
  ghost predicate Supplied(p: Pool, deletes: seq<Request>, creates: seq<Request>) {
    forall c :: AskedIn(Needy(p, deletes, creates), c) <= |FreeIps(p, c)| + |LiveIn(p, deletes, c)|
  }

  /** Deletes issued before creates, in any order within each group: every create is answered
      exactly when no CIDR is asked for more, by hosts that own nothing or are deleted just
      before, than its free addresses plus those its deleted hosts give back. */
  lemma SwapUnderExhaustion(p: Pool, deletes: seq<Request>, creates: seq<Request>)
    requires Sound(p) && AllDeletes(deletes) && Covers(p, deletes) && PlainCreates(creates)
    ensures |PoolHandleAll(PoolHandleAll(p, deletes).0, creates).1| == |creates|
       <==> Supplied(p, deletes, creates)
  {
    hide PoolHandleAll, Sound, FreeIps, LiveIn, PlainCreates, Needy, Fresh;
    var p1, needy := PoolHandleAll(p, deletes).0, Needy(p, deletes, creates);
    DeletesSound(p, deletes);
    AllServedIff(p1, creates);
    NeedyIsFresh(p, deletes, creates);
    forall c ensures |FreeIps(p1, c)| == |FreeIps(p, c)| + |LiveIn(p, deletes, c)| {
      DeletesFree(p, deletes, c);
    }
    assert Fits(p1, needy) <==> forall c :: AskedIn(needy, c) <= |FreeIps(p1, c)|;
  }

  // ---------------------------------------------------------------- first fit

  /** The slots of a CIDR are in ascending numerical order, as one range leaves them. */
  ghost predicate Ascending(slots: seq<Slot>, cidr: string) {
    && (forall i :: 0 <= i < |slots| && slots[i].cidr == cidr ==> Ip.ParseIP(slots[i].ip).Some?)
    && (forall i, j :: 0 <= i < j < |slots| && slots[i].cidr == cidr && slots[j].cidr == cidr ==>
          Ip.ParseIP(slots[i].ip).value < Ip.ParseIP(slots[j].ip).value)
  }

  /** After any run, a plain CREATE for a host without a record gets the numerically smallest
      free address of a CIDR filled in ascending order: released rows keep their id. */
  lemma FirstFitIsLeast(core: Core, reqs: seq<Request>, req: Request)
    requires Consistent(core) && Ascending(Slots(core.tables.rows), req.cidr)
    requires PlainCreate(req)
    ensures var later := HandleAll(core, reqs).0;
      var r := Handle(later, req).1;
      LeastIp(later.tables.records, req.host) == "" ==>
        && (r.None? <==> FreeIps(Abs(later.tables), req.cidr) == {})
        && (r.Some? ==>
              && r.value.ip in FreeIps(Abs(later.tables), req.cidr)
              && Ip.ParseIP(r.value.ip).Some?
              && forall x :: x in FreeIps(Abs(later.tables), req.cidr) ==>
                   Ip.ParseIP(x).Some? && Ip.ParseIP(r.value.ip).value <= Ip.ParseIP(x).value)
  {
    hide Ip.ParseIP, Handle, HandleAll, Consistent;
    HandleAllRefines(core, reqs);
    RowsConserved(core, reqs);
    var later := HandleAll(core, reqs).0;
    var p := Abs(later.tables);
    HandleRefines(later, req);
    ConsistentMatched(later);
    LeastIpIsLeast(later.tables, req.host);
    LeastOfAscending(p, req.cidr);
  }

  lemma ConsistentMatched(core: Core)
    requires Consistent(core)
    ensures Matched(core.tables)
  {
  }

  lemma LeastOfAscending(p: Pool, cidr: string)
    requires Ascending(p.slots, cidr)
    ensures NextIp(p, cidr).None? <==> FreeIps(p, cidr) == {}
    ensures NextIp(p, cidr).Some? ==>
      var ip := NextIp(p, cidr).value;
      && ip in FreeIps(p, cidr) && Ip.ParseIP(ip).Some?
      && forall x :: x in FreeIps(p, cidr) ==> Ip.ParseIP(x).Some? && Ip.ParseIP(ip).value <= Ip.ParseIP(x).value
  {
    hide Ip.ParseIP;
    if NextIp(p, cidr).Some? {
      NextIpOpen(p, cidr);
      var k: nat :| IsFirstOpen(p, cidr, k) && NextIp(p, cidr).value == p.slots[k].ip;
      assert IsFirstOpen(p, cidr, k);
      forall x | x in FreeIps(p, cidr)
        ensures Ip.ParseIP(x).Some? && Ip.ParseIP(p.slots[k].ip).value <= Ip.ParseIP(x).value
      {
        var i :| 0 <= i < |p.slots| && Open(p, i, cidr) && p.slots[i].ip == x;
        assert i >= k;
      }
    }
  }
}
