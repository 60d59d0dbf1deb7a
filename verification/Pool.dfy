/** The simple form of the store: fixed slots and who owns which address. The tables, the
    provider's guards and the controller's branches together refine it. */
module Pool {
  import opened Wrappers
  import opened Text
  import opened Ip
  import opened Store
  import opened Provider
  import opened Manager
  import opened Controller

  datatype Slot = Slot(ip: string, cidr: string)

  datatype Pool = Pool(slots: seq<Slot>, owner: map<string, string>)

  // ---------------------------------------------------------------- requests on a pool

  ghost function OwnedBy(p: Pool, host: string): set<string> {
    set ip | ip in p.owner && p.owner[ip] == host
  }

  ghost predicate IsLeast(s: set<string>, ip: string) {
    ip in s && forall x :: x in s ==> LexLe(ip, x)
  }

  lemma {:induction false} LeastExists(s: set<string>)
    requires s != {}
    ensures exists ip :: IsLeast(s, ip)
    decreases |s|
  {
    var x :| x in s;
    var rest := s - {x};
    LexTotal(x, x);
    if rest == {} {
      assert s == {x};
      assert IsLeast(s, x);
    } else {
      LeastExists(rest);
      var y :| IsLeast(rest, y);
      LexTotal(x, y);
      if LexLe(x, y) {
        forall z | z in s ensures LexLe(x, z) {
          if z != x { LexTransitive(x, y, z); }
        }
        assert IsLeast(s, x);
      } else {
        assert IsLeast(s, y);
      }
    }
  }

  ghost function Least(s: set<string>): (ip: string)
    requires s != {}
    ensures IsLeast(s, ip)
  {
    LeastExists(s);
    var ip :| IsLeast(s, ip);
    ip
  }

  lemma LeastUnique(s: set<string>, a: string, b: string)
    requires IsLeast(s, a) && IsLeast(s, b)
    ensures a == b
  {
    LexAntisymmetric(a, b);
  }

  predicate Open(p: Pool, i: nat, cidr: string)
    requires i < |p.slots|
  {
    p.slots[i].cidr == cidr && p.slots[i].ip !in p.owner
  }

  ghost predicate IsFirstOpen(p: Pool, cidr: string, k: nat) {
    k < |p.slots| && Open(p, k, cidr) && forall j :: 0 <= j < k ==> !Open(p, j, cidr)
  }

  /** The addresses of a CIDR that nobody owns. */
  ghost function FreeIps(p: Pool, cidr: string): set<string> {
    set i | 0 <= i < |p.slots| && Open(p, i, cidr) :: p.slots[i].ip
  }

  ghost function NextIp(p: Pool, cidr: string): (ip: Option<string>)
    ensures ip.Some? ==> exists k: nat :: IsFirstOpen(p, cidr, k) && ip.value == p.slots[k].ip
    ensures ip.None? ==> FreeIps(p, cidr) == {}
  {
    if k: nat :| IsFirstOpen(p, cidr, k) then Some(p.slots[k].ip) else
      NoneOpen(p, cidr, |p.slots|);
      None
  }

  lemma NextIpIs(p: Pool, cidr: string, k: nat)
    requires IsFirstOpen(p, cidr, k)
    ensures NextIp(p, cidr) == Some(p.slots[k].ip)
  {
  }

  lemma {:induction false} NoneOpen(p: Pool, cidr: string, n: nat)
    requires n <= |p.slots| && !exists k: nat :: IsFirstOpen(p, cidr, k)
    ensures forall j :: 0 <= j < n ==> !Open(p, j, cidr)
  {
    if n > 0 {
      NoneOpen(p, cidr, n - 1);
      assert !IsFirstOpen(p, cidr, n - 1);
    }
  }

  /** One request on a pool: the same four outcomes, without rows, ids, texts or guards. */
  ghost function PoolHandle(p: Pool, req: Request): (Pool, Option<Response>) {
    var held := OwnedBy(p, req.host);
    match req.op
    case Create =>
      if req.ip != "" then
        if Slot(req.ip, req.cidr) in p.slots && req.ip !in p.owner then
          (p.(owner := p.owner[req.ip := req.host]), Some(Response(req, req.ip, true)))
        else (p, Some(Response(req, "", false)))
      else if held != {} then (p, Some(Response(req, Least(held), true)))
      else
        (match NextIp(p, req.cidr)
         case None => (p, None)
         case Some(ip) => (p.(owner := p.owner[ip := req.host]), Some(Response(req, ip, true))))
    case Delete =>
      var p1 := if held != {} then p.(owner := p.owner - {Least(held)}) else p;
      (p1, Some(Response(req, "", true)))
  }

  ghost function PoolHandleAll(p: Pool, reqs: seq<Request>): (Pool, seq<Response>)
    decreases |reqs|
  {
    if reqs == [] then (p, [])
    else
      var (p1, r) := PoolHandle(p, reqs[0]);
      var (p2, rest) := PoolHandleAll(p1, reqs[1..]);
      (p2, Sent(r) + rest)
  }

  // ---------------------------------------------------------------- the tables as a pool

  function Slots(rows: seq<Row>): (s: seq<Slot>)
    ensures |s| == |rows|
  {
    seq(|rows|, i requires 0 <= i < |rows| => Slot(rows[i].ip, rows[i].cidr))
  }

  function Owner(records: seq<ARecord>): map<string, string> {
    if records == [] then map[]
    else
      var n := |records| - 1;
      Owner(records[..n])[records[n].ip := records[n].host]
  }

  function Abs(t: Tables): Pool {
    Pool(Slots(t.rows), Owner(t.records))
  }

  /** The pool hypotheses: no address in two slots, every slot an IPv4 address that lies in
      the prefix its supported label names. */
  predicate WellFormed(cidrs: set<string>, slots: seq<Slot>) {
    DistinctSlots(slots) && forall i {:trigger Usable(cidrs, slots[i])} :: 0 <= i < |slots| ==> Usable(cidrs, slots[i])
  }

  predicate DistinctSlots(slots: seq<Slot>) {
    forall i, j :: 0 <= i < j < |slots| ==> slots[i].ip != slots[j].ip
  }

  predicate Usable(cidrs: set<string>, slot: Slot) {
    slot.cidr in cidrs && InPrefix(slot.cidr, slot.ip) && IsIPv4Addr(slot.ip)
  }

  predicate DistinctIps(records: seq<ARecord>) {
    forall i, j :: 0 <= i < j < |records| ==> records[i].ip != records[j].ip
  }

  predicate InSlots(slots: seq<Slot>, ip: string) {
    exists i :: 0 <= i < |slots| && slots[i].ip == ip
  }

  /** Record addresses are pairwise distinct pool addresses, and a row is allocated exactly
      when a record names its address. */
  predicate Matched(t: Tables) {
    && DistinctSlots(Slots(t.rows))
    && (forall i :: 0 <= i < |t.rows| ==> t.rows[i].ip != "")
    && DistinctIps(t.records)
    && (forall i :: 0 <= i < |t.rows| ==> (t.rows[i].status == Allocated <==> t.rows[i].ip in Owner(t.records)))
    && (forall ip :: ip in Owner(t.records) ==> InSlots(Slots(t.rows), ip))
  }

  /** What every run keeps. */
  predicate Consistent(core: Core) {
    WellFormed(core.cidrs, Slots(core.tables.rows)) && Matched(core.tables)
  }

  lemma {:induction false} OwnerIn(records: seq<ARecord>)
    requires DistinctIps(records)
    ensures forall ip, host :: ARecord(ip, host) in records <==> ip in Owner(records) && Owner(records)[ip] == host
    ensures forall ip :: ip in Owner(records) ==> ARecord(ip, Owner(records)[ip]) in records
    ensures forall r :: r in records ==> r.ip in Owner(records) && Owner(records)[r.ip] == r.host
  {
    if records != [] {
      var n := |records| - 1;
      OwnerIn(records[..n]);
      var front, last := records[..n], records[n];
      assert records == front + [last];
      forall ip, host
        ensures ARecord(ip, host) in records <==> ip in Owner(records) && Owner(records)[ip] == host
      {
        assert forall i :: 0 <= i < n ==> front[i] == records[i] && records[i].ip != last.ip;
      }
    }
  }

  lemma {:induction false} WithoutDistinct(records: seq<ARecord>, r: ARecord)
    requires DistinctIps(records)
    ensures DistinctIps(Without(records, r))
  {
    if records != [] {
      var n := |records| - 1;
      WithoutDistinct(records[..n], r);
      var front := Without(records[..n], r);
      forall i | 0 <= i < |front| ensures front[i].ip != records[n].ip {
        assert front[i] in records[..n];
      }
    }
  }

  lemma OwnerWithout(records: seq<ARecord>, r: ARecord)
    requires DistinctIps(records) && r in records
    ensures Owner(Without(records, r)) == Owner(records) - {r.ip}
  {
    hide Owner, DistinctIps;
    var rest := Without(records, r);
    WithoutDistinct(records, r);
    OwnerIn(records);
    OwnerIn(rest);
    var a, b := Owner(rest), Owner(records) - {r.ip};
    forall ip ensures (ip in a <==> ip in b) && (ip in a ==> a[ip] == b[ip]) {
      assert ip in a ==> ARecord(ip, a[ip]) in records;
      assert ip in b ==> ARecord(ip, b[ip]) in rest;
    }
  }

  // ---------------------------------------------------------------- the two table changes

  function Granted(t: Tables, k: nat, host: string): Tables
    requires k < |t.rows|
  {
    Tables(Taken(t.rows, k), t.records + [ARecord(t.rows[k].ip, host)])
  }

  function Revoked(t: Tables, ip: string, host: string): Tables {
    Tables(Released(t.rows, ip), Without(t.records, ARecord(ip, host)))
  }

  lemma GrantOwner(t: Tables, k: nat, host: string)
    requires k < |t.rows|
    ensures Owner(Granted(t, k, host).records) == Owner(t.records)[t.rows[k].ip := host]
    ensures Slots(Granted(t, k, host).rows) == Slots(t.rows)
  {
  }

  lemma GrantDistinct(t: Tables, k: nat, host: string)
    requires DistinctIps(t.records) && k < |t.rows| && t.rows[k].ip !in Owner(t.records)
    ensures DistinctIps(Granted(t, k, host).records)
  {
    OwnerIn(t.records);
    forall i | 0 <= i < |t.records| ensures t.records[i].ip != t.rows[k].ip {
      assert ARecord(t.records[i].ip, t.records[i].host) in t.records;
    }
  }

  /** Granting a row changes one status and one owner, both of that row's address. */
  lemma GrantStatus(t: Tables, k: nat, host: string, i: nat)
    requires Matched(t) && k < |t.rows| && t.rows[k].status == Available && i < |t.rows|
    ensures var t1 := Granted(t, k, host);
      t1.rows[i].status == Allocated <==> t1.rows[i].ip in Owner(t.records)[t.rows[k].ip := host]
  {
    hide Owner, DistinctIps, InSlots;
    var slots := Slots(t.rows);
    assert slots[i].ip == t.rows[i].ip && slots[k].ip == t.rows[k].ip;
  }

  /** Taking an available row and recording its new owner. */
  lemma GrantKeeps(t: Tables, k: nat, host: string)
    requires Matched(t) && k < |t.rows| && t.rows[k].status == Available
    ensures t.rows[k].ip !in Abs(t).owner
    ensures Matched(Granted(t, k, host))
    ensures Abs(Granted(t, k, host)) == Abs(t).(owner := Abs(t).owner[t.rows[k].ip := host])
  {
    hide Owner, DistinctIps, DistinctSlots;
    var t1, slots := Granted(t, k, host), Slots(t.rows);
    GrantOwner(t, k, host);
    GrantDistinct(t, k, host);
    forall i | 0 <= i < |t.rows|
      ensures t1.rows[i].status == Allocated <==> t1.rows[i].ip in Owner(t1.records)
    {
      GrantStatus(t, k, host, i);
    }
    assert slots[k].ip == t.rows[k].ip;
  }

  /** Deleting a record and making its row available again. */
  lemma RevokeKeeps(t: Tables, ip: string, host: string)
    requires Matched(t) && ARecord(ip, host) in t.records
    ensures ip != "" && Matched(Revoked(t, ip, host))
    ensures Abs(Revoked(t, ip, host)) == Abs(t).(owner := Abs(t).owner - {ip})
  {
    hide Without, Owner, DistinctIps;
    OwnerIn(t.records);
    var k :| 0 <= k < |t.rows| && Slots(t.rows)[k].ip == ip;
    assert t.rows[k].ip == ip;
    assert Slots(Released(t.rows, ip)) == Slots(t.rows);
    OwnerWithout(t.records, ARecord(ip, host));
    WithoutDistinct(t.records, ARecord(ip, host));
  }

  // ---------------------------------------------------------------- refinement

  /** One request on the tables alone, without the provider's and the manager's guards. */
  function TableHandle(t: Tables, req: Request): (Tables, Option<Response>) {
    var held := LeastIp(t.records, req.host);
    match req.op
    case Create =>
      if req.ip != "" then
        var k := FirstFreeAt(t.rows, req.cidr, req.ip);
        if k < |t.rows| then (Granted(t, k, req.host), Some(Response(req, req.ip, true)))
        else (t, Some(Response(req, "", false)))
      else if held != "" then (t, Some(Response(req, held, true)))
      else
        var k := FirstFree(t.rows, req.cidr);
        if k < |t.rows| then (Granted(t, k, req.host), Some(Response(req, t.rows[k].ip, true)))
        else (t, None)
    case Delete =>
      (if held != "" then Revoked(t, held, req.host) else t, Some(Response(req, "", true)))
  }

  lemma LeastIpIsLeast(t: Tables, host: string)
    requires Matched(t)
    ensures var held := OwnedBy(Abs(t), host);
      var ip := LeastIp(t.records, host);
      && (ip != "" <==> held != {})
      && (ip != "" ==> ip == Least(held) && ARecord(ip, host) in t.records)
  {
    var held := OwnedBy(Abs(t), host);
    OwnerIn(t.records);
    forall x ensures x in held <==> ARecord(x, host) in t.records {}
    match LeastRecord(t.records, host)
    case None =>
    case Some(ip) =>
      assert ip in held;
      RevokeKeeps(t, ip, host);
      assert IsLeast(held, ip);
      LeastUnique(held, ip, Least(held));
  }

  lemma FreeIsOpen(t: Tables, i: nat, cidr: string)
    requires Matched(t) && i < |t.rows|
    ensures Free(t.rows[i], cidr) <==> Open(Abs(t), i, cidr)
    ensures Slots(t.rows)[i] == Slot(t.rows[i].ip, t.rows[i].cidr)
  {
  }

  /** First fit over the rows finds the pool's next address. */
  lemma NextRefines(t: Tables, cidr: string)
    requires Matched(t)
    ensures var k := FirstFree(t.rows, cidr);
      NextIp(Abs(t), cidr) == if k < |t.rows| then Some(t.rows[k].ip) else None
  {
    var p, k := Abs(t), FirstFree(t.rows, cidr);
    forall j | 0 <= j < |t.rows| ensures Free(t.rows[j], cidr) <==> Open(p, j, cidr) {
      FreeIsOpen(t, j, cidr);
    }
    if k < |t.rows| {
      NextIpIs(p, cidr, k);
    }
  }

  ghost predicate TableRefined(t: Tables, req: Request) {
    var (t1, r) := TableHandle(t, req);
    Matched(t1) && (Abs(t1), r) == PoolHandle(Abs(t), req)
  }

  lemma RefinesPlainCreate(t: Tables, req: Request)
    requires Matched(t) && req.op == Create && req.ip == ""
    ensures TableRefined(t, req)
  {
    LeastIpIsLeast(t, req.host);
    NextRefines(t, req.cidr);
    var k := FirstFree(t.rows, req.cidr);
    if k < |t.rows| {
      GrantKeeps(t, k, req.host);
    }
  }

  lemma RefinesExplicitCreate(t: Tables, req: Request)
    requires Matched(t) && req.op == Create && req.ip != ""
    ensures TableRefined(t, req)
  {
    var p := Abs(t);
    var k := FirstFreeAt(t.rows, req.cidr, req.ip);
    if Slot(req.ip, req.cidr) in p.slots && req.ip !in p.owner {
      var i :| 0 <= i < |t.rows| && p.slots[i] == Slot(req.ip, req.cidr);
      FreeIsOpen(t, i, req.cidr);
      GrantKeeps(t, k, req.host);
    } else {
      forall j | 0 <= j < |t.rows| ensures !(Free(t.rows[j], req.cidr) && t.rows[j].ip == req.ip) {
        FreeIsOpen(t, j, req.cidr);
        assert p.slots[j] in p.slots;
      }
    }
  }

  lemma RefinesDelete(t: Tables, req: Request)
    requires Matched(t) && req.op == Delete
    ensures TableRefined(t, req)
  {
    LeastIpIsLeast(t, req.host);
    var ip := LeastIp(t.records, req.host);
    if ip != "" {
      RevokeKeeps(t, ip, req.host);
    }
  }

  lemma TablesRefine(t: Tables, req: Request)
    requires Matched(t)
    ensures TableRefined(t, req)
  {
    match req.op
    case Create =>
      if req.ip == "" { RefinesPlainCreate(t, req); } else { RefinesExplicitCreate(t, req); }
    case Delete =>
      RefinesDelete(t, req);
  }

  // ---------------------------------------------------------------- the guards

  /** Every slot passes the guards on the way to its row. */
  lemma SlotUsable(core: Core, i: nat)
    requires Consistent(core) && i < |core.tables.rows|
    ensures Usable(core.cidrs, Slot(core.tables.rows[i].ip, core.tables.rows[i].cidr))
  {
    assert Usable(core.cidrs, Slots(core.tables.rows)[i]);
  }

  lemma UsablePasses(cidrs: set<string>, slot: Slot)
    requires Usable(cidrs, slot)
    ensures IsIPv4Addr(slot.ip) && slot.cidr in cidrs
    ensures ParseCIDR(slot.cidr).Some? && InPrefix(slot.cidr, slot.ip)
  {
  }

  lemma NextUnguarded(core: Core, cidr: string)
    requires Consistent(core)
    ensures NextAddress(core, cidr)
         == (core.(tables := AfterAllocate(core.tables, cidr).0), AfterAllocate(core.tables, cidr).1)
  {
    var k := FirstFree(core.tables.rows, cidr);
    if k < |core.tables.rows| {
      SlotUsable(core, k);
      UsablePasses(core.cidrs, Slot(core.tables.rows[k].ip, core.tables.rows[k].cidr));
    }
  }

  lemma MarkUnguarded(core: Core, cidr: string, ip: string)
    requires Consistent(core)
    ensures AllocateAt(core, cidr, ip)
         == (core.(tables := AfterMark(core.tables, cidr, ip).0), AfterMark(core.tables, cidr, ip).1)
  {
    var k := FirstFreeAt(core.tables.rows, cidr, ip);
    if k < |core.tables.rows| {
      SlotUsable(core, k);
      UsablePasses(core.cidrs, Slot(core.tables.rows[k].ip, core.tables.rows[k].cidr));
    }
  }

  lemma CreateUnguarded(core: Core, k: nat, host: string)
    requires Consistent(core) && k < |core.tables.rows|
    ensures var taken := core.(tables := core.tables.(rows := Taken(core.tables.rows, k)));
      RecordCreated(taken, host, core.tables.rows[k].ip)
         == core.(tables := Granted(core.tables, k, host))
  {
    SlotUsable(core, k);
    UsablePasses(core.cidrs, Slot(core.tables.rows[k].ip, core.tables.rows[k].cidr));
  }

  lemma DeleteUnguarded(core: Core, ip: string, host: string)
    requires Consistent(core) && ARecord(ip, host) in core.tables.records
    ensures RecordDeleted(AddressReleased(core, ip), host, ip) == core.(tables := Revoked(core.tables, ip, host))
  {
    OwnerIn(core.tables.records);
    var k :| 0 <= k < |core.tables.rows| && Slots(core.tables.rows)[k].ip == ip;
    SlotUsable(core, k);
    UsablePasses(core.cidrs, Slot(core.tables.rows[k].ip, core.tables.rows[k].cidr));
  }

  /** On a consistent store no guard ever changes an outcome. */
  lemma GuardsTransparent(core: Core, req: Request)
    requires Consistent(core)
    ensures Handle(core, req) == (core.(tables := TableHandle(core.tables, req).0), TableHandle(core.tables, req).1)
  {
    var t := core.tables;
    match req.op
    case Create =>
      if req.ip != "" {
        MarkUnguarded(core, req.cidr, req.ip);
        var k := FirstFreeAt(t.rows, req.cidr, req.ip);
        if k < |t.rows| { CreateUnguarded(core, k, req.host); }
      } else {
        NextUnguarded(core, req.cidr);
        var k := FirstFree(t.rows, req.cidr);
        if k < |t.rows| { CreateUnguarded(core, k, req.host); }
      }
    case Delete =>
      LeastIpIsLeast(t, req.host);
      var held := LeastIp(t.records, req.host);
      if held != "" { DeleteUnguarded(core, held, req.host); }
  }

  lemma SlotsFixed(p: Pool, req: Request)
    ensures PoolHandle(p, req).0.slots == p.slots
  {
  }

  ghost predicate Refined(core: Core, req: Request) {
    var (core1, r) := Handle(core, req);
    && Consistent(core1) && core1.cidrs == core.cidrs
    && (Abs(core1.tables), r) == PoolHandle(Abs(core.tables), req)
  }

  /** One request: the store stays consistent and does what the pool does, response included. */
  lemma HandleRefines(core: Core, req: Request)
    requires Consistent(core)
    ensures Refined(core, req)
  {
    GuardsTransparent(core, req);
    TablesRefine(core.tables, req);
    SlotsFixed(Abs(core.tables), req);
  }

  /** Any run of requests, for any hosts in any order. */
  lemma {:induction false} HandleAllRefines(core: Core, reqs: seq<Request>)
    requires Consistent(core)
    ensures var (core1, rs) := HandleAll(core, reqs);
      && Consistent(core1) && core1.cidrs == core.cidrs
      && (Abs(core1.tables), rs) == PoolHandleAll(Abs(core.tables), reqs)
    decreases |reqs|
  {
    if reqs != [] {
      HandleRefines(core, reqs[0]);
      HandleAllRefines(Handle(core, reqs[0]).0, reqs[1..]);
    }
  }
}
