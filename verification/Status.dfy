/** What the status list and the spec diffs amount to: a map, and a walk between sets. */
module Status {
  import opened Wrappers
  import opened Provider
  import opened Controller
  import opened Orchestrator

  // ---------------------------------------------------------------- the list as a map

  function KeyOf(e: IPSpec): HostSpec { HostSpec(e.host, e.cidr) }

  predicate UniqueKeys(list: seq<IPSpec>) {
    forall i, j :: 0 <= i < j < |list| ==> KeyOf(list[i]) != KeyOf(list[j])
  }

  function StatusMap(list: seq<IPSpec>): map<HostSpec, string> {
    if list == [] then map[]
    else
      var n := |list| - 1;
      StatusMap(list[..n])[KeyOf(list[n]) := list[n].ip]
  }

  /** What a response does to one key of the map. */
  datatype Effect = PutIp(ip: string) | Drop | Keep

  function EffectOf(resp: Response): Effect {
    match resp.req.op
    case Create => if resp.ok then PutIp(resp.ip) else Drop
    case Delete => if resp.ok then Drop else Keep
  }

  function AppliedMap(m: map<HostSpec, string>, resp: Response): map<HostSpec, string> {
    match EffectOf(resp)
    case PutIp(ip) => m[Key(resp.req) := ip]
    case Drop => m - {Key(resp.req)}
    case Keep => m
  }

  function AppliedMapAll(m: map<HostSpec, string>, rs: seq<Response>): map<HostSpec, string> {
    if rs == [] then m else AppliedMap(AppliedMapAll(m, rs[..|rs| - 1]), rs[|rs| - 1])
  }

  lemma {:induction false} StatusMapIs(list: seq<IPSpec>)
    requires UniqueKeys(list)
    ensures forall k, ip :: (k in StatusMap(list) && StatusMap(list)[k] == ip) <==> IPSpec(k.host, k.cidr, ip) in list
    ensures forall e :: e in list ==> KeyOf(e) in StatusMap(list) && StatusMap(list)[KeyOf(e)] == e.ip
    ensures forall k :: k in StatusMap(list) ==> IPSpec(k.host, k.cidr, StatusMap(list)[k]) in list
  {
    if list != [] {
      var n := |list| - 1;
      var front, last := list[..n], list[n];
      StatusMapIs(front);
      assert list == front + [last];
      assert forall i :: 0 <= i < n ==> front[i] == list[i] && KeyOf(list[i]) != KeyOf(last);
      forall k, ip ensures (k in StatusMap(list) && StatusMap(list)[k] == ip) <==> IPSpec(k.host, k.cidr, ip) in list {
        assert KeyOf(IPSpec(k.host, k.cidr, ip)) == k;
        assert IPSpec(k.host, k.cidr, ip) == last <==> k == KeyOf(last) && ip == last.ip;
      }
    }
  }

  lemma {:induction false} ListedIff(list: seq<IPSpec>, k: HostSpec)
    ensures Listed(list, k) <==> k in StatusMap(list)
  {
    if list != [] {
      var n := |list| - 1;
      var front := list[..n];
      ListedIff(front, k);
      assert forall i :: 0 <= i < n ==> front[i] == list[i];
      assert Matches(list[n], k) <==> KeyOf(list[n]) == k;
      if Listed(front, k) {
        var i :| 0 <= i < n && Matches(front[i], k);
        assert Matches(list[i], k);
      }
    }
  }

  /** The entries other than a key's, in their order. */
  function Others(list: seq<IPSpec>, k: HostSpec): seq<IPSpec> {
    if list == [] then []
    else
      var n := |list| - 1;
      Others(list[..n], k) + if KeyOf(list[n]) == k then [] else [list[n]]
  }

  function Keys(list: seq<IPSpec>): (ks: seq<HostSpec>)
    ensures |ks| == |list| && forall i :: 0 <= i < |list| ==> ks[i] == KeyOf(list[i])
  {
    seq(|list|, i requires 0 <= i < |list| => KeyOf(list[i]))
  }

  lemma {:induction false} OverwrittenMap(list: seq<IPSpec>, k: HostSpec, ip: string)
    ensures var m := StatusMap(list);
      StatusMap(Overwritten(list, k, ip)) == if k in m then m[k := ip] else m
  {
    if list != [] {
      var n := |list| - 1;
      OverwrittenMap(list[..n], k, ip);
      assert Overwritten(list, k, ip)[..n] == Overwritten(list[..n], k, ip);
      assert Matches(list[n], k) <==> KeyOf(list[n]) == k;
    }
  }

  /** A success is a map put: an existing entry keeps its place, a new one goes last. */
  lemma PutIsMapPut(list: seq<IPSpec>, k: HostSpec, ip: string)
    requires UniqueKeys(list)
    ensures UniqueKeys(Put(list, k, ip))
    ensures StatusMap(Put(list, k, ip)) == StatusMap(list)[k := ip]
    ensures Keys(Put(list, k, ip)) == if k in StatusMap(list) then Keys(list) else Keys(list) + [k]
  {
    hide StatusMap;
    ListedIff(list, k);
    if Listed(list, k) {
      OverwrittenMap(list, k, ip);
      var r := Overwritten(list, k, ip);
      assert forall i :: 0 <= i < |list| ==> KeyOf(r[i]) == KeyOf(list[i]);
    } else {
      StatusMapAppend(list, IPSpec(k.host, k.cidr, ip));
      forall i | 0 <= i < |list| ensures KeyOf(list[i]) != k {
        assert !Matches(list[i], k);
      }
    }
  }

  lemma StatusMapAppend(list: seq<IPSpec>, e: IPSpec)
    ensures StatusMap(list + [e]) == StatusMap(list)[KeyOf(e) := e.ip]
  {
  }

  lemma {:induction false} OthersAbsent(list: seq<IPSpec>, k: HostSpec)
    requires forall i :: 0 <= i < |list| ==> KeyOf(list[i]) != k
    ensures Others(list, k) == list
  {
    hide KeyOf;
    if list != [] {
      var n := |list| - 1;
      var front := list[..n];
      assert forall i :: 0 <= i < n ==> front[i] == list[i];
      OthersAbsent(front, k);
      assert list == front + [list[n]];
    }
  }

  lemma RemovedSnoc(front: seq<IPSpec>, last: IPSpec, k: HostSpec)
    ensures Removed(front + [last], k) == if KeyOf(last) == k then front else Removed(front, k) + [last]
  {
  }

  lemma {:induction false} RemovedIsOthers(list: seq<IPSpec>, k: HostSpec)
    requires UniqueKeys(list)
    ensures Removed(list, k) == Others(list, k)
  {
    if list != [] {
      var n := |list| - 1;
      var front, last := list[..n], list[n];
      assert list == front + [last];
      RemovedSnoc(front, last, k);
      if KeyOf(last) == k {
        assert forall i :: 0 <= i < n ==> front[i] == list[i] && KeyOf(list[i]) != KeyOf(last);
        OthersAbsent(front, k);
      } else {
        RemovedIsOthers(front, k);
      }
    }
  }

  lemma {:induction false} OthersUnique(list: seq<IPSpec>, k: HostSpec)
    requires UniqueKeys(list)
    ensures UniqueKeys(Others(list, k))
    ensures forall e :: e in Others(list, k) ==> e in list
  {
    if list != [] {
      var n := |list| - 1;
      var front, last := list[..n], list[n];
      OthersUnique(front, k);
      var rest := Others(front, k);
      assert forall i :: 0 <= i < n ==> front[i] == list[i] && KeyOf(list[i]) != KeyOf(last);
      forall i | 0 <= i < |rest| ensures KeyOf(rest[i]) != KeyOf(last) {
        assert rest[i] in front;
      }
      var all := Others(list, k);
      assert forall i :: 0 <= i < |rest| ==> all[i] == rest[i];
      assert |all| > |rest| ==> all[|rest|] == last && |all| == |rest| + 1;
      assert list == front + [last];
    }
  }

  lemma {:induction false} OthersMap(list: seq<IPSpec>, k: HostSpec)
    ensures StatusMap(Others(list, k)) == StatusMap(list) - {k}
  {
    if list != [] {
      var n := |list| - 1;
      OthersMap(list[..n], k);
      if KeyOf(list[n]) != k {
        StatusMapAppend(Others(list[..n], k), list[n]);
        var m := StatusMap(list[..n]);
        assert (m - {k})[KeyOf(list[n]) := list[n].ip] == m[KeyOf(list[n]) := list[n].ip] - {k};
      } else {
        assert Others(list[..n], k) + [] == Others(list[..n], k);
        assert StatusMap(list) - {k} == StatusMap(list[..n]) - {k};
      }
    }
  }

  /** A removal takes the key out of the map; the remaining entries keep their order. */
  lemma RemoveIsMapRemove(list: seq<IPSpec>, k: HostSpec)
    requires UniqueKeys(list)
    ensures Removed(list, k) == Others(list, k) && UniqueKeys(Removed(list, k))
    ensures StatusMap(Removed(list, k)) == StatusMap(list) - {k}
  {
    RemovedIsOthers(list, k);
    OthersUnique(list, k);
    OthersMap(list, k);
  }

  /** Each response, on a list without repeated keys, is its effect on the map. */
  lemma AppliedRefines(list: seq<IPSpec>, resp: Response)
    requires UniqueKeys(list)
    ensures UniqueKeys(Applied(list, resp))
    ensures StatusMap(Applied(list, resp)) == AppliedMap(StatusMap(list), resp)
  {
    var k := Key(resp.req);
    match EffectOf(resp)
    case PutIp(ip) => PutIsMapPut(list, k, ip);
    case Drop => RemoveIsMapRemove(list, k);
    case Keep =>
  }

  /** A response adds no entry of its own making. */
  lemma AppliedFrom(list: seq<IPSpec>, resp: Response, e: IPSpec)
    requires e in Applied(list, resp)
    ensures e in list || (resp.req.op == Create && resp.ok && e == IPSpec(resp.req.host, resp.req.cidr, resp.ip))
  {
  }

  lemma {:induction false} AppliedAllRefines(list: seq<IPSpec>, rs: seq<Response>)
    requires UniqueKeys(list)
    ensures UniqueKeys(AppliedAll(list, rs))
    ensures StatusMap(AppliedAll(list, rs)) == AppliedMapAll(StatusMap(list), rs)
    decreases |rs|
  {
    if rs != [] {
      var n := |rs| - 1;
      AppliedAllRefines(list, rs[..n]);
      AppliedRefines(AppliedAll(list, rs[..n]), rs[n]);
    }
  }

  // ---------------------------------------------------------------- confluence

  ghost predicate DistinctKeys(rs: seq<Response>) {
    forall i, j :: 0 <= i < j < |rs| ==> Key(rs[i].req) != Key(rs[j].req)
  }

  ghost predicate AgreeAt(a: map<HostSpec, string>, b: map<HostSpec, string>, k: HostSpec) {
    (k in a <==> k in b) && (k in a ==> a[k] == b[k])
  }

  lemma AppliedElsewhere(m: map<HostSpec, string>, r: Response, k: HostSpec)
    requires Key(r.req) != k
    ensures AgreeAt(AppliedMap(m, r), m, k)
  {
  }

  /** The last effect the responses have on one key. */
  function LastEffect(rs: seq<Response>, k: HostSpec): Effect {
    if rs == [] then Keep
    else
      var r := rs[|rs| - 1];
      if Key(r.req) == k && EffectOf(r) != Keep then EffectOf(r) else LastEffect(rs[..|rs| - 1], k)
  }

  ghost predicate SameLast(a: seq<Response>, b: seq<Response>) {
    forall k :: LastEffect(a, k) == LastEffect(b, k)
  }

  /** The last effect on a key decides what the map holds for it. */
  lemma {:induction false} LastDecides(m: map<HostSpec, string>, rs: seq<Response>, k: HostSpec)
    ensures match LastEffect(rs, k)
      case PutIp(ip) => k in AppliedMapAll(m, rs) && AppliedMapAll(m, rs)[k] == ip
      case Drop => k !in AppliedMapAll(m, rs)
      case Keep => AgreeAt(AppliedMapAll(m, rs), m, k)
    decreases |rs|
  {
    if rs != [] {
      var n := |rs| - 1;
      LastDecides(m, rs[..n], k);
      if Key(rs[n].req) != k { AppliedElsewhere(AppliedMapAll(m, rs[..n]), rs[n], k); }
    }
  }

  predicate Touches(r: Response, k: HostSpec) { Key(r.req) == k && EffectOf(r) != Keep }

  lemma {:induction false} LastIsOne(rs: seq<Response>, k: HostSpec)
    ensures LastEffect(rs, k) == Keep <==> forall r :: r in rs ==> !Touches(r, k)
    ensures LastEffect(rs, k) != Keep ==> exists r :: r in rs && Touches(r, k) && LastEffect(rs, k) == EffectOf(r)
    decreases |rs|
  {
    hide EffectOf;
    if rs != [] {
      var n := |rs| - 1;
      var front, last := rs[..n], rs[n];
      assert rs == front + [last];
      LastIsOne(front, k);
      assert last in rs && forall r :: r in front ==> r in rs;
      if !Touches(last, k) {
        assert LastEffect(rs, k) == LastEffect(front, k);
        assert forall r :: r in rs ==> r in front || r == last;
      }
    }
  }

  lemma SameMembers<T>(s: seq<T>, t: seq<T>)
    requires multiset(s) == multiset(t)
    ensures forall x :: x in s <==> x in t
  {
    forall x ensures x in s <==> x in t {
      assert x in s <==> x in multiset(s);
      assert x in t <==> x in multiset(t);
    }
  }

  lemma OrderAt(m: map<HostSpec, string>, rs: seq<Response>, perm: seq<Response>, k: HostSpec)
    requires forall r :: r in rs <==> r in perm
    ensures AgreeAt(AppliedMapAll(m, rs), AppliedMapAll(m, perm), k) <==> LastEffect(rs, k) == LastEffect(perm, k)
  {
    hide AppliedMap, AppliedMapAll, LastEffect, Touches;
    LastDecides(m, rs, k);
    LastDecides(m, perm, k);
    LastIsOne(rs, k);
    LastIsOne(perm, k);
    assert LastEffect(rs, k) == Keep <==> LastEffect(perm, k) == Keep;
    match LastEffect(rs, k)
    case PutIp(_) =>
    case Drop =>
    case Keep =>
  }

  /** Exactly when the order of arrival does not matter: whatever came before, the same
      responses in another order give the same map if and only if the last one to have an
      effect on each key has the same effect. */
  lemma OrderIff(m: map<HostSpec, string>, rs: seq<Response>, perm: seq<Response>)
    requires multiset(rs) == multiset(perm)
    ensures AppliedMapAll(m, rs) == AppliedMapAll(m, perm) <==> SameLast(rs, perm)
  {
    hide AppliedMap, AppliedMapAll, LastEffect;
    SameMembers(rs, perm);
    var a, b := AppliedMapAll(m, rs), AppliedMapAll(m, perm);
    if a == b {
      forall k ensures LastEffect(rs, k) == LastEffect(perm, k) { OrderAt(m, rs, perm, k); }
    }
    if SameLast(rs, perm) {
      forall k ensures (k in a <==> k in b) && (k in a ==> a[k] == b[k]) {
        assert LastEffect(rs, k) == LastEffect(perm, k);
        OrderAt(m, rs, perm, k);
      }
    }
  }

  /** With one response per key, there is no order to speak of. */
  lemma DistinctSameLast(rs: seq<Response>, perm: seq<Response>)
    requires DistinctKeys(rs) && multiset(rs) == multiset(perm)
    ensures SameLast(rs, perm)
  {
    hide LastEffect;
    SameMembers(rs, perm);
    forall k ensures LastEffect(rs, k) == LastEffect(perm, k) {
      LastIsOne(rs, k);
      LastIsOne(perm, k);
      if r :| r in rs && Touches(r, k) {
        OneOfKey(rs, r);
      }
    }
  }

  lemma OneOfKey(rs: seq<Response>, r: Response)
    requires DistinctKeys(rs) && r in rs
    ensures forall x :: x in rs && Key(x.req) == Key(r.req) ==> x == r
  {
  }

  /** Responses for pairwise different keys may arrive in any order: same status map. */
  lemma Confluent(list: seq<IPSpec>, rs: seq<Response>, perm: seq<Response>)
    requires UniqueKeys(list) && DistinctKeys(rs) && multiset(rs) == multiset(perm)
    ensures StatusMap(AppliedAll(list, rs)) == StatusMap(AppliedAll(list, perm))
  {
    hide AppliedMapAll, AppliedAll, StatusMap, UniqueKeys, DistinctKeys, SameLast;
    AppliedAllRefines(list, rs);
    AppliedAllRefines(list, perm);
    DistinctSameLast(rs, perm);
    OrderIff(StatusMap(list), rs, perm);
  }

  /** Exactly when two responses may be swapped: different keys, equal effects, or one of
      them changes nothing. A late CREATE success and a DELETE of the same key may not. */
  lemma CommuteIff(r: Response, s: Response)
    ensures (forall m :: AppliedMap(AppliedMap(m, r), s) == AppliedMap(AppliedMap(m, s), r))
       <==> Key(r.req) != Key(s.req) || EffectOf(r) == EffectOf(s) || EffectOf(r) == Keep || EffectOf(s) == Keep
  {
    var k := Key(r.req);
    if k != Key(s.req) || EffectOf(r) == EffectOf(s) || EffectOf(r) == Keep || EffectOf(s) == Keep {
      forall m ensures AppliedMap(AppliedMap(m, r), s) == AppliedMap(AppliedMap(m, s), r) {}
    } else {
      var m: map<HostSpec, string> := map[];
      var a, b := AppliedMap(AppliedMap(m, r), s), AppliedMap(AppliedMap(m, s), r);
      assert a != b by {
        assert !(k in a <==> k in b) || a[k] != b[k];
      }
    }
  }

  // ---------------------------------------------------------------- spec diffs

  function StepKeys(keys: set<HostSpec>, req: Request): set<HostSpec> {
    match req.op
    case Create => keys + {Key(req)}
    case Delete => keys - {Key(req)}
  }

  function WalkKeys(keys: set<HostSpec>, reqs: seq<Request>): set<HostSpec>
    decreases |reqs|
  {
    if reqs == [] then keys else WalkKeys(StepKeys(keys, reqs[0]), reqs[1..])
  }

  lemma {:induction false} WalkConcat(keys: set<HostSpec>, a: seq<Request>, b: seq<Request>)
    ensures WalkKeys(keys, a + b) == WalkKeys(WalkKeys(keys, a), b)
    decreases |a|
  {
    if a == [] {
      assert a + b == b;
    } else {
      assert (a + b)[1..] == a[1..] + b;
      WalkConcat(StepKeys(keys, a[0]), a[1..], b);
    }
  }

  lemma {:induction false} WalkDeletes(keys: set<HostSpec>, gone: seq<HostSpec>)
    ensures WalkKeys(keys, Each(DeleteReq, gone)) == keys - SpecSet(gone)
    decreases |gone|
  {
    if gone != [] {
      assert Each(DeleteReq, gone)[1..] == Each(DeleteReq, gone[1..]);
      assert Key(DeleteReq(gone[0])) == gone[0];
      WalkDeletes(keys - {gone[0]}, gone[1..]);
      assert SpecSet(gone) == {gone[0]} + SpecSet(gone[1..]);
    } else {
      assert Each(DeleteReq, gone) == [];
    }
  }

  lemma {:induction false} WalkCreates(keys: set<HostSpec>, come: seq<HostSpec>)
    ensures WalkKeys(keys, Each(CreateReq, come)) == keys + SpecSet(come)
    decreases |come|
  {
    if come != [] {
      assert Each(CreateReq, come)[1..] == Each(CreateReq, come[1..]);
      assert Key(CreateReq(come[0])) == come[0];
      WalkCreates(keys + {come[0]}, come[1..]);
      assert SpecSet(come) == {come[0]} + SpecSet(come[1..]);
    } else {
      assert Each(CreateReq, come) == [];
    }
  }

  /** Whatever orders the two map iterations take, an update's deletes and creates lead from
      the old spec set to the new one. */
  lemma UpdateWalks(was: seq<HostSpec>, cur: seq<HostSpec>, reqs: seq<Request>)
    requires Emits(Updated(was, cur), reqs)
    ensures WalkKeys(SpecSet(was), reqs) == SpecSet(cur)
  {
    var gone, come :| EmitsUpdate(was, cur, gone, come, reqs);
    WalkConcat(SpecSet(was), Each(DeleteReq, gone), Each(CreateReq, come));
    WalkDeletes(SpecSet(was), gone);
    WalkCreates(SpecSet(was) - SpecSet(gone), come);
    assert SpecSet(gone) == SpecSet(was) - SpecSet(cur);
    assert SpecSet(come) == SpecSet(cur) - SpecSet(was);
  }

  function Flat(reqss: seq<seq<Request>>): seq<Request> {
    if reqss == [] then [] else reqss[0] + Flat(reqss[1..])
  }

  /** A chain of updates telescopes: its requests lead from the first spec to the last. */
  lemma {:induction false} UpdatesTelescope(specs: seq<seq<HostSpec>>, reqss: seq<seq<Request>>)
    requires |specs| == |reqss| + 1
    requires forall i :: 0 <= i < |reqss| ==> Emits(Updated(specs[i], specs[i + 1]), reqss[i])
    ensures WalkKeys(SpecSet(specs[0]), Flat(reqss)) == SpecSet(specs[|reqss|])
    decreases |reqss|
  {
    if reqss != [] {
      UpdateWalks(specs[0], specs[1], reqss[0]);
      WalkConcat(SpecSet(specs[0]), reqss[0], Flat(reqss[1..]));
      assert forall i :: 0 <= i < |reqss[1..]| ==>
        Emits(Updated(specs[1..][i], specs[1..][i + 1]), reqss[1..][i]) by {
        forall i | 0 <= i < |reqss[1..]| ensures Emits(Updated(specs[1..][i], specs[1..][i + 1]), reqss[1..][i]) {
          assert Emits(Updated(specs[i + 1], specs[i + 2]), reqss[i + 1]);
        }
      }
      UpdatesTelescope(specs[1..], reqss[1..]);
    }
  }

  lemma ListsNone<T>(xs: seq<T>, s: set<T>)
    requires Lists(xs, s)
    ensures s == {} ==> xs == []
  {
    if xs != [] {
      assert xs[0] in s;
    }
  }

  /** A status-only update asks for nothing. */
  lemma NoDiffNoRequests(spec: seq<HostSpec>, reqs: seq<Request>)
    requires Emits(Updated(spec, spec), reqs)
    ensures reqs == []
  {
    var gone, come :| EmitsUpdate(spec, spec, gone, come, reqs);
    ListsNone(gone, SpecSet(spec) - SpecSet(spec));
    ListsNone(come, SpecSet(spec) - SpecSet(spec));
  }

  // ---------------------------------------------------------------- queues

  lemma EmitsCons(queue: seq<Event>, a: seq<Request>, b: seq<Request>)
    requires queue != [] && Emits(queue[0], a) && EmitsAll(queue[1..], b)
    ensures EmitsAll(queue, a + b)
  {
    hide Emits;
  }

  /** What a queue with one more event emits: the old queue's requests, then the event's. */
  lemma {:induction false} EmitsSplit(queue: seq<Event>, event: Event, reqs: seq<Request>)
    returns (a: seq<Request>, b: seq<Request>)
    requires EmitsAll(queue + [event], reqs)
    ensures EmitsAll(queue, a) && Emits(event, b) && reqs == a + b
    decreases |queue|
  {
    hide Emits;
    var longer := queue + [event];
    var x, y :| Emits(longer[0], x) && EmitsAll(longer[1..], y) && reqs == x + y;
    if queue == [] {
      assert longer[1..] == [] && x + y == [] + x;
      a, b := [], x;
    } else {
      assert longer[1..] == queue[1..] + [event];
      var y1: seq<Request>;
      y1, b := EmitsSplit(queue[1..], event, y);
      a := x + y1;
      EmitsCons(queue, x, y1);
      assert reqs == a + b;
    }
  }

  /** The echo of a status write adds nothing. */
  lemma EchoEmitsNothing(queue: seq<Event>, spec: seq<HostSpec>, reqs: seq<Request>)
    requires EmitsAll(queue + [Updated(spec, spec)], reqs)
    ensures EmitsAll(queue, reqs)
  {
    hide Emits, EmitsAll;
    var a, b := EmitsSplit(queue, Updated(spec, spec), reqs);
    NoDiffNoRequests(spec, b);
    assert a + [] == a;
  }

  // ---------------------------------------------------------------- one update, any arrival order

  ghost predicate DistinctReqs(reqs: seq<Request>) {
    forall i, j :: 0 <= i < j < |reqs| ==> Key(reqs[i]) != Key(reqs[j])
  }

  /** An update never asks twice about one key, and never both deletes and creates it. */
  lemma UpdateKeysDistinct(was: seq<HostSpec>, cur: seq<HostSpec>, reqs: seq<Request>)
    requires Emits(Updated(was, cur), reqs)
    ensures DistinctReqs(reqs)
  {
    var gone, come :| EmitsUpdate(was, cur, gone, come, reqs);
    var n := |gone|;
    assert forall i :: 0 <= i < n ==> Key(reqs[i]) == gone[i] && gone[i] in gone;
    assert forall i :: n <= i < |reqs| ==> Key(reqs[i]) == come[i - n] && come[i - n] in come;
  }

  lemma DistinctPrepend(mine: Option<Response>, rest: seq<Response>)
    requires DistinctKeys(rest)
    requires mine.Some? ==> forall r :: r in rest ==> Key(r.req) != Key(mine.value.req)
    ensures DistinctKeys(Sent(mine) + rest)
  {
  }

  lemma {:induction false} ResponsesDistinct(core: Core, reqs: seq<Request>)
    requires DistinctReqs(reqs)
    ensures DistinctKeys(HandleAll(core, reqs).1)
    ensures forall r :: r in HandleAll(core, reqs).1 ==> r.req in reqs
    decreases |reqs|
  {
    hide Handle, DistinctKeys;
    if reqs != [] {
      assert forall i :: 0 <= i < |reqs[1..]| ==> reqs[1..][i] == reqs[i + 1];
      var (core1, mine) := Handle(core, reqs[0]);
      ResponsesDistinct(core1, reqs[1..]);
      var rest := HandleAll(core1, reqs[1..]).1;
      AnswersItself(core, reqs[0]);
      forall r | r in rest ensures Key(r.req) != Key(reqs[0]) {
        var j :| 0 <= j < |reqs[1..]| && reqs[1..][j] == r.req;
        assert reqs[j + 1] == r.req;
      }
      DistinctPrepend(mine, rest);
    } else {
      NoneDistinct();
    }
  }

  lemma NoneDistinct()
    ensures DistinctKeys([])
  {
  }

  lemma AnswersItself(core: Core, req: Request)
    ensures Handle(core, req).1.Some? ==> Handle(core, req).1.value.req == req
  {
    hide AllocateAt, Manager.NextAddress, Manager.RecordCreated, Manager.RecordDeleted;
  }

  /** All the responses of one update, delivered in any order, give the same status map. */
  lemma UpdateConfluent(core: Core, was: seq<HostSpec>, cur: seq<HostSpec>, reqs: seq<Request>,
                        list: seq<IPSpec>, perm: seq<Response>)
    requires Emits(Updated(was, cur), reqs) && UniqueKeys(list)
    requires multiset(perm) == multiset(HandleAll(core, reqs).1)
    ensures StatusMap(AppliedAll(list, perm)) == StatusMap(AppliedAll(list, HandleAll(core, reqs).1))
  {
    UpdateKeysDistinct(was, cur, reqs);
    ResponsesDistinct(core, reqs);
    Confluent(list, HandleAll(core, reqs).1, perm);
  }
}
