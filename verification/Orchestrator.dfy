/** The orchestrator: custom-resource events become requests, responses become status. */
module Orchestrator {
  import opened Controller

  datatype HostSpec = HostSpec(host: string, cidr: string)

  datatype IPSpec = IPSpec(host: string, cidr: string, ip: string)

  /** A queued key: the operation with the parts of the resource copies it goes on to read. */
  datatype Event =
    | Added(spec: seq<HostSpec>, status: seq<IPSpec>)
    | Updated(was: seq<HostSpec>, cur: seq<HostSpec>)
    | Deleted(status: seq<IPSpec>)

  // ---------------------------------------------------------------- requests of an event

  function ReplayReq(e: IPSpec): Request { Request(e.host, e.cidr, e.ip, Create) }

  function TeardownReq(e: IPSpec): Request { Request(e.host, e.cidr, e.ip, Delete) }

  function CreateReq(s: HostSpec): Request { Request(s.host, s.cidr, "", Create) }

  function DeleteReq(s: HostSpec): Request { Request(s.host, s.cidr, "", Delete) }

  function Each<A, B>(f: A -> B, xs: seq<A>): (ys: seq<B>)
    ensures |ys| == |xs| && forall i :: 0 <= i < |xs| ==> ys[i] == f(xs[i])
  {
    seq(|xs|, i requires 0 <= i < |xs| => f(xs[i]))
  }

  function SpecSet(spec: seq<HostSpec>): set<HostSpec> {
    set s | s in spec
  }

  /** `xs` lists the members of `s`, each once, in some order. */
  ghost predicate Lists<T>(xs: seq<T>, s: set<T>) {
    && (forall i, j :: 0 <= i < j < |xs| ==> xs[i] != xs[j])
    && (forall x :: x in xs ==> x in s) && (forall x :: x in s ==> x in xs)
  }

  lemma ListsMore<T>(xs: seq<T>, s: set<T>, x: T)
    requires Lists(xs, s) && x !in s
    ensures Lists(xs + [x], s + {x})
  {
  }

  /** The requests an event may turn into; map iteration leaves an update's order open
      within its deletes and within its creates. */
  ghost predicate Emits(event: Event, reqs: seq<Request>) {
    match event
    case Added(spec, status) => reqs == Each(ReplayReq, status) + Each(CreateReq, spec)
    case Deleted(status) => reqs == Each(TeardownReq, status)
    case Updated(was, cur) => exists gone, come :: EmitsUpdate(was, cur, gone, come, reqs)
  }

  ghost predicate EmitsUpdate(was: seq<HostSpec>, cur: seq<HostSpec>,
                              gone: seq<HostSpec>, come: seq<HostSpec>, reqs: seq<Request>)
  {
    && Lists(gone, SpecSet(was) - SpecSet(cur))
    && Lists(come, SpecSet(cur) - SpecSet(was))
    && reqs == Each(DeleteReq, gone) + Each(CreateReq, come)
  }

  /** The requests a whole queue may turn into. */
  ghost predicate EmitsAll(queue: seq<Event>, reqs: seq<Request>)
    decreases |queue|
  {
    if queue == [] then reqs == []
    else exists a, b :: Emits(queue[0], a) && EmitsAll(queue[1..], b) && reqs == a + b
  }

  // ---------------------------------------------------------------- the status list

  predicate Matches(e: IPSpec, k: HostSpec) { e.host == k.host && e.cidr == k.cidr }

  predicate Listed(list: seq<IPSpec>, k: HostSpec) {
    exists i :: 0 <= i < |list| && Matches(list[i], k)
  }

  function Overwritten(list: seq<IPSpec>, k: HostSpec, ip: string): (r: seq<IPSpec>)
    ensures |r| == |list|
  {
    seq(|list|, i requires 0 <= i < |list| => if Matches(list[i], k) then list[i].(ip := ip) else list[i])
  }

  function Put(list: seq<IPSpec>, k: HostSpec, ip: string): seq<IPSpec> {
    if Listed(list, k) then Overwritten(list, k, ip) else list + [IPSpec(k.host, k.cidr, ip)]
  }

  /** Index of the last matching entry, or -1. */
  function LastMatch(list: seq<IPSpec>, k: HostSpec): (i: int)
    ensures -1 <= i < |list|
    ensures i >= 0 ==> Matches(list[i], k)
    ensures forall j :: i < j < |list| ==> !Matches(list[j], k)
  {
    if list == [] then -1
    else if Matches(list[|list| - 1], k) then |list| - 1
    else
      assert forall j :: 0 <= j < |list| - 1 ==> list[..|list| - 1][j] == list[j];
      LastMatch(list[..|list| - 1], k)
  }

  function Removed(list: seq<IPSpec>, k: HostSpec): seq<IPSpec> {
    var i := LastMatch(list, k);
    if i == -1 then list else list[..i] + list[i + 1..]
  }

  function Key(req: Request): HostSpec { HostSpec(req.host, req.cidr) }

  /** What one response does to the status list. */
  function Applied(list: seq<IPSpec>, resp: Response): seq<IPSpec> {
    match resp.req.op
    case Create => if resp.ok then Put(list, Key(resp.req), resp.ip) else Removed(list, Key(resp.req))
    case Delete => if resp.ok then Removed(list, Key(resp.req)) else list
  }

  function AppliedAll(list: seq<IPSpec>, rs: seq<Response>): seq<IPSpec> {
    if rs == [] then list else Applied(AppliedAll(list, rs[..|rs| - 1]), rs[|rs| - 1])
  }

  // ---------------------------------------------------------------- the client

  class K8sIPAMClient {
    /** Pending keys, oldest first. */
    var rscQueue: seq<Event>
    /** Requests sent to the controller, oldest first. */
    var reqChan: seq<Request>
    /** The resource as the API server holds it. */
    var present: bool
    var spec: seq<HostSpec>
    var status: seq<IPSpec>

    constructor ()
      ensures rscQueue == [] && reqChan == [] && !present && spec == [] && status == []
    {
      rscQueue, reqChan, present, spec, status := [], [], false, [], [];
    }

    method EnqueueIPAM(spec: seq<HostSpec>, status: seq<IPSpec>)
      modifies this`rscQueue
      ensures rscQueue == old(rscQueue) + [Added(spec, status)]
    {
      rscQueue := rscQueue + [Added(spec, status)];
    }

    method EnqueueUpdatedIPAM(was: seq<HostSpec>, cur: seq<HostSpec>)
      modifies this`rscQueue
      ensures rscQueue == old(rscQueue) + [Updated(was, cur)]
    {
      rscQueue := rscQueue + [Updated(was, cur)];
    }

    method EnqueueDeletedIPAM(status: seq<IPSpec>)
      modifies this`rscQueue
      ensures rscQueue == old(rscQueue) + [Deleted(status)]
    {
      rscQueue := rscQueue + [Deleted(status)];
    }

    /** Takes the oldest key and sends its requests; false once the queue is shut down. */
    method ProcessResource() returns (more: bool)
      modifies this`rscQueue, this`reqChan
      ensures more <==> old(rscQueue) != []
      ensures !more ==> rscQueue == old(rscQueue) && reqChan == old(reqChan)
      ensures more ==> rscQueue == old(rscQueue)[1..]
      ensures more ==> old(reqChan) <= reqChan && Emits(old(rscQueue)[0], reqChan[|old(reqChan)|..])
    {
      if rscQueue == [] {
        return false;
      }
      var key := rscQueue[0];
      rscQueue := rscQueue[1..];
      match key {
      case Added(spec, status) => SendReplaysAndCreates(spec, status);
      case Deleted(status) => SendTeardown(status);
      case Updated(was, cur) => SendDiff(was, cur);
      }
      return true;
    }

    method SendReplaysAndCreates(spec: seq<HostSpec>, status: seq<IPSpec>)
      modifies this`reqChan
      ensures old(reqChan) <= reqChan && Emits(Added(spec, status), reqChan[|old(reqChan)|..])
    {
      ghost var before := reqChan;
      for i := 0 to |status|
        invariant reqChan == before + Each(ReplayReq, status)[..i]
      {
        reqChan := reqChan + [Request(status[i].host, status[i].cidr, status[i].ip, Create)];
      }
      for i := 0 to |spec|
        invariant reqChan == before + Each(ReplayReq, status) + Each(CreateReq, spec)[..i]
      {
        reqChan := reqChan + [Request(spec[i].host, spec[i].cidr, "", Create)];
      }
      assert reqChan[|before|..] == Each(ReplayReq, status) + Each(CreateReq, spec);
    }

    method SendTeardown(status: seq<IPSpec>)
      modifies this`reqChan
      ensures old(reqChan) <= reqChan && Emits(Deleted(status), reqChan[|old(reqChan)|..])
    {
      ghost var before := reqChan;
      for i := 0 to |status|
        invariant reqChan == before + Each(TeardownReq, status)[..i]
      {
        reqChan := reqChan + [Request(status[i].host, status[i].cidr, status[i].ip, Delete)];
      }
      assert reqChan[|before|..] == Each(TeardownReq, status);
    }

    method SendDiff(was: seq<HostSpec>, cur: seq<HostSpec>)
      modifies this`reqChan
      ensures old(reqChan) <= reqChan && Emits(Updated(was, cur), reqChan[|old(reqChan)|..])
    {
      ghost var before := reqChan;
      var oldSpecSet := ToSet(was);
      var newSpecSet := ToSet(cur);
      ghost var gone := SendDeletes(oldSpecSet, newSpecSet);
      ghost var come := SendCreates(oldSpecSet, newSpecSet);
      assert reqChan[|before|..] == Each(DeleteReq, gone) + Each(CreateReq, come);
      assert EmitsUpdate(was, cur, gone, come, reqChan[|before|..]);
    }

    static method ToSet(hostSpecs: seq<HostSpec>) returns (specs: set<HostSpec>)
      ensures specs == SpecSet(hostSpecs)
    {
      specs := {};
      for i := 0 to |hostSpecs|
        invariant specs == SpecSet(hostSpecs[..i])
      {
        assert hostSpecs[..i + 1] == hostSpecs[..i] + [hostSpecs[i]];
        specs := specs + {hostSpecs[i]};
      }
      assert hostSpecs[..|hostSpecs|] == hostSpecs;
    }

    /** Ranges over the old set, in any order, for specs the new set lacks. */
    method SendDeletes(oldSpecSet: set<HostSpec>, newSpecSet: set<HostSpec>) returns (ghost gone: seq<HostSpec>)
      modifies this`reqChan
      ensures Lists(gone, oldSpecSet - newSpecSet)
      ensures reqChan == old(reqChan) + Each(DeleteReq, gone)
    {
      gone := [];
      var todo := oldSpecSet;
      while todo != {}
        invariant todo <= oldSpecSet
        invariant Lists(gone, oldSpecSet - todo - newSpecSet)
        invariant reqChan == old(reqChan) + Each(DeleteReq, gone)
      {
        var spec :| spec in todo;
        ghost var done := oldSpecSet - todo - newSpecSet;
        todo := todo - {spec};
        assert oldSpecSet - todo - newSpecSet == if spec in newSpecSet then done else done + {spec};
        if spec !in newSpecSet {
          reqChan := reqChan + [Request(spec.host, spec.cidr, "", Delete)];
          ListsMore(gone, done, spec);
          gone := gone + [spec];
        }
      }
    }

    /** Ranges over the new set, in any order, for specs the old set lacks. */
    method SendCreates(oldSpecSet: set<HostSpec>, newSpecSet: set<HostSpec>) returns (ghost come: seq<HostSpec>)
      modifies this`reqChan
      ensures Lists(come, newSpecSet - oldSpecSet)
      ensures reqChan == old(reqChan) + Each(CreateReq, come)
    {
      come := [];
      var todo := newSpecSet;
      while todo != {}
        invariant todo <= newSpecSet
        invariant Lists(come, newSpecSet - todo - oldSpecSet)
        invariant reqChan == old(reqChan) + Each(CreateReq, come)
      {
        var spec :| spec in todo;
        ghost var done := newSpecSet - todo - oldSpecSet;
        todo := todo - {spec};
        assert newSpecSet - todo - oldSpecSet == if spec in oldSpecSet then done else done + {spec};
        if spec !in oldSpecSet {
          reqChan := reqChan + [Request(spec.host, spec.cidr, "", Create)];
          ListsMore(come, done, spec);
          come := come + [spec];
        }
      }
    }

    /** Folds one response into the resource's status. A failing Get leaves an empty object,
        whose status matches nothing, so nothing is written. */
    method ProcessResponse(resp: Response, updateOk: bool)
      modifies this`status
      ensures status == if present && updateOk then Applied(old(status), resp) else old(status)
    {
      if !present {
        return;
      }
      var removeStatusEntry := false;
      if resp.req.op == Create {
        if resp.ok {
          var ipStatus := StatusPut(status, Key(resp.req), resp.ip);
          if updateOk {
            status := ipStatus;
          }
          return;
        }
        removeStatusEntry := true;
      }
      if resp.ok || removeStatusEntry {
        var ipStatus := StatusRemoved(status, Key(resp.req));
        if updateOk {
          status := ipStatus;
        }
      }
    }

    static method StatusPut(status: seq<IPSpec>, k: HostSpec, ip: string) returns (ipStatus: seq<IPSpec>)
      ensures ipStatus == Put(status, k, ip)
    {
      ipStatus := status;
      var found := false;
      for i := 0 to |status|
        invariant |ipStatus| == |status|
        invariant forall j :: 0 <= j < i ==> ipStatus[j] == Overwritten(status, k, ip)[j]
        invariant forall j :: i <= j < |status| ==> ipStatus[j] == status[j]
        invariant found <==> exists j :: 0 <= j < i && Matches(status[j], k)
      {
        if ipStatus[i].host == k.host && ipStatus[i].cidr == k.cidr {
          ipStatus := ipStatus[i := ipStatus[i].(ip := ip)];
          found := true;
        }
      }
      if !found {
        ipStatus := ipStatus + [IPSpec(k.host, k.cidr, ip)];
      }
    }

    static method StatusRemoved(status: seq<IPSpec>, k: HostSpec) returns (ipStatus: seq<IPSpec>)
      ensures ipStatus == Removed(status, k)
    {
      var index := -1;
      for i := 0 to |status|
        invariant index == LastMatch(status[..i], k)
      {
        assert status[..i + 1][..i] == status[..i];
        if status[i].host == k.host && status[i].cidr == k.cidr {
          index := i;
        }
      }
      assert status[..|status|] == status;
      if index == -1 {
        return status;
      }
      return status[..index] + status[index + 1..];
    }
  }
}
