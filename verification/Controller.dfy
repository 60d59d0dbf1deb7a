/** The controller: one request at a time, answered from separate goroutines. */
module Controller {
  import opened Wrappers
  import opened Store
  import opened Provider
  import opened Manager

  datatype Operation = Create | Delete

  datatype Request = Request(host: string, cidr: string, ip: string, op: Operation)

  datatype Response = Response(req: Request, ip: string, ok: bool)

  /** What one request does to the store, and the response it starts, if any. */
  function Handle(core: Core, req: Request): (Core, Option<Response>) {
    match req.op
    case Create =>
      if req.ip != "" then
        var (core1, ok) := AllocateAt(core, req.cidr, req.ip);
        if ok then (RecordCreated(core1, req.host, req.ip), Some(Response(req, req.ip, true)))
        else (core1, Some(Response(req, "", false)))
      else
        var held := LeastIp(core.tables.records, req.host);
        if held != "" then (core, Some(Response(req, held, true)))
        else
          var (core1, ip) := NextAddress(core, req.cidr);
          if ip != "" then (RecordCreated(core1, req.host, ip), Some(Response(req, ip, true)))
          else (core1, None)
    case Delete =>
      var held := LeastIp(core.tables.records, req.host);
      var core1 := if held != "" then RecordDeleted(AddressReleased(core, held), req.host, held) else core;
      (core1, Some(Response(req, "", true)))
  }

  function Sent(r: Option<Response>): seq<Response> {
    match r
    case None => []
    case Some(resp) => [resp]
  }

  /** A run of requests: the final store and the responses in the order they were started. */
  function HandleAll(core: Core, reqs: seq<Request>): (Core, seq<Response>)
    decreases |reqs|
  {
    if reqs == [] then (core, [])
    else
      var (core1, r) := Handle(core, reqs[0]);
      var (core2, rest) := HandleAll(core1, reqs[1..]);
      (core2, Sent(r) + rest)
  }

  /** Serving two batches is serving the first, then the second. */
  lemma {:induction false} HandleAllConcat(core: Core, a: seq<Request>, b: seq<Request>)
    ensures var (core1, r1) := HandleAll(core, a);
      var (core2, r2) := HandleAll(core1, b);
      HandleAll(core, a + b) == (core2, r1 + r2)
    decreases |a|
  {
    if a == [] {
      assert a + b == b;
      assert [] + HandleAll(core, b).1 == HandleAll(core, b).1;
    } else {
      assert (a + b)[1..] == a[1..] + b;
      var core1 := Handle(core, a[0]).0;
      HandleAllConcat(core1, a[1..], b);
      var rest, later := HandleAll(core1, a[1..]).1, HandleAll(HandleAll(core, a).0, b).1;
      var mine := Sent(Handle(core, a[0]).1);
      assert mine + (rest + later) == (mine + rest) + later;
    }
  }

  lemma HandleAllSnoc(core: Core, reqs: seq<Request>, i: nat)
    requires i < |reqs|
    ensures var (core1, r1) := HandleAll(core, reqs[..i]);
      HandleAll(core, reqs[..i + 1]) == (Handle(core1, reqs[i]).0, r1 + Sent(Handle(core1, reqs[i]).1))
  {
    var one := [reqs[i]];
    HandleAllConcat(core, reqs[..i], one);
    assert reqs[..i + 1] == reqs[..i] + one;
    var core1 := HandleAll(core, reqs[..i]).0;
    assert one[1..] == [];
    var mine := Sent(Handle(core1, reqs[i]).1);
    assert HandleAll(core1, one) == (Handle(core1, reqs[i]).0, mine + []);
    assert mine + [] == mine;
  }

  class Controller {
    const manager: IPAMManager
    /** Responses whose goroutines still wait to be received, oldest first. */
    var respChan: seq<Response>

    ghost function View(): Core
      reads this, manager, manager.provider, manager.provider.store
    {
      manager.View()
    }

    constructor (manager: IPAMManager)
      ensures this.manager == manager && respChan == []
    {
      this.manager := manager;
      respChan := [];
    }

    /** Serves every request that arrives until the channel closes. */
    method RunController(reqChan: seq<Request>)
      modifies this`respChan, manager.provider.store
      ensures View() == HandleAll(old(View()), reqChan).0
      ensures respChan == old(respChan) + HandleAll(old(View()), reqChan).1
    {
      for i := 0 to |reqChan|
        invariant View() == HandleAll(old(View()), reqChan[..i]).0
        invariant respChan == old(respChan) + HandleAll(old(View()), reqChan[..i]).1
      {
        HandleAllSnoc(old(View()), reqChan, i);
        ServeRequest(reqChan[i]);
      }
      assert reqChan[..|reqChan|] == reqChan;
    }

    /** The body of that loop. */
    method ServeRequest(req: Request)
      modifies this`respChan, manager.provider.store
      ensures View() == Handle(old(View()), req).0
      ensures respChan == old(respChan) + Sent(Handle(old(View()), req).1)
    {
      match req.op
      case Create =>
        if req.ip != "" {
          var ok := manager.AllocateIPAddress(req.cidr, req.ip);
          if ok {
            var _ := manager.CreateARecord(req.host, req.ip);
            SendResponse(Response(req, req.ip, true));
          } else {
            SendResponse(Response(req, "", false));
          }
          return;
        }
        var ipAddr := manager.GetIPAddress(req.host);
        if ipAddr != "" {
          SendResponse(Response(req, ipAddr, true));
          return;
        }
        ipAddr := manager.GetNextIPAddress(req.cidr);
        if ipAddr != "" {
          var _ := manager.CreateARecord(req.host, ipAddr);
          SendResponse(Response(req, ipAddr, true));
        }
      case Delete =>
        var ipAddr := manager.GetIPAddress(req.host);
        if ipAddr != "" {
          manager.ReleaseIPAddress(ipAddr);
          manager.DeleteARecord(req.host, ipAddr);
        }
        SendResponse(Response(req, "", true));
    }

    /** `go sendResponse(...)`: the response is on its way and the controller goes on. */
    method SendResponse(resp: Response)
      modifies this`respChan
      ensures respChan == old(respChan) + [resp]
    {
      respChan := respChan + [resp];
    }
  }
}
