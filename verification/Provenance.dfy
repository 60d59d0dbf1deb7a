/** Where status addresses come from, whatever order responses arrive in and whichever writes
    fail, for any specs at all. */
module Provenance {
  import opened Wrappers
  import opened Store
  import opened Provider
  import opened Controller
  import opened Pool
  import Laws
  import opened Orchestrator
  import opened Status
  import opened System

  /** Every status entry and every success in flight, for a host no DELETE has named, carries
      an address that is an A record of that host now. */
  ghost predicate Traced(s: Sys, named: set<string>) {
    && (forall e :: e in s.status && e.host !in named ==> ARecord(e.ip, e.host) in s.core.tables.records)
    && (forall r :: r in s.inflight && r.req.op == Create && r.ok && r.req.host !in named ==>
          ARecord(r.ip, r.req.host) in s.core.tables.records)
  }

  /** Hosts some served DELETE request has named. */
  function NextNamed(s: Sys, step: Step, named: set<string>): set<string> {
    if step.Serve? && s.pending != [] && s.pending[0].op == Delete then named + {s.pending[0].host} else named
  }

  lemma TableTraces(t: Tables, req: Request)
    requires Matched(t)
    ensures var (t1, r) := TableHandle(t, req);
      && (forall x :: x in t.records && (req.op == Delete ==> x.host != req.host) ==> x in t1.records)
      && (r.Some? ==> r.value.req == req)
      && (r.Some? && req.op == Create && r.value.ok ==> ARecord(r.value.ip, req.host) in t1.records)
  {
  }

  /** A request leaves other hosts' records in place, and a success is backed by a record. */
  lemma HandleTraces(core: Core, req: Request)
    requires Consistent(core)
    ensures var (core1, r) := Handle(core, req);
      && Consistent(core1)
      && (forall x :: x in core.tables.records && (req.op == Delete ==> x.host != req.host) ==>
            x in core1.tables.records)
      && (r.Some? ==> r.value.req == req)
      && (r.Some? && req.op == Create && r.value.ok ==> ARecord(r.value.ip, req.host) in core1.tables.records)
  {
    hide Handle, Usable, TableHandle, Matched;
    GuardsTransparent(core, req);
    HandleRefines(core, req);
    Laws.ConsistentMatched(core);
    TableTraces(core.tables, req);
  }

  lemma DropAtFrom<T>(s: seq<T>, i: nat)
    requires i < |s|
    ensures forall x :: x in DropAt(s, i) ==> x in s
  {
  }

  lemma ServeTraced(s: Sys, t: Sys, named: set<string>)
    requires Consistent(s.core) && Traced(s, named) && s.pending != []
    requires var (core1, r) := Handle(s.core, s.pending[0]);
      t == s.(core := core1, pending := s.pending[1..], inflight := s.inflight + Sent(r))
    ensures Consistent(t.core) && Traced(t, NextNamed(s, Serve, named))
  {
    hide Handle, Consistent;
    var req := s.pending[0];
    HandleTraces(s.core, req);
    var named1 := NextNamed(s, Serve, named);
    forall e | e in t.status && e.host !in named1 ensures ARecord(e.ip, e.host) in t.core.tables.records {
      assert ARecord(e.ip, e.host) in s.core.tables.records;
    }
    forall r | r in t.inflight && r.req.op == Create && r.ok && r.req.host !in named1
      ensures ARecord(r.ip, r.req.host) in t.core.tables.records
    {
      if r in s.inflight {
        assert ARecord(r.ip, r.req.host) in s.core.tables.records;
        assert req.op == Delete ==> r.req.host != req.host;
      } else {
        assert r in Sent(Handle(s.core, req).1);
        assert Handle(s.core, req).1 == Some(r);
      }
    }
  }

  lemma StepTraced(initial: Core, s: Sys, step: Step, t: Sys, named: set<string>)
    requires Consistent(s.core) && Traced(s, named)
    requires Next(initial, s, step, t) && !step.Restart?
    ensures Consistent(t.core) && Traced(t, NextNamed(s, step, named))
  {
    hide Handle, Consistent, Applied, Emits;
    match step
    case UserAdd(_) =>
    case UserUpdate(_) =>
    case UserDelete =>
    case Work(_) =>
    case Serve =>
      ServeTraced(s, t, named);
    case Deliver(i, notify) =>
      DropAtFrom(s.inflight, i);
      assert s.inflight[i] in s.inflight;
      if s.live {
        forall e | e in t.status && e.host !in named ensures ARecord(e.ip, e.host) in s.core.tables.records {
          AppliedFrom(s.status, s.inflight[i], e);
        }
      }
    case Lose(i) =>
      DropAtFrom(s.inflight, i);
  }

  ghost predicate NamedRun(initial: Core, states: seq<Sys>, steps: seq<Step>, named: seq<set<string>>) {
    && IsRun(initial, states, steps) && |named| == |states|
    && forall i :: 0 <= i < |steps| ==> !steps[i].Restart? && named[i + 1] == NextNamed(states[i], steps[i], named[i])
  }

  /** Any run without a restart, from an empty status: any interleaving, any response order,
      any specs, updates, deletions and re-creations of the resource, any failing write. */
  lemma {:induction false} Provenance(initial: Core, states: seq<Sys>, steps: seq<Step>,
                                      named: seq<set<string>>, n: nat)
    requires NamedRun(initial, states, steps, named) && n < |states|
    requires Consistent(states[0].core) && states[0].status == [] && states[0].inflight == []
    ensures Consistent(states[n].core) && Traced(states[n], named[n])
    decreases n
  {
    hide Consistent, Next, NextNamed;
    if n > 0 {
      Provenance(initial, states, steps, named, n - 1);
      assert Next(initial, states[n - 1], steps[n - 1], states[n - 1 + 1]);
      assert named[n - 1 + 1] == NextNamed(states[n - 1], steps[n - 1], named[n - 1]);
      StepTraced(initial, states[n - 1], steps[n - 1], states[n], named[n - 1]);
    }
  }

  /** A status entry or a success in flight shows a host with an address. */
  ghost predicate Shows(s: Sys, host: string, ip: string) {
    || (exists e :: e in s.status && e.host == host && e.ip == ip)
    || (exists r :: r in s.inflight && r.req.op == Create && r.ok && r.req.host == host && r.ip == ip)
  }

  /** Along any such run, what is shown and what is about to be shown never gives one address
      to two hosts that no DELETE has named. */
  lemma NoSharedAddress(initial: Core, states: seq<Sys>, steps: seq<Step>, named: seq<set<string>>, n: nat,
                        g: string, h: string, ip: string)
    requires NamedRun(initial, states, steps, named) && n < |states|
    requires Consistent(states[0].core) && states[0].status == [] && states[0].inflight == []
    requires g !in named[n] && h !in named[n]
    requires Shows(states[n], g, ip) && Shows(states[n], h, ip)
    ensures g == h
  {
    hide NamedRun, Consistent, Matched;
    Provenance(initial, states, steps, named, n);
    var t := states[n].core.tables;
    Laws.ConsistentMatched(states[n].core);
    assert ARecord(ip, g) in t.records && ARecord(ip, h) in t.records;
    Laws.OneHolder(t, ARecord(ip, g), ARecord(ip, h));
  }
}
