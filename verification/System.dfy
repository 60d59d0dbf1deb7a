/** Controller, orchestrator and API server as one transition system over a single resource. */
module System {
  import opened Provider
  import opened Controller
  import opened Orchestrator

  /** `live`, `spec` and `status` are the resource as the API server holds it; the rest is the
      controller process: its store, queued keys, requests not yet served and responses whose
      goroutines still wait. */
  datatype Sys = Sys(
    core: Core,
    live: bool, spec: seq<HostSpec>, status: seq<IPSpec>,
    queue: seq<Event>, pending: seq<Request>, inflight: seq<Response>)

  datatype Step =
    | UserAdd(added: seq<HostSpec>)
    | UserUpdate(newSpec: seq<HostSpec>)
    | UserDelete
    | Restart
    | Work(reqs: seq<Request>)
    | Serve
    | Deliver(i: nat, notify: bool)
    | Lose(i: nat)

  function DropAt<T>(s: seq<T>, i: nat): seq<T>
    requires i < |s|
  {
    s[..i] + s[i + 1..]
  }

  /** One step. Keys are worked off in order; responses arrive in any order. A status write
      comes back as an UPDATE event with an unchanged spec; one that changes nothing may or
      may not. `Lose` is a response whose Get or Update fails. `Restart` loses the process and
      starts over from the configured store `initial` with one CREATE event. */
  ghost predicate Next(initial: Core, s: Sys, step: Step, t: Sys) {
    match step
    case UserAdd(added) =>
      !s.live && t == s.(live := true, spec := added, status := [], queue := s.queue + [Added(added, [])])
    case UserUpdate(newSpec) =>
      s.live && t == s.(spec := newSpec, queue := s.queue + [Updated(s.spec, newSpec)])
    case UserDelete =>
      s.live && t == s.(live := false, spec := [], status := [], queue := s.queue + [Deleted(s.status)])
    case Restart =>
      t == s.(core := initial, queue := (if s.live then [Added(s.spec, s.status)] else []),
              pending := [], inflight := [])
    case Work(reqs) =>
      s.queue != [] && Emits(s.queue[0], reqs) && t == s.(queue := s.queue[1..], pending := s.pending + reqs)
    case Serve =>
      s.pending != [] &&
      var (core1, r) := Handle(s.core, s.pending[0]);
      t == s.(core := core1, pending := s.pending[1..], inflight := s.inflight + Sent(r))
    case Deliver(i, notify) =>
      && i < |s.inflight|
      && var status1 := if s.live then Applied(s.status, s.inflight[i]) else s.status;
      && (status1 != s.status ==> notify) && (notify ==> s.live)
      && t == s.(status := status1, inflight := DropAt(s.inflight, i),
                 queue := if notify then s.queue + [Updated(s.spec, s.spec)] else s.queue)
    case Lose(i) =>
      i < |s.inflight| && t == s.(inflight := DropAt(s.inflight, i))
  }

  /** A controller process starting on an existing resource. */
  function Boot(initial: Core, spec: seq<HostSpec>, status: seq<IPSpec>): Sys {
    Sys(initial, true, spec, status, [Added(spec, status)], [], [])
  }

  predicate Quiescent(s: Sys) { s.queue == [] && s.pending == [] && s.inflight == [] }

  /** `states` is what `steps` lead through. */
  ghost predicate IsRun(initial: Core, states: seq<Sys>, steps: seq<Step>) {
    |states| == |steps| + 1 && forall i :: 0 <= i < |steps| ==> Next(initial, states[i], steps[i], states[i + 1])
  }

  /** The controller's own steps. */
  predicate Internal(step: Step) { step.Work? || step.Serve? || step.Deliver? || step.Lose? }
}
