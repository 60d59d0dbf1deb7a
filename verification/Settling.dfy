/** The closed loop stops: a measure that every step of the controller's own decreases. */
module Settling {
  import opened Provider
  import opened Controller
  import opened Orchestrator
  import opened System

  /** How many requests an event turns into. */
  function Cost(event: Event): nat {
    match event
    case Added(spec, status) => |status| + |spec|
    case Deleted(status) => |status|
    case Updated(was, cur) => |SpecSet(was) - SpecSet(cur)| + |SpecSet(cur) - SpecSet(was)|
  }

  function QueueWeight(queue: seq<Event>): nat {
    if queue == [] then 0
    else QueueWeight(queue[..|queue| - 1]) + 1 + 3 * Cost(queue[|queue| - 1])
  }

  function Measure(s: Sys): nat {
    QueueWeight(s.queue) + 3 * |s.pending| + 2 * |s.inflight|
  }

  lemma {:induction false} ListsSize<T>(xs: seq<T>, s: set<T>)
    requires Lists(xs, s)
    ensures |xs| == |s|
    decreases |xs|
  {
    if xs == [] {
      assert s == {};
    } else {
      var n := |xs| - 1;
      var front, last := xs[..n], xs[n];
      assert xs == front + [last];
      assert forall i :: 0 <= i < n ==> front[i] == xs[i] && xs[i] != last;
      assert last in s by { assert last in xs; }
      assert Lists(front, s - {last}) by {
        forall x | x in s - {last} ensures x in front { assert x in xs; }
        forall x | x in front ensures x in s - {last} { assert x in xs; }
      }
      ListsSize(front, s - {last});
    }
  }

  /** An event emits exactly as many requests as it costs. */
  lemma EmitsCost(event: Event, reqs: seq<Request>)
    requires Emits(event, reqs)
    ensures |reqs| == Cost(event)
  {
    match event
    case Added(spec, status) =>
    case Deleted(status) =>
    case Updated(was, cur) =>
      var gone, come :| EmitsUpdate(was, cur, gone, come, reqs);
      ListsSize(gone, SpecSet(was) - SpecSet(cur));
      ListsSize(come, SpecSet(cur) - SpecSet(was));
  }

  lemma {:induction false} WeightHead(queue: seq<Event>)
    requires queue != []
    ensures QueueWeight(queue) == 1 + 3 * Cost(queue[0]) + QueueWeight(queue[1..])
    decreases |queue|
  {
    var n := |queue| - 1;
    if n > 0 {
      WeightHead(queue[..n]);
      assert queue[..n][1..] == queue[1..][..n - 1];
    } else {
      assert queue[..0] == [] && queue[1..] == [];
    }
  }

  lemma WeightAppend(queue: seq<Event>, event: Event)
    ensures QueueWeight(queue + [event]) == QueueWeight(queue) + 1 + 3 * Cost(event)
  {
  }

  /** Every internal step decreases the measure, the status writes that come back as events
      included, in whatever order responses arrive and whichever are lost. */
  lemma InternalDecreases(initial: Core, s: Sys, step: Step, t: Sys)
    requires Next(initial, s, step, t) && Internal(step)
    ensures Measure(t) < Measure(s)
  {
    hide Handle, Applied, Emits;
    match step
    case Work(reqs) =>
      EmitsCost(s.queue[0], reqs);
      WeightHead(s.queue);
    case Serve =>
    case Deliver(i, notify) =>
      WeightAppend(s.queue, Updated(s.spec, s.spec));
      assert SpecSet(s.spec) - SpecSet(s.spec) == {};
    case Lose(i) =>
  }

  /** The work an external step brings in: one event with the requests it may cost. */
  function Brought(s: Sys, step: Step): nat {
    match step
    case UserAdd(added) => 1 + 3 * Cost(Added(added, []))
    case UserUpdate(newSpec) => 1 + 3 * Cost(Updated(s.spec, newSpec))
    case UserDelete => 1 + 3 * Cost(Deleted(s.status))
    case Restart => 1 + 3 * Cost(Added(s.spec, s.status))
    case _ => 0
  }

  lemma ExternalBrings(initial: Core, s: Sys, step: Step, t: Sys)
    requires Next(initial, s, step, t) && !Internal(step)
    ensures Measure(t) <= Measure(s) + Brought(s, step)
  {
    match step
    case UserAdd(added) => WeightAppend(s.queue, Added(added, []));
    case UserUpdate(newSpec) => WeightAppend(s.queue, Updated(s.spec, newSpec));
    case UserDelete => WeightAppend(s.queue, Deleted(s.status));
    case Restart =>
      WeightAppend([], Added(s.spec, s.status));
      assert [] + [Added(s.spec, s.status)] == [Added(s.spec, s.status)];
  }

  /** How many of the first n steps are the controller's own, and what the others bring in. */
  function Own(steps: seq<Step>, n: nat): nat
    requires n <= |steps|
  {
    if n == 0 then 0 else Own(steps, n - 1) + if Internal(steps[n - 1]) then 1 else 0
  }

  function AllBrought(states: seq<Sys>, steps: seq<Step>, n: nat): nat
    requires n <= |steps| && |states| == |steps| + 1
  {
    if n == 0 then 0
    else AllBrought(states, steps, n - 1) + if Internal(steps[n - 1]) then 0 else Brought(states[n - 1], steps[n - 1])
  }

  /** Over any whole run, user actions and restarts included, the controller's own steps number
      at most the measure it starts from plus what the external steps bring in: no endless
      chatter between its status writes and its own event handler. */
  lemma {:induction false} SettlesWithin(initial: Core, states: seq<Sys>, steps: seq<Step>, n: nat)
    requires IsRun(initial, states, steps) && n <= |steps|
    ensures Own(steps, n) + Measure(states[n]) <= Measure(states[0]) + AllBrought(states, steps, n)
    decreases n
  {
    hide Measure, Next, Internal, Brought;
    if n > 0 {
      SettlesWithin(initial, states, steps, n - 1);
      assert Next(initial, states[n - 1], steps[n - 1], states[n - 1 + 1]);
      if Internal(steps[n - 1]) {
        InternalDecreases(initial, states[n - 1], steps[n - 1], states[n]);
      } else {
        ExternalBrings(initial, states[n - 1], steps[n - 1], states[n]);
      }
    }
  }

  lemma {:induction false} ListsExists<T>(s: set<T>) returns (xs: seq<T>)
    ensures Lists(xs, s)
    decreases |s|
  {
    if s == {} {
      xs := [];
    } else {
      var x :| x in s;
      var rest := ListsExists(s - {x});
      ListsMore(rest, s - {x}, x);
      xs := rest + [x];
      assert s - {x} + {x} == s;
    }
  }

  lemma EmitsExists(event: Event) returns (reqs: seq<Request>)
    ensures Emits(event, reqs)
  {
    match event
    case Added(spec, status) => reqs := Each(ReplayReq, status) + Each(CreateReq, spec);
    case Deleted(status) => reqs := Each(TeardownReq, status);
    case Updated(was, cur) =>
      var gone := ListsExists(SpecSet(was) - SpecSet(cur));
      var come := ListsExists(SpecSet(cur) - SpecSet(was));
      reqs := Each(DeleteReq, gone) + Each(CreateReq, come);
      assert EmitsUpdate(was, cur, gone, come, reqs);
  }

  /** As long as anything is queued, pending or in flight, the controller can move, taking the
      oldest of each and losing nothing; together with the bound above, it comes to rest. */
  lemma MovesUntilQuiescent(initial: Core, s: Sys) returns (step: Step, t: Sys)
    requires !Quiescent(s)
    ensures Next(initial, s, step, t) && (step.Work? || step.Serve? || (step.Deliver? && step.i == 0))
  {
    if s.queue != [] {
      var reqs := EmitsExists(s.queue[0]);
      step := Work(reqs);
      t := s.(queue := s.queue[1..], pending := s.pending + reqs);
    } else if s.pending != [] {
      step := Serve;
      var (core1, r) := Handle(s.core, s.pending[0]);
      t := s.(core := core1, pending := s.pending[1..], inflight := s.inflight + Sent(r));
    } else {
      var notify := s.live;
      step := Deliver(0, notify);
      var status1 := if s.live then Applied(s.status, s.inflight[0]) else s.status;
      t := s.(status := status1, inflight := DropAt(s.inflight, 0),
              queue := if notify then s.queue + [Updated(s.spec, s.spec)] else s.queue);
    }
  }
}
