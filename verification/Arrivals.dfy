/** Agreement when responses arrive in any order at all, within one key too. */
module Arrivals {
  import opened Controller
  import opened Provider
  import opened Orchestrator
  import opened Status
  import opened System
  import opened Agreement
  import opened Lifecycle

  /** Updates that leave orphans where they are, and the controller's own steps; no response is
      lost, and they come in any order. */
  ghost predicate Loose(step: Step, orphans: set<HostSpec>) {
    match step
    case UserUpdate(newSpec) => Functional(SpecSet(newSpec) + orphans)
    case Work(_) => true
    case Serve => true
    case Deliver(_, _) => true
    case _ => false
  }

  ghost predicate LooseRun(initial: Core, states: seq<Sys>, steps: seq<Step>, orphans: seq<set<HostSpec>>) {
    && IsRun(initial, states, steps) && |orphans| == |states|
    && forall i :: 0 <= i < |steps| ==>
         && Loose(steps[i], orphans[i])
         && orphans[i + 1] == NextOrphans(initial, states[i], steps[i], orphans[i])
  }

  /** The response a step starts, and the one it receives. */
  function StartedBy(s: Sys, step: Step): seq<Response> {
    if step.Serve? && s.pending != [] then Sent(Handle(s.core, s.pending[0]).1) else []
  }

  function ReceivedBy(s: Sys, step: Step): seq<Response> {
    if step.Deliver? && step.i < |s.inflight| then [s.inflight[step.i]] else []
  }

  /** In the order of starting, and in the order of arrival. */
  function Started(states: seq<Sys>, steps: seq<Step>, n: nat): seq<Response>
    requires n <= |steps| < |states|
  {
    if n == 0 then states[0].inflight
    else Started(states, steps, n - 1) + StartedBy(states[n - 1], steps[n - 1])
  }

  function Received(states: seq<Sys>, steps: seq<Step>, n: nat): seq<Response>
    requires n <= |steps| < |states|
  {
    if n == 0 then [] else Received(states, steps, n - 1) + ReceivedBy(states[n - 1], steps[n - 1])
  }

  /** Requests and store do not depend on arrivals: the invariant holds as if none had come. */
  lemma UnreceivedStep(initial: Core, s: Sys, step: Step, t: Sys, base: seq<IPSpec>, started: seq<Response>,
                       orphans: set<HostSpec>)
    requires Inv(initial, s.(status := base, inflight := started), orphans, false)
    requires Next(initial, s, step, t) && Loose(step, orphans)
    ensures Inv(initial, t.(status := base, inflight := started + StartedBy(s, step)),
                NextOrphans(initial, s, step, orphans), false)
  {
    hide Inv, Handle, Applied, Emits, Functional;
    var u := s.(status := base, inflight := started);
    var v := t.(status := base, inflight := started + StartedBy(s, step));
    assert started + [] == started;
    match step
    case UserUpdate(newSpec) => StepUpdate(initial, u, v, newSpec, orphans, false);
    case Work(reqs) => StepWork(initial, u, v, reqs, orphans, false);
    case Serve => StepServe(initial, u, v, orphans, false);
    case Deliver(i, notify) =>
      if notify { StepEcho(initial, u, orphans, false); }
      assert v == if notify then u.(queue := u.queue + [Updated(u.spec, u.spec)]) else u;
  }

  lemma {:induction false} Unreceived(initial: Core, states: seq<Sys>, steps: seq<Step>,
                                      orphans: seq<set<HostSpec>>, n: nat)
    requires LooseRun(initial, states, steps, orphans) && n < |states| && Inv(initial, states[0], orphans[0], false)
    ensures var u := states[n].(status := states[0].status, inflight := Started(states, steps, n));
      Inv(initial, u, orphans[n], false)
    decreases n
  {
    hide Inv, Next, Loose, NextOrphans, StartedBy;
    if n > 0 {
      Unreceived(initial, states, steps, orphans, n - 1);
      assert Next(initial, states[n - 1], steps[n - 1], states[n - 1 + 1]);
      assert orphans[n - 1 + 1] == NextOrphans(initial, states[n - 1], steps[n - 1], orphans[n - 1]);
      UnreceivedStep(initial, states[n - 1], steps[n - 1], states[n], states[0].status,
                     Started(states, steps, n - 1), orphans[n - 1]);
    }
  }

  lemma DropMultiset<T>(s: seq<T>, i: nat)
    requires i < |s|
    ensures multiset(s) == multiset(DropAt(s, i)) + multiset{s[i]}
  {
    assert s == s[..i] + [s[i]] + s[i + 1..];
  }

  /** What has arrived so far: it made the status, and with what is in flight it is all that
      was started. */
  ghost predicate Accounted(base: seq<IPSpec>, s: Sys, started: seq<Response>, received: seq<Response>) {
    && s.live && UniqueKeys(s.status)
    && StatusMap(s.status) == AppliedMapAll(StatusMap(base), received)
    && multiset(received) + multiset(s.inflight) == multiset(started)
  }

  lemma AccountedStep(initial: Core, s: Sys, step: Step, t: Sys, base: seq<IPSpec>, started: seq<Response>,
                      received: seq<Response>, orphans: set<HostSpec>)
    requires Accounted(base, s, started, received) && Next(initial, s, step, t) && Loose(step, orphans)
    ensures Accounted(base, t, started + StartedBy(s, step), received + ReceivedBy(s, step))
  {
    hide Handle, Applied, AppliedMap, StatusMap, UniqueKeys, Emits, Functional, DropAt;
    assert received + [] == received && started + [] == started;
    if step.Deliver? {
      var r := s.inflight[step.i];
      AppliedRefines(s.status, r);
      DropMultiset(s.inflight, step.i);
      assert (received + [r])[..|received|] == received;
    }
  }

  lemma {:induction false} AccountedRun(initial: Core, states: seq<Sys>, steps: seq<Step>,
                                        orphans: seq<set<HostSpec>>, n: nat)
    requires LooseRun(initial, states, steps, orphans) && n < |states|
    requires states[0].live && UniqueKeys(states[0].status)
    ensures Accounted(states[0].status, states[n], Started(states, steps, n), Received(states, steps, n))
    decreases n
  {
    hide Next, Loose, NextOrphans, StartedBy, ReceivedBy, StatusMap, UniqueKeys;
    if n > 0 {
      AccountedRun(initial, states, steps, orphans, n - 1);
      assert Next(initial, states[n - 1], steps[n - 1], states[n - 1 + 1]);
      AccountedStep(initial, states[n - 1], steps[n - 1], states[n], states[0].status,
                    Started(states, steps, n - 1), Received(states, steps, n - 1), orphans[n - 1]);
    }
  }

  /** Exactly when a run agrees at rest although its responses arrived in any order: for every
      key, the last response received to have an effect has the effect of the last one
      started. */
  lemma AgreesIffSameLast(initial: Core, states: seq<Sys>, steps: seq<Step>, orphans: seq<set<HostSpec>>, n: nat)
    requires LooseRun(initial, states, steps, orphans) && n < |states|
    requires Inv(initial, states[0], orphans[0], false) && Quiescent(states[n])
    ensures var t := states[n];
      Agrees(t.core, SpecSet(t.spec) + orphans[n], t.status)
      <==> SameLast(Received(states, steps, n), Started(states, steps, n))
  {
    hide Inv, Next, Loose, NextOrphans, Agrees, StatusMap, UniqueKeys, AppliedMapAll, SameLast, StoreOk, Functional,
         Started, Received;
    var t, base := states[n], StatusMap(states[0].status);
    var started, received := Started(states, steps, n), Received(states, steps, n);
    InvWritten(initial, states[0], orphans[0], false);
    Unreceived(initial, states, steps, orphans, n);
    AccountedRun(initial, states, steps, orphans, n);
    var b := ServedBindings(initial, t.(status := states[0].status, inflight := started), orphans[n]);
    BoundAgreesIff(Pool.Slots(initial.tables.rows), t.core, SpecSet(t.spec) + orphans[n], b, orphans[n], t.status);
    assert multiset(received) == multiset(started);
    OrderIff(base, received, started);
  }
}
