/** The service supervisor: RunServices starts any number of services, each of which sends its result on an
    unbuffered channel and then leaves a wait group; WaitForServices selects between those results and the end of
    the wait group. Any schedule is possible. */
module Supervisor {

  /** A service goroutine. `failed` tells whether its start function returned an error. */
  datatype Service = NotStarted | Running | Sending(failed: bool) | Received(failed: bool) | Done(failed: bool)

  datatype Main = Spawning(next: nat) | Selecting | Returned(result: bool)

  /** `waitFinished` is set when the helper goroutine has seen the wait group empty and closed its channel;
      `cancelled` when WaitForServices called cancel; `signalled` when a signal made the process call it. */
  datatype State = State(
    services: seq<Service>,
    wg: int,
    main: Main,
    ret: bool,
    waitFinished: bool,
    cancelled: bool,
    signalled: bool)

  datatype Step =
    | Spawn
    | Finish(i: nat, failed: bool)
    | Receive(i: nat)
    | WgDone(i: nat)
    | WaitReturns
    | Return
    | Signal

  function Init(n: nat): State {
    State(seq(n, _ => NotStarted), 0, Spawning(0), true, false, false, false)
  }

  predicate Enabled(s: State, step: Step) {
    match step
    case Spawn => s.main.Spawning? && s.main.next <= |s.services|
    case Finish(i, _) => i < |s.services| && s.services[i].Running?
    case Receive(i) => s.main.Selecting? && i < |s.services| && s.services[i].Sending?
    case WgDone(i) => i < |s.services| && s.services[i].Received?
    case WaitReturns => !s.main.Spawning? && !s.waitFinished && s.wg == 0
    case Return => s.main.Selecting? && s.waitFinished
    case Signal => !s.signalled
  }

  /** One step; a step that is not possible leaves `s` unchanged. After the last service has been spawned the main
      goroutine enters WaitForServices. */
  function Next(s: State, step: Step): State {
    if !Enabled(s, step) then s else
    match step
    case Spawn =>
      var k := s.main.next;
      if k == |s.services| then s.(main := Selecting)
      else s.(services := s.services[k := Running], wg := s.wg + 1, main := Spawning(k + 1))
    case Finish(i, failed) => s.(services := s.services[i := Sending(failed)])
    case Receive(i) =>
      var failed := s.services[i].failed;
      var received := s.(services := s.services[i := Received(failed)]);
      if failed then received.(cancelled := true, ret := false) else received
    case WgDone(i) => s.(services := s.services[i := Done(s.services[i].failed)], wg := s.wg - 1)
    case WaitReturns => s.(waitFinished := true)
    case Return => s.(main := Returned(s.ret))
    case Signal => s.(signalled := true)
  }

  /** `steps` is a schedule: each step is possible when it is taken. */
  predicate Schedule(n: nat, steps: seq<Step>)
    decreases |steps|
  {
    steps == [] ||
    var before := steps[..|steps| - 1];
    Schedule(n, before) && Enabled(Run(n, before), steps[|steps| - 1])
  }

  function Run(n: nat, steps: seq<Step>): State
    decreases |steps|
  {
    if steps == [] then Init(n) else Next(Run(n, steps[..|steps| - 1]), steps[|steps| - 1])
  }

  // ---------- The invariant ----------

  predicate Joined(x: Service) { !x.NotStarted? && !x.Done? }
  predicate Heard(x: Service) { x.Received? || x.Done? }

  function Members(services: seq<Service>): nat {
    if services == [] then 0 else
      Members(services[..|services| - 1]) + if Joined(services[|services| - 1]) then 1 else 0
  }

  ghost predicate Inv(s: State) {
    && s.wg == Members(s.services)
    && (s.main.Spawning? ==> s.main.next <= |s.services|)
    && (forall i :: 0 <= i < |s.services| ==>
          (s.services[i].NotStarted? <==> s.main.Spawning? && s.main.next <= i))
    && (s.ret <==> forall i :: 0 <= i < |s.services| && Heard(s.services[i]) ==> !s.services[i].failed)
    && (s.cancelled <==> !s.ret)
    && (s.waitFinished ==> !s.main.Spawning? && s.wg == 0)
    && (s.main.Returned? ==> s.waitFinished && s.main.result == s.ret)
  }

  lemma {:induction false} MembersUpdate(services: seq<Service>, i: nat, x: Service)
    requires i < |services|
    ensures Members(services[i := x])
         == Members(services) - (if Joined(services[i]) then 1 else 0) + (if Joined(x) then 1 else 0)
    decreases |services|
  {
    var n := |services| - 1;
    if i == n {
      assert services[i := x][..n] == services[..n];
    } else {
      MembersUpdate(services[..n], i, x);
      assert services[i := x][..n] == services[..n][i := x];
    }
  }

  lemma {:induction false} NoMembers(services: seq<Service>, i: nat)
    requires i < |services| && Members(services) == 0
    ensures !Joined(services[i])
    decreases |services|
  {
    if i < |services| - 1 {
      NoMembers(services[..|services| - 1], i);
    }
  }

  lemma {:induction false} InitMembers(services: seq<Service>)
    requires forall i :: 0 <= i < |services| ==> services[i].NotStarted?
    ensures Members(services) == 0
    decreases |services|
  {
    if services == [] {
    } else {
      InitMembers(services[..|services| - 1]);
    }
  }

  lemma SpawnKeepsInv(s: State)
    requires Inv(s) && Enabled(s, Spawn)
    ensures Inv(Next(s, Spawn))
  {
    var s' := Next(s, Spawn);
    if s.main.next < |s.services| {
      MembersUpdate(s.services, s.main.next, Running);
      assert forall j :: 0 <= j < |s.services| && j != s.main.next ==> s'.services[j] == s.services[j];
    }
  }

  lemma FinishKeepsInv(s: State, i: nat, failed: bool)
    requires Inv(s) && Enabled(s, Finish(i, failed))
    ensures Inv(Next(s, Finish(i, failed)))
  {
    var s' := Next(s, Finish(i, failed));
    MembersUpdate(s.services, i, Sending(failed));
    assert forall j :: 0 <= j < |s.services| && j != i ==> s'.services[j] == s.services[j];
  }

  lemma ReceiveKeepsInv(s: State, i: nat)
    requires Inv(s) && Enabled(s, Receive(i))
    ensures Inv(Next(s, Receive(i)))
  {
    var s' := Next(s, Receive(i));
    var failed := s.services[i].failed;
    MembersUpdate(s.services, i, Received(failed));
    assert forall j :: 0 <= j < |s.services| && j != i ==> s'.services[j] == s.services[j];
    if failed {
      assert Heard(s'.services[i]) && s'.services[i].failed;
    }
  }

  lemma WgDoneKeepsInv(s: State, i: nat)
    requires Inv(s) && Enabled(s, WgDone(i))
    ensures Inv(Next(s, WgDone(i)))
  {
    var s' := Next(s, WgDone(i));
    MembersUpdate(s.services, i, Done(s.services[i].failed));
    assert forall j :: 0 <= j < |s.services| && j != i ==> s'.services[j] == s.services[j];
    assert Heard(s.services[i]) && Heard(s'.services[i]) && s'.services[i].failed == s.services[i].failed;
    if s.waitFinished {
      NoMembers(s.services, i);
    }
  }

  lemma NextKeepsInv(s: State, step: Step)
    requires Inv(s) && Enabled(s, step)
    ensures Inv(Next(s, step))
  {
    match step
    case Spawn => SpawnKeepsInv(s);
    case Finish(i, failed) => FinishKeepsInv(s, i, failed);
    case Receive(i) => ReceiveKeepsInv(s, i);
    case WgDone(i) => WgDoneKeepsInv(s, i);
    case _ =>
  }

  lemma {:induction false} RunKeepsInv(n: nat, steps: seq<Step>)
    requires Schedule(n, steps)
    ensures Inv(Run(n, steps)) && |Run(n, steps).services| == n
    decreases |steps|
  {
    if steps == [] {
      InitMembers(Init(n).services);
    } else {
      RunKeepsInv(n, steps[..|steps| - 1]);
      NextKeepsInv(Run(n, steps[..|steps| - 1]), steps[|steps| - 1]);
    }
  }

  // ---------- Main results ----------

  /** When WaitForServices returns, every service's result has been received and every service has ended; the
      answer is true iff no result was an error; and if one was, cancel has been called. */
  lemma ReturnIsComplete(n: nat, steps: seq<Step>)
    requires Schedule(n, steps) && Run(n, steps).main.Returned?
    ensures var s := Run(n, steps);
      && |s.services| == n
      && (forall i :: 0 <= i < n ==> s.services[i].Done?)
      && (s.main.result <==> forall i :: 0 <= i < n ==> !s.services[i].failed)
      && (!s.main.result ==> s.cancelled)
  {
    RunKeepsInv(n, steps);
    var s := Run(n, steps);
    forall i | 0 <= i < n ensures s.services[i].Done? {
      NoMembers(s.services, i);
    }
    if !s.main.result {
      var i :| 0 <= i < n && Heard(s.services[i]) && s.services[i].failed;
    }
  }

  /** A failure is never missed and never invented: cancel is called by the time the first error is received and
      only then. */
  lemma CancelIffErrorReceived(n: nat, steps: seq<Step>)
    requires Schedule(n, steps)
    ensures var s := Run(n, steps);
      s.cancelled <==> exists i :: 0 <= i < |s.services| && Heard(s.services[i]) && s.services[i].failed
  {
    RunKeepsInv(n, steps);
  }

  /** The supervisor itself can always move unless it is waiting for a service that is still running. */
  lemma NoDeadlock(n: nat, steps: seq<Step>)
    requires Schedule(n, steps)
    requires var s := Run(n, steps);
      !s.main.Returned? && forall i :: 0 <= i < |s.services| ==> !s.services[i].Running?
    ensures exists step: Step :: !step.Signal? && Enabled(Run(n, steps), step)
  {
    RunKeepsInv(n, steps);
    var s := Run(n, steps);
    if s.main.Spawning? {
      assert Enabled(s, Spawn);
    } else if i :| 0 <= i < n && s.services[i].Sending? {
      assert Enabled(s, Receive(i));
    } else if i :| 0 <= i < n && s.services[i].Received? {
      assert Enabled(s, WgDone(i));
    } else if s.waitFinished {
      assert Enabled(s, Return);
    } else {
      AllLeft(s.services);
      assert Enabled(s, WaitReturns);
    }
  }

  lemma {:induction false} AllLeft(services: seq<Service>)
    requires forall i :: 0 <= i < |services| ==> !Joined(services[i])
    ensures Members(services) == 0
    decreases |services|
  {
    if services == [] {
    } else {
      AllLeft(services[..|services| - 1]);
    }
  }

  // ---------- Every schedule ends ----------

  function Weight(x: Service): nat {
    match x
    case NotStarted => 4
    case Running => 3
    case Sending(_) => 2
    case Received(_) => 1
    case Done(_) => 0
  }

  function TotalWeight(services: seq<Service>): nat {
    if services == [] then 0 else TotalWeight(services[..|services| - 1]) + Weight(services[|services| - 1])
  }

  /** The number of steps still possible is at most this. */
  function Rank(s: State): nat {
    TotalWeight(s.services)
    + (match s.main case Spawning(_) => 2 case Selecting => 1 case Returned(_) => 0)
    + (if s.waitFinished then 0 else 1)
    + (if s.signalled then 0 else 1)
  }

  lemma {:induction false} TotalWeightUpdate(services: seq<Service>, i: nat, x: Service)
    requires i < |services|
    ensures TotalWeight(services[i := x]) == TotalWeight(services) - Weight(services[i]) + Weight(x)
    decreases |services|
  {
    var n := |services| - 1;
    if i == n {
      assert services[i := x][..n] == services[..n];
    } else {
      TotalWeightUpdate(services[..n], i, x);
      assert services[i := x][..n] == services[..n][i := x];
    }
  }

  lemma StepLowersRank(s: State, step: Step)
    requires Inv(s) && Enabled(s, step)
    ensures Rank(Next(s, step)) < Rank(s)
  {
    match step
    case Spawn => if s.main.next < |s.services| { TotalWeightUpdate(s.services, s.main.next, Running); }
    case Finish(i, failed) => TotalWeightUpdate(s.services, i, Sending(failed));
    case Receive(i) => TotalWeightUpdate(s.services, i, Received(s.services[i].failed));
    case WgDone(i) => TotalWeightUpdate(s.services, i, Done(s.services[i].failed));
    case _ =>
  }

  lemma {:induction false} InitWeight(services: seq<Service>)
    requires forall i :: 0 <= i < |services| ==> services[i].NotStarted?
    ensures TotalWeight(services) == 4 * |services|
    decreases |services|
  {
    if services == [] {
    } else {
      InitWeight(services[..|services| - 1]);
    }
  }

  /** Every schedule is finite. */
  lemma {:induction false} SchedulesEnd(n: nat, steps: seq<Step>)
    requires Schedule(n, steps)
    ensures |steps| + Rank(Run(n, steps)) <= 4 * n + 4
    decreases |steps|
  {
    if steps == [] {
      InitWeight(Init(n).services);
    } else {
      var before := steps[..|steps| - 1];
      SchedulesEnd(n, before);
      RunKeepsInv(n, before);
      StepLowersRank(Run(n, before), steps[|steps| - 1]);
    }
  }

  /** A schedule that cannot go on, but for a signal, has made WaitForServices return. As every schedule ends, it always
      returns once its services have ended. */
  lemma StuckMeansReturned(n: nat, steps: seq<Step>)
    requires Schedule(n, steps)
    requires forall step: Step :: !step.Signal? ==> !Enabled(Run(n, steps), step)
    ensures Run(n, steps).main.Returned?
  {
    var s := Run(n, steps);
    RunKeepsInv(n, steps);
    if !s.main.Returned? {
      forall i | 0 <= i < n
        ensures !s.services[i].Running?
      {
        assert !Enabled(s, Finish(i, false));
      }
      NoDeadlock(n, steps);
      assert false;
    }
  }

  // ---------- The results in terms of the steps ----------

  /** A service has ended, with or without an error. */
  predicate FinishedAs(x: Service, failed: bool) {
    (x.Sending? || x.Received? || x.Done?) && x.failed == failed
  }

  lemma FinishedStep(s: State, step: Step, i: nat, failed: bool)
    requires Inv(s) && Enabled(s, step) && i < |s.services|
    ensures |Next(s, step).services| == |s.services|
    ensures FinishedAs(Next(s, step).services[i], failed) <==>
            FinishedAs(s.services[i], failed) || step == Finish(i, failed)
  {
  }

  lemma HeardStep(s: State, step: Step, i: nat)
    requires Inv(s) && Enabled(s, step) && i < |s.services|
    ensures |Next(s, step).services| == |s.services|
    ensures Heard(Next(s, step).services[i]) <==> Heard(s.services[i]) || step == Receive(i)
  {
  }

  lemma InFrontOrLast(steps: seq<Step>, step: Step)
    requires steps != []
    ensures step in steps <==> step in steps[..|steps| - 1] || step == steps[|steps| - 1]
  {
    assert steps == steps[..|steps| - 1] + [steps[|steps| - 1]];
  }

  /** A service that has ended has the result it ended with. */
  lemma {:induction false} FinishExactly(n: nat, steps: seq<Step>, i: nat, failed: bool)
    requires Schedule(n, steps) && i < n
    ensures |Run(n, steps).services| == n
    ensures FinishedAs(Run(n, steps).services[i], failed) <==> Finish(i, failed) in steps
    decreases |steps|
  {
    if steps == [] {
    } else {
      var front, step := steps[..|steps| - 1], steps[|steps| - 1];
      FinishExactly(n, front, i, failed);
      RunKeepsInv(n, front);
      FinishedStep(Run(n, front), step, i, failed);
      InFrontOrLast(steps, Finish(i, failed));
    }
  }

  /** A service's result has been received iff it was at some step. */
  lemma {:induction false} HeardExactly(n: nat, steps: seq<Step>, i: nat)
    requires Schedule(n, steps) && i < n
    ensures |Run(n, steps).services| == n
    ensures Heard(Run(n, steps).services[i]) <==> Receive(i) in steps
    decreases |steps|
  {
    if steps == [] {
    } else {
      var front, step := steps[..|steps| - 1], steps[|steps| - 1];
      HeardExactly(n, front, i);
      RunKeepsInv(n, front);
      HeardStep(Run(n, front), step, i);
      InFrontOrLast(steps, Receive(i));
    }
  }

  lemma {:induction false} ScheduledAt(n: nat, steps: seq<Step>, q: nat)
    requires Schedule(n, steps) && q < |steps|
    ensures Schedule(n, steps[..q]) && Enabled(Run(n, steps[..q]), steps[q])
    decreases |steps|
  {
    var last := |steps| - 1;
    if q == last {
    } else {
      ScheduledAt(n, steps[..last], q);
      assert steps[..last][..q] == steps[..q];
    }
  }

  /** WaitForServices answers true iff no service ended with an error. */
  lemma ReturnExactly(n: nat, steps: seq<Step>)
    requires Schedule(n, steps) && Run(n, steps).main.Returned?
    ensures Run(n, steps).main.result <==> forall i: nat :: Finish(i, true) !in steps
  {
    var s := Run(n, steps);
    ReturnIsComplete(n, steps);
    forall i: nat
      ensures Finish(i, true) in steps <==> i < n && s.services[i].failed
    {
      if i < n {
        FinishExactly(n, steps, i, true);
      } else if Finish(i, true) in steps {
        var q :| 0 <= q < |steps| && steps[q] == Finish(i, true);
        ScheduledAt(n, steps, q);
        RunKeepsInv(n, steps[..q]);
        assert false;
      }
    }
  }

  /** A service ended with an error and that was received. */
  predicate ErrorReceived(steps: seq<Step>, i: nat, p: nat, q: nat) {
    p < q < |steps| && steps[p] == Finish(i, true) && steps[q] == Receive(i)
  }

  /** cancel has been called iff some service ended with an error and that was received. */
  lemma CancelExactly(n: nat, steps: seq<Step>)
    requires Schedule(n, steps)
    ensures Run(n, steps).cancelled <==> exists i: nat, p: nat, q: nat :: ErrorReceived(steps, i, p, q)
  {
    var s := Run(n, steps);
    RunKeepsInv(n, steps);
    CancelIffErrorReceived(n, steps);
    if s.cancelled {
      var i :| 0 <= i < |s.services| && Heard(s.services[i]) && s.services[i].failed;
      var p, q := FinishBeforeReceive(n, steps, i);
      assert ErrorReceived(steps, i, p, q);
    }
    if i: nat, p: nat, q: nat :| ErrorReceived(steps, i, p, q) {
      ScheduledAt(n, steps, p);
      RunKeepsInv(n, steps[..p]);
      HeardExactly(n, steps, i);
      FinishExactly(n, steps, i, true);
    }
  }

  lemma FinishBeforeReceive(n: nat, steps: seq<Step>, i: nat) returns (p: nat, q: nat)
    requires Schedule(n, steps) && i < n && |Run(n, steps).services| == n
    requires Heard(Run(n, steps).services[i]) && Run(n, steps).services[i].failed
    ensures ErrorReceived(steps, i, p, q)
  {
    HeardExactly(n, steps, i);
    q :| 0 <= q < |steps| && steps[q] == Receive(i);
    ScheduledAt(n, steps, q);
    RunKeepsInv(n, steps[..q]);
    var failed := Run(n, steps[..q]).services[i].failed;
    FinishExactly(n, steps[..q], i, failed);
    p :| 0 <= p < q && steps[..q][p] == Finish(i, failed);
    assert steps[p] == Finish(i, failed);
    FinishExactly(n, steps, i, failed);
  }
}
