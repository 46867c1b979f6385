/** The application lifecycle of the Edge Virtualization Agent.

    A request reads the persisted metadata, gates on the persisted status, saves the next status and spawns a
    worker; the worker saves the final status when it is done. Requests are atomic, workers end at any time and
    every save may fail. One application is followed through whole runs. */
module Lifecycle {
  import opened Runs
  import opened Wrappers

  datatype Status = UNKNOWN | DEPLOYING | READY | STARTING | RUNNING | STOPPING | STOPPED | ERROR

  /** The application's directory: the status in its metadata file and the content of its "deployed" file. */
  datatype Disk = Absent | App(status: Status, deployedId: Option<string>)

  datatype Worker = Starting | Stopping | Restarting | Undeploying | Redeploying | Deploying

  /** `lost` records that some lifecycle worker failed to save its final status. */
  datatype State = State(disk: Disk, workers: seq<Worker>, lost: bool)

  /** `preconditions` is the verdict on the new metadata of a deployment. */
  datatype Request = Start | Stop | Restart | Undeploy | Redeploy(preconditions: bool) | Deploy(preconditions: bool)

  /** A request, or the end of worker number `i`. `saves` tells whether the step's save succeeds; `left` is what a
      (re)deployment worker leaves on disk. */
  datatype Step = Ask(request: Request, saves: bool) | Ends(i: nat, succeeds: bool, saves: bool, left: Disk)

  // ---------- Gates ----------

  predicate IsChangeAllowed(from: Status, to: Status) {
    match from
    case READY => to.STARTING? || to.UNKNOWN?
    case RUNNING => to.STARTING? || to.STOPPING? || to.UNKNOWN?
    case ERROR => to.STARTING? || to.UNKNOWN?
    case STOPPED => to.STOPPING? || to.STARTING? || to.UNKNOWN?
    case UNKNOWN => to.DEPLOYING?
    case _ => false
  }

  predicate IsDeployed(disk: Disk) {
    disk.App? && disk.deployedId.Some?
  }

  /** A lifecycle handler exists only for an application with a deployment ID. */
  predicate HasHandler(disk: Disk) {
    IsDeployed(disk) && disk.deployedId.value != ""
  }

  predicate Gate(disk: Disk, request: Request) {
    match request
    case Start => HasHandler(disk) && IsChangeAllowed(disk.status, STARTING)
    case Stop => HasHandler(disk) && IsChangeAllowed(disk.status, STOPPING)
    case Restart => HasHandler(disk) && IsChangeAllowed(disk.status, STARTING)
    case Undeploy => disk.App? && IsChangeAllowed(disk.status, UNKNOWN)
    case Redeploy(ok) => disk.App? && IsChangeAllowed(disk.status, UNKNOWN) && ok
    case Deploy(ok) => !IsDeployed(disk) && ok
  }

  // ---------- Steps ----------

  /** Save replaces the metadata file atomically, or leaves it as it was. */
  function Save(disk: Disk, status: Status, saves: bool): Disk {
    if disk.App? && saves then disk.(status := status) else disk
  }

  predicate Accepts(s: State, request: Request, saves: bool) {
    Gate(s.disk, request) && (request.Start? || request.Stop? || request.Restart? ==> saves)
  }

  function AskStep(s: State, request: Request, saves: bool): State {
    if !Accepts(s, request, saves) then s else
    match request
    case Start => s.(disk := Save(s.disk, STARTING, saves), workers := s.workers + [Starting])
    case Stop => s.(disk := Save(s.disk, STOPPING, saves), workers := s.workers + [Stopping])
    case Restart => s.(disk := Save(s.disk, STARTING, saves), workers := s.workers + [Restarting])
    case Undeploy => if IsDeployed(s.disk) then s.(workers := s.workers + [Undeploying]) else s.(disk := Absent)
    case Redeploy(_) => s.(workers := s.workers + [Redeploying])
    case Deploy(_) => s.(workers := s.workers + [Deploying])
  }

  function EndsStep(s: State, i: nat, succeeds: bool, saves: bool, left: Disk): State {
    if i >= |s.workers| then s else
      var rest := s.(workers := s.workers[..i] + s.workers[i + 1..]);
      match s.workers[i]
      case Stopping =>
        rest.(disk := Save(s.disk, if succeeds then STOPPED else ERROR, saves), lost := s.lost || !saves)
      case Undeploying => rest.(disk := if succeeds then Absent else Save(s.disk, ERROR, saves))
      case Redeploying => rest.(disk := left)
      case Deploying => rest.(disk := left)
      case _ =>
        rest.(disk := Save(s.disk, if succeeds then RUNNING else ERROR, saves), lost := s.lost || !saves)
  }

  function Next(s: State, step: Step): State {
    match step
    case Ask(request, saves) => AskStep(s, request, saves)
    case Ends(i, succeeds, saves, left) => EndsStep(s, i, succeeds, saves, left)
  }

  function Run(s: State, steps: seq<Step>): State {
    Fold(Next, s, steps)
  }

  // ---------- Exclusion ----------

  predicate Transitional(status: Status) {
    status.STARTING? || status.STOPPING?
  }

  /** A deployed application at rest. */
  predicate AtRest(s: State) {
    HasHandler(s.disk) && !Transitional(s.disk.status) && s.workers == [] && !s.lost
  }

  /** No undeployment or redeployment was accepted during the run. */
  predicate NoUndeploy(s: State, steps: seq<Step>)
    decreases |steps|
  {
    steps == [] ||
    var before, last := steps[..|steps| - 1], steps[|steps| - 1];
    NoUndeploy(s, before) &&
    (last.Ask? && (last.request.Undeploy? || last.request.Redeploy?) ==>
       !Accepts(Run(s, before), last.request, last.saves))
  }

  predicate Lifecyclic(w: Worker) {
    w.Starting? || w.Stopping? || w.Restarting?
  }

  /** What every step keeps: at most one worker, whose kind the persisted status tells. */
  predicate Inv(s: State) {
    && HasHandler(s.disk)
    && |s.workers| <= 1
    && (|s.workers| == 1 ==>
          Lifecyclic(s.workers[0]) && s.disk.status == if s.workers[0].Stopping? then STOPPING else STARTING)
    && (s.workers == [] && Transitional(s.disk.status) ==> s.lost)
  }

  /** While a worker is in flight, or after one failed to save its result, every request is turned away. */
  lemma TransitionalRejectsAll(s: State, request: Request, saves: bool)
    requires HasHandler(s.disk) && Transitional(s.disk.status)
    ensures !Accepts(s, request, saves) && AskStep(s, request, saves) == s
  {
  }

  lemma {:induction false} RunKeepsInv(s: State, steps: seq<Step>)
    requires AtRest(s) && NoUndeploy(s, steps)
    ensures Inv(Run(s, steps))
    decreases |steps|
  {
    if steps == [] {
    } else {
      RunKeepsInv(s, steps[..|steps| - 1]);
    }
  }

  /** In every run without an accepted undeployment or redeployment at most one worker is in flight; while it is, the
      status is STARTING or STOPPING and Start, Stop, Restart, Undeploy, Redeploy and Deploy are all rejected. */
  lemma Exclusion(s: State, steps: seq<Step>, request: Request, saves: bool)
    requires AtRest(s) && NoUndeploy(s, steps)
    ensures var t := Run(s, steps);
      && |t.workers| <= 1
      && t.disk.App?
      && (t.workers != [] ==> Transitional(t.disk.status) && !Accepts(t, request, saves))
      && (!t.lost ==> (t.workers != [] <==> Transitional(t.disk.status)))
  {
    RunKeepsInv(s, steps);
    var t := Run(s, steps);
    if t.workers != [] {
      TransitionalRejectsAll(t, request, saves);
    }
  }

  /** A worker that cannot save its result locks the application for good: whatever happens next, nothing is
      accepted and nothing changes. */
  lemma {:induction false} LostSaveSticks(s: State, steps: seq<Step>, more: seq<Step>)
    requires AtRest(s) && NoUndeploy(s, steps)
    requires var t := Run(s, steps); t.workers == [] && t.disk.App? && Transitional(t.disk.status)
    ensures Run(Run(s, steps), more) == Run(s, steps)
    decreases |more|
  {
    if more == [] {
    } else {
      RunKeepsInv(s, steps);
      LostSaveSticks(s, steps, more[..|more| - 1]);
      match more[|more| - 1]
      case Ask(request, saves) => TransitionalRejectsAll(Run(s, steps), request, saves);
      case Ends(_, _, _, _) =>
    }
  }

  // ---------- What a request comes to ----------

  /** Which statuses accept which request, spelled out. */
  lemma GateExactly(disk: Disk, request: Request)
    ensures Gate(disk, request) <==>
      match request
      case Deploy(ok) => ok && !(disk.App? && disk.deployedId.Some?)
      case Undeploy =>
        && disk.App?
        && (disk.status == READY || disk.status == RUNNING || disk.status == ERROR || disk.status == STOPPED)
      case Redeploy(ok) =>
        && ok && disk.App?
        && (disk.status == READY || disk.status == RUNNING || disk.status == ERROR || disk.status == STOPPED)
      case Stop =>
        && disk.App? && disk.deployedId.Some? && disk.deployedId.value != ""
        && (disk.status == RUNNING || disk.status == STOPPED)
      case _ =>
        && disk.App? && disk.deployedId.Some? && disk.deployedId.value != ""
        && (disk.status == READY || disk.status == RUNNING || disk.status == ERROR || disk.status == STOPPED)
  {
  }

  /** Only requests, no worker ends. */
  predicate OnlyAsks(steps: seq<Step>) {
    forall i :: 0 <= i < |steps| ==> steps[i].Ask?
  }

  lemma {:induction false} AsksBounce(s: State, asks: seq<Step>)
    requires HasHandler(s.disk) && Transitional(s.disk.status) && OnlyAsks(asks)
    ensures Run(s, asks) == s
    decreases |asks|
  {
    if asks == [] {
    } else {
      var n := |asks| - 1;
      AsksBounce(s, asks[..n]);
      TransitionalRejectsAll(s, asks[n].request, asks[n].saves);
    }
  }

  /** A lifecycle request accepted at rest, whatever is asked for until its worker ends and saves: the status is then
      RUNNING after a start or restart and STOPPED after a stop, or ERROR if the worker failed; all else is as before. */
  lemma RequestOutcome(s: State, request: Request, asks: seq<Step>, succeeds: bool, left: Disk)
    requires Inv(s) && s.workers == [] && Accepts(s, request, true) && OnlyAsks(asks)
    requires request.Start? || request.Stop? || request.Restart?
    ensures var during := Run(AskStep(s, request, true), asks);
      var after := Next(during, Ends(0, succeeds, true, left));
      && during.disk == s.disk.(status := if request.Stop? then STOPPING else STARTING)
      && after.workers == [] && after.lost == s.lost
      && after.disk == s.disk.(status := if !succeeds then ERROR else if request.Stop? then STOPPED else RUNNING)
  {
    AsksBounce(AskStep(s, request, true), asks);
  }

  /** An accepted undeployment, if nothing else is asked for until it ends: the application is gone, or its status is ERROR
      if it could not be undeployed. One that was not deployed is gone at once. */
  lemma UndeployOutcome(s: State, succeeds: bool, left: Disk)
    requires s.workers == [] && Accepts(s, Undeploy, true)
    ensures var pending := AskStep(s, Undeploy, true);
      if s.disk.deployedId == None then pending == s.(disk := Absent)
      else Next(pending, Ends(0, succeeds, true, left)) ==
           s.(disk := if succeeds then Absent else s.disk.(status := ERROR))
  {
  }

  // ---------- Undeployment breaks exclusion ----------

  function LifecycleWorkers(workers: seq<Worker>): nat {
    if workers == [] then 0 else
      LifecycleWorkers(workers[..|workers| - 1]) + if Lifecyclic(workers[|workers| - 1]) then 1 else 0
  }

  lemma StartRuns(s: State)
    requires HasHandler(s.disk) && IsChangeAllowed(s.disk.status, STARTING)
    ensures Next(s, Ask(Start, true)) == s.(disk := s.disk.(status := STARTING), workers := s.workers + [Starting])
  {
  }

  lemma FailureRuns(s: State, failed: Disk)
    requires s.disk.App? && failed == s.disk.(status := ERROR)
    requires s.workers == [Undeploying, Starting] || s.workers == [Redeploying, Starting]
    ensures Next(s, Ends(0, false, true, failed)) == s.(disk := failed, workers := [Starting])
  {
  }

  /** Start the application, let the pending worker fail and leave `failed`, and start the application again. */
  function StartTwice(failed: Disk): seq<Step> {
    [Ask(Start, true), Ends(0, false, true, failed), Ask(Start, true)]
  }

  lemma StartTwiceRuns(s: State)
    requires HasHandler(s.disk) && IsChangeAllowed(s.disk.status, STARTING)
    requires s.workers == [Undeploying] || s.workers == [Redeploying]
    ensures Run(s, StartTwice(s.disk.(status := ERROR))).workers == [Starting, Starting]
  {
    var failed := s.disk.(status := ERROR);
    StartRuns(s);
    var s1 := Next(s, Ask(Start, true));
    FailureRuns(s1, failed);
    var s2 := Next(s1, Ends(0, false, true, failed));
    StartRuns(s2);
    FoldTwo(Next, s, Ask(Start, true), Ends(0, false, true, failed));
    assert StartTwice(failed)[..2] == [Ask(Start, true), Ends(0, false, true, failed)];
  }

  /** The condition of `Exclusion` is needed: from every reachable state at rest, once an undeployment or a redeployment
      is accepted, two lifecycle workers can be in flight at once. */
  lemma UndeployBreaksExclusion(s: State, request: Request)
    requires Inv(s) && s.workers == [] && (request.Undeploy? || request.Redeploy?) && Accepts(s, request, true)
    ensures exists more :: LifecycleWorkers(Run(AskStep(s, request, true), more).workers) == 2
  {
    StartTwiceRuns(AskStep(s, request, true));
    assert [Starting, Starting][..1] == [Starting] && [Starting][..0] == [];
    assert LifecycleWorkers([Starting]) == 1 && LifecycleWorkers([Starting, Starting]) == 2;
  }
}
