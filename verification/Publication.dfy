/**
 Publishing an index: any number of workers run `request_index` and `_run_index` for one
 capture, each scan is a separate process that may stop at any point. The lock is a file
 created exclusively; a lock older than the timeout is not part of this model.
 */
module Publication {
  import opened Wrappers

  // What a file holds: the output of one scan, complete or still being written.
  datatype Content = Content(scan: nat, complete: bool)

  // How far a scan process has come.
  datatype Stage =
    | Started        // before READY is removed
    | Cleared        // READY is gone
    | RefsOpen       // refs.bin.tmp is being written
    | RefsFull       // refs.bin.tmp is synced
    | DbOpen         // capture.sqlite.tmp is being written
    | DbFull         // capture.sqlite.tmp is committed and closed
    | RefsRemoved    // the old refs.bin is gone
    | DbRemoved      // the old capture.sqlite is gone
    | RefsRenamed    // refs.bin is in place
    | DbRenamed      // capture.sqlite is in place
    | Finished       // READY is written
    | Dead           // error exit, crash or kill

  // Where a worker stands in `request_index` and, with the lock, in `_run_index`.
  datatype Worker =
    | Idle
    | NotReady                    // is_ready said no
    | SawNoLock                   // the lock file did not exist
    | Locked                      // the lock file was created here
    | Watching(scan: nat)         // reading the progress of its scan
    | Releasing                   // in the finally block
    | Done
    | Crashed(was: Worker)        // the worker process is gone; its lock stays

  datatype State = State(
    ready: bool, refs: Option<Content>, db: Option<Content>, refsTmp: Option<Content>, dbTmp: Option<Content>,
    lock: bool, workers: seq<Worker>, scans: seq<Stage>)

  datatype Step =
    | CheckReady
    | CheckLock
    | CreateLock
    | Launch
    | LaunchFails
    | SeeExit
    | TimeOut
    | StatusFails                 // writing the progress status raises
    | ReleaseLock
    | Die
    | NewRequest

  datatype Action = ScanStep(k: nat) | ScanDies(k: nat) | Does(w: nat, step: Step)

  predicate Live(stage: Stage) { stage != Finished && stage != Dead }

  // `is_ready`: the marker and both files exist.
  predicate IsReady(s: State) { s.ready && s.db.Some? && s.refs.Some? }

  function Initial(workers: nat): State {
    State(false, None, None, None, None, false, seq(workers, _ => Idle), [])
  }

  // ------------------------------------------------------------ steps

  // One step of scan `k`, with its effect on the files; None when a rename finds no file.
  function Advance(s: State, k: nat): Option<State>
    requires k < |s.scans|
  {
    match s.scans[k]
    case Started => Some(s.(ready := false, scans := s.scans[k := Cleared]))
    case Cleared => Some(s.(refsTmp := Some(Content(k, false)), scans := s.scans[k := RefsOpen]))
    case RefsOpen => Some(s.(refsTmp := if s.refsTmp == Some(Content(k, false)) then Some(Content(k, true)) else s.refsTmp,
                             scans := s.scans[k := RefsFull]))
    case RefsFull => Some(s.(dbTmp := Some(Content(k, false)), scans := s.scans[k := DbOpen]))
    case DbOpen => Some(s.(dbTmp := if s.dbTmp == Some(Content(k, false)) then Some(Content(k, true)) else s.dbTmp,
                           scans := s.scans[k := DbFull]))
    case DbFull => Some(s.(refs := None, scans := s.scans[k := RefsRemoved]))
    case RefsRemoved => Some(s.(db := None, scans := s.scans[k := DbRemoved]))
    case DbRemoved =>
      if s.refsTmp.None? then None else Some(s.(refs := s.refsTmp, refsTmp := None, scans := s.scans[k := RefsRenamed]))
    case RefsRenamed =>
      if s.dbTmp.None? then None else Some(s.(db := s.dbTmp, dbTmp := None, scans := s.scans[k := DbRenamed]))
    case DbRenamed => Some(s.(ready := true, scans := s.scans[k := Finished]))
    case Finished => None
    case Dead => None
  }

  function Move(s: State, w: nat, to: Worker): State
    requires w < |s.workers|
  {
    s.(workers := s.workers[w := to])
  }

  // None: the step is not enabled.
  function WorkerStep(s: State, w: nat, step: Step): Option<State>
    requires w < |s.workers|
  {
    var at := s.workers[w];
    match step
    case CheckReady => if at != Idle then None else Some(Move(s, w, if IsReady(s) then Done else NotReady))
    case CheckLock => if at != NotReady then None else Some(Move(s, w, if s.lock then Done else SawNoLock))
    case CreateLock =>
      if at != SawNoLock then None
      else if s.lock then Some(Move(s, w, Done))
      else Some(Move(s, w, Locked).(lock := true))
    case Launch => if at != Locked then None else Some(Move(s, w, Watching(|s.scans|)).(scans := s.scans + [Started]))
    case LaunchFails => if at != Locked then None else Some(Move(s, w, Releasing))
    case SeeExit =>
      if at.Watching? && at.scan < |s.scans| && !Live(s.scans[at.scan]) then Some(Move(s, w, Releasing)) else None
    case TimeOut =>
      if at.Watching? && at.scan < |s.scans| then
        Some(Move(s, w, Releasing).(scans := if Live(s.scans[at.scan]) then s.scans[at.scan := Dead] else s.scans))
      else None
    case StatusFails => if at.Watching? then Some(Move(s, w, Releasing)) else None
    case ReleaseLock => if at != Releasing then None else Some(Move(s, w, Done).(lock := false))
    case Die => if at.Crashed? then None else Some(Move(s, w, Crashed(at)))
    case NewRequest => if at != Done then None else Some(Move(s, w, Idle))
  }

  function Do(s: State, a: Action): Option<State> {
    match a
    case ScanStep(k) => if k < |s.scans| && Live(s.scans[k]) then Advance(s, k) else None
    case ScanDies(k) => if k < |s.scans| && Live(s.scans[k]) then Some(s.(scans := s.scans[k := Dead])) else None
    case Does(w, step) => if w < |s.workers| then WorkerStep(s, w, step) else None
  }

  function Run(s: State, actions: seq<Action>): Option<State>
    decreases |actions|
  {
    if |actions| == 0 then Some(s) else
    match Do(s, actions[0])
    case None => None
    case Some(s') => Run(s', actions[1..])
  }

  // Writing the status fails while the scan it reports on is still running.
  predicate Orphans(s: State, a: Action) {
    && a.Does? && a.step == StatusFails && a.w < |s.workers| && s.workers[a.w].Watching?
    && var k := s.workers[a.w].scan;
       k < |s.scans| && Live(s.scans[k])
  }

  // No step of the run leaves a running scan behind.
  predicate Supervised(s: State, actions: seq<Action>)
    decreases |actions|
  {
    |actions| > 0 ==>
      !Orphans(s, actions[0]) && match Do(s, actions[0]) case None => true case Some(s') => Supervised(s', actions[1..])
  }

  // ------------------------------------------------------------ invariant

  predicate Holds(w: Worker) {
    match w
    case Locked => true
    case Watching(_) => true
    case Releasing => true
    case Crashed(was) => Holds(was)
    case _ => false
  }

  function Watched(w: Worker): Option<nat> {
    match w
    case Watching(k) => Some(k)
    case Crashed(was) => Watched(was)
    case _ => None
  }

  // At most one worker is past the lock, and then the lock exists.
  ghost predicate LockInv(lock: bool, workers: seq<Worker>) {
    && (forall v, w | 0 <= v < |workers| && 0 <= w < |workers| && Holds(workers[v]) && Holds(workers[w]) :: v == w)
    && (forall w | 0 <= w < |workers| && Holds(workers[w]) :: lock)
  }

  // Every running scan is the scan of some worker, but for `spare`, which nobody need watch.
  ghost predicate ScanInv(workers: seq<Worker>, scans: seq<Stage>, spare: int) {
    && spare < |scans|
    && (forall k | 0 <= k < |scans| && Live(scans[k]) && k != spare ::
          exists w :: 0 <= w < |workers| && Watched(workers[w]) == Some(k))
    && (forall w | 0 <= w < |workers| && Watched(workers[w]).Some? :: Watched(workers[w]).value < |scans|)
    && (0 <= spare && Live(scans[spare]) ==> scans[spare] == DbRenamed)
  }

  // The files a running scan may rely on.
  ghost predicate StageInv(s: State, k: nat, stage: Stage) {
    match stage
    case RefsOpen => s.refsTmp == Some(Content(k, false))
    case RefsFull => s.refsTmp == Some(Content(k, true))
    case DbOpen => s.refsTmp == Some(Content(k, true)) && s.dbTmp == Some(Content(k, false))
    case DbFull => s.refsTmp == Some(Content(k, true)) && s.dbTmp == Some(Content(k, true))
    case RefsRemoved => s.refsTmp == Some(Content(k, true)) && s.dbTmp == Some(Content(k, true)) && s.refs.None?
    case DbRemoved =>
      s.refsTmp == Some(Content(k, true)) && s.dbTmp == Some(Content(k, true)) && s.refs.None? && s.db.None?
    case RefsRenamed => s.refs == Some(Content(k, true)) && s.dbTmp == Some(Content(k, true)) && s.db.None?
    case DbRenamed => s.refs == Some(Content(k, true)) && s.db == Some(Content(k, true))
    case _ => true
  }

  // Both published files never stand beside each other unless they are the complete output of
  // one scan.
  ghost predicate FilesAgree(s: State) {
    s.refs.Some? && s.db.Some? ==> s.refs == s.db && s.refs.value.complete
  }

  ghost predicate FileInv(s: State, spare: int) {
    && LockInv(s.lock, s.workers)
    && ScanInv(s.workers, s.scans, spare)
    && FilesAgree(s)
    && forall k | 0 <= k < |s.scans| && Live(s.scans[k]) && k != spare :: StageInv(s, k, s.scans[k])
  }

  // READY is absent from its removal to the end of the scan, and stands beside both files.
  ghost predicate ReadyInv(s: State) {
    && (forall k | 0 <= k < |s.scans| && Live(s.scans[k]) && s.scans[k] != Started :: !s.ready)
    && (s.ready ==> s.refs.Some? && s.db.Some?)
  }

  const NONE := -1

  ghost predicate Inv(s: State) {
    FileInv(s, NONE) && ReadyInv(s)
  }

  lemma Watchers(w: Worker)
    ensures Watched(w).Some? ==> Holds(w)
  {
  }

  // The lock admits one running scan at a time.
  lemma OneScan(s: State, spare: int, j: nat, k: nat)
    requires LockInv(s.lock, s.workers) && ScanInv(s.workers, s.scans, spare)
    requires j < |s.scans| && k < |s.scans| && Live(s.scans[j]) && Live(s.scans[k]) && j != spare && k != spare
    ensures j == k && s.lock
  {
    var v :| 0 <= v < |s.workers| && Watched(s.workers[v]) == Some(j);
    var w :| 0 <= w < |s.workers| && Watched(s.workers[w]) == Some(k);
    Watchers(s.workers[v]);
    Watchers(s.workers[w]);
  }

  // A spare scan only writes READY.
  lemma ScanKeepsFiles(s: State, spare: int, k: nat)
    requires FileInv(s, spare) && k < |s.scans| && Live(s.scans[k]) && Advance(s, k).Some?
    ensures FileInv(Advance(s, k).value, spare)
  {
    var s' := Advance(s, k).value;
    assert k != spare ==> StageInv(s, k, s.scans[k]);
    forall j | 0 <= j < |s'.scans| && Live(s'.scans[j]) && j != spare
      ensures exists w :: 0 <= w < |s'.workers| && Watched(s'.workers[w]) == Some(j)
      ensures StageInv(s', j, s'.scans[j])
    {
      assert Live(s.scans[j]) && StageInv(s, j, s.scans[j]);
      if k != spare {
        OneScan(s, spare, j, k);
      }
    }
  }

  lemma DeathKeepsFiles(s: State, spare: int, k: nat)
    requires FileInv(s, spare) && k < |s.scans|
    ensures FileInv(s.(scans := s.scans[k := Dead]), spare)
  {
    var s' := s.(scans := s.scans[k := Dead]);
    forall j | 0 <= j < |s'.scans| && Live(s'.scans[j]) && j != spare
      ensures exists w :: 0 <= w < |s'.workers| && Watched(s'.workers[w]) == Some(j)
      ensures StageInv(s', j, s'.scans[j])
    {
      assert Live(s.scans[j]);
      assert StageInv(s, j, s.scans[j]);
    }
  }

  // A worker changes its place without touching a file. A running scan it gives up is spare.
  lemma MoveKeepsFiles(s: State, spare: int, w: nat, to: Worker)
    requires FileInv(s, spare) && w < |s.workers|
    requires Holds(to) ==> Holds(s.workers[w])
    requires Watched(to).None? || Watched(to) == Watched(s.workers[w])
    requires Watched(to).None? && Watched(s.workers[w]).Some? ==>
               var k := Watched(s.workers[w]).value; k == spare || !Live(s.scans[k])
    ensures FileInv(Move(s, w, to), spare)
  {
    var s' := Move(s, w, to);
    forall k | 0 <= k < |s'.scans| && Live(s'.scans[k]) && k != spare
      ensures exists v :: 0 <= v < |s'.workers| && Watched(s'.workers[v]) == Some(k)
      ensures StageInv(s', k, s'.scans[k])
    {
      var v :| 0 <= v < |s.workers| && Watched(s.workers[v]) == Some(k);
      assert Watched(s'.workers[v]) == Some(k);
      assert StageInv(s, k, s.scans[k]);
    }
  }

  lemma CreateKeepsFiles(s: State, spare: int, w: nat)
    requires FileInv(s, spare) && w < |s.workers| && s.workers[w] == SawNoLock && !s.lock
    ensures FileInv(Move(s, w, Locked).(lock := true), spare)
  {
    var s' := Move(s, w, Locked).(lock := true);
    forall k | 0 <= k < |s'.scans| && Live(s'.scans[k]) && k != spare
      ensures false
    {
      OneScan(s, spare, k, k);
    }
  }

  lemma LaunchKeepsFiles(s: State, spare: int, w: nat)
    requires FileInv(s, spare) && w < |s.workers| && s.workers[w] == Locked
    ensures FileInv(Move(s, w, Watching(|s.scans|)).(scans := s.scans + [Started]), spare)
  {
    var s' := Move(s, w, Watching(|s.scans|)).(scans := s.scans + [Started]);
    forall k | 0 <= k < |s.scans| && Live(s.scans[k]) && k != spare
      ensures false
    {
      var v :| 0 <= v < |s.workers| && Watched(s.workers[v]) == Some(k);
      Watchers(s.workers[v]);
    }
    assert Watched(s'.workers[w]) == Some(|s.scans|);
  }

  lemma ReleaseKeepsFiles(s: State, spare: int, w: nat)
    requires FileInv(s, spare) && w < |s.workers| && s.workers[w] == Releasing
    ensures FileInv(Move(s, w, Done).(lock := false), spare)
  {
    var s' := Move(s, w, Done).(lock := false);
    MoveKeepsFiles(s, spare, w, Done);
    forall v | 0 <= v < |s'.workers|
      ensures !Holds(s'.workers[v])
    {
    }
    forall k | 0 <= k < |s'.scans| && Live(s'.scans[k]) && k != spare
      ensures false
    {
      var v :| 0 <= v < |s'.workers| && Watched(s'.workers[v]) == Some(k);
      Watchers(s'.workers[v]);
    }
  }

  lemma TimeOutKeepsFiles(s: State, spare: int, w: nat)
    requires FileInv(s, spare) && w < |s.workers| && s.workers[w].Watching? && s.workers[w].scan < |s.scans|
    ensures WorkerStep(s, w, TimeOut).Some? && FileInv(WorkerStep(s, w, TimeOut).value, spare)
  {
    var k := s.workers[w].scan;
    if Live(s.scans[k]) {
      DeathKeepsFiles(s, spare, k);
      MoveKeepsFiles(s.(scans := s.scans[k := Dead]), spare, w, Releasing);
    } else {
      MoveKeepsFiles(s, spare, w, Releasing);
    }
  }

  lemma WatchedExists(s: State, spare: int, w: nat)
    requires FileInv(s, spare) && w < |s.workers| && s.workers[w].Watching?
    ensures s.workers[w].scan < |s.scans|
  {
    assert Watched(s.workers[w]).Some?;
  }

  lemma WorkerStepKeepsFiles(s: State, spare: int, w: nat, step: Step)
    requires FileInv(s, spare) && w < |s.workers| && WorkerStep(s, w, step).Some? && !Orphans(s, Does(w, step))
    ensures FileInv(WorkerStep(s, w, step).value, spare)
  {
    hide FileInv, IsReady;
    match step
    case CheckReady => MoveKeepsFiles(s, spare, w, if IsReady(s) then Done else NotReady);
    case CheckLock => MoveKeepsFiles(s, spare, w, if s.lock then Done else SawNoLock);
    case CreateLock =>
      if s.lock {
        MoveKeepsFiles(s, spare, w, Done);
      } else {
        CreateKeepsFiles(s, spare, w);
      }
    case Launch => LaunchKeepsFiles(s, spare, w);
    case LaunchFails => MoveKeepsFiles(s, spare, w, Releasing);
    case SeeExit => MoveKeepsFiles(s, spare, w, Releasing);
    case TimeOut => TimeOutKeepsFiles(s, spare, w);
    case StatusFails =>
      WatchedExists(s, spare, w);
      MoveKeepsFiles(s, spare, w, Releasing);
    case ReleaseLock => ReleaseKeepsFiles(s, spare, w);
    case Die => MoveKeepsFiles(s, spare, w, Crashed(s.workers[w]));
    case NewRequest => MoveKeepsFiles(s, spare, w, Idle);
  }

  lemma StepKeepsFiles(s: State, spare: int, a: Action)
    requires FileInv(s, spare) && Do(s, a).Some? && !Orphans(s, a)
    ensures FileInv(Do(s, a).value, spare)
  {
    hide FileInv, WorkerStep, Advance;
    match a
    case ScanStep(k) => ScanKeepsFiles(s, spare, k);
    case ScanDies(k) => DeathKeepsFiles(s, spare, k);
    case Does(w, step) => WorkerStepKeepsFiles(s, spare, w, step);
  }

  // READY follows the one scan that runs.
  lemma ScanKeepsReady(s: State, k: nat)
    requires Inv(s) && k < |s.scans| && Live(s.scans[k]) && Advance(s, k).Some?
    ensures ReadyInv(Advance(s, k).value)
  {
    hide LockInv, ScanInv;
    var s' := Advance(s, k).value;
    assert StageInv(s, k, s.scans[k]);
    forall j | 0 <= j < |s'.scans| && Live(s'.scans[j])
      ensures j == k
    {
      OneScan(s, NONE, j, k);
    }
  }

  lemma WorkerKeepsReady(s: State, w: nat, step: Step)
    requires ReadyInv(s) && w < |s.workers| && WorkerStep(s, w, step).Some?
    ensures ReadyInv(WorkerStep(s, w, step).value)
  {
  }

  lemma StepKeepsReady(s: State, a: Action)
    requires Inv(s) && Do(s, a).Some?
    ensures ReadyInv(Do(s, a).value)
  {
    hide FileInv, WorkerStep, Advance;
    match a
    case ScanStep(k) => ScanKeepsReady(s, k);
    case ScanDies(_) =>
    case Does(w, step) => WorkerKeepsReady(s, w, step);
  }

  lemma StepKeepsInv(s: State, a: Action)
    requires Inv(s) && Do(s, a).Some? && !Orphans(s, a)
    ensures Inv(Do(s, a).value)
  {
    hide FileInv, ReadyInv, Do;
    StepKeepsFiles(s, NONE, a);
    StepKeepsReady(s, a);
  }

  lemma {:induction false} RunKeepsInv(s: State, actions: seq<Action>)
    requires Inv(s) && Supervised(s, actions) && Run(s, actions).Some?
    ensures Inv(Run(s, actions).value)
    decreases |actions|
  {
    if |actions| > 0 {
      StepKeepsInv(s, actions[0]);
      RunKeepsInv(Do(s, actions[0]).value, actions[1..]);
    }
  }

  lemma {:induction false} RunKeepsFiles(s: State, spare: int, actions: seq<Action>)
    requires FileInv(s, spare) && Supervised(s, actions) && Run(s, actions).Some?
    ensures FileInv(Run(s, actions).value, spare)
    decreases |actions|
  {
    if |actions| > 0 {
      StepKeepsFiles(s, spare, actions[0]);
      RunKeepsFiles(Do(s, actions[0]).value, spare, actions[1..]);
    }
  }

  ghost predicate TwoScans(s: State) {
    exists j, k :: 0 <= j < k < |s.scans| && Live(s.scans[j]) && Live(s.scans[k])
  }

  // A ready index is the complete output of one scan.
  ghost predicate Sound(s: State) {
    IsReady(s) ==> s.refs == s.db && s.refs.value.complete
  }

  ghost predicate KeepsOneScan(s: State) {
    forall rest | Supervised(s, rest) && Run(s, rest).Some? :: !TwoScans(Run(s, rest).value)
  }

  ghost predicate KeepsSound(s: State) {
    forall rest | Supervised(s, rest) && Run(s, rest).Some? :: Sound(Run(s, rest).value)
  }

  /**
   Over every supervised run, however the workers interleave and wherever scans stop: at most
   one scan runs, the lock exists while it does, and a ready index consists of the complete
   output of one and the same scan.
   */
  lemma PublicationIsSafe(workers: nat, actions: seq<Action>)
    requires Supervised(Initial(workers), actions) && Run(Initial(workers), actions).Some?
    ensures var s := Run(Initial(workers), actions).value;
            && (forall j, k | 0 <= j < |s.scans| && 0 <= k < |s.scans| && Live(s.scans[j]) && Live(s.scans[k]) ::
                  j == k && s.lock)
            && Sound(s)
  {
    var s := Run(Initial(workers), actions).value;
    RunKeepsInv(Initial(workers), actions);
    forall j, k | 0 <= j < |s.scans| && 0 <= k < |s.scans| && Live(s.scans[j]) && Live(s.scans[k])
      ensures j == k && s.lock
    {
      OneScan(s, NONE, j, k);
    }
  }

  // ------------------------------------------------------------ the supervision is needed

  lemma {:induction false} RunAppend(s: State, a: seq<Action>, b: seq<Action>)
    requires Run(s, a).Some?
    ensures Run(s, a + b) == Run(Run(s, a).value, b)
    decreases |a|
  {
    if |a| == 0 {
      assert a + b == b;
    } else {
      assert (a + b)[1..] == a[1..] + b;
      RunAppend(Do(s, a[0]).value, a[1..], b);
    }
  }

  // A run, given by the states it passes through.
  lemma {:induction false} RunAlong(states: seq<State>, actions: seq<Action>)
    requires |states| == |actions| + 1
    requires forall i | 0 <= i < |actions| :: Do(states[i], actions[i]) == Some(states[i + 1])
    ensures Run(states[0], actions) == Some(states[|actions|])
    decreases |actions|
  {
    hide Do;
    if |actions| > 0 {
      assert Do(states[0], actions[0]) == Some(states[1]);
      RunAlong(states[1..], actions[1..]);
    }
  }

  // A run in which every status write succeeds.
  ghost predicate Reports(actions: seq<Action>) {
    forall a | a in actions :: a.Does? ==> a.step != StatusFails
  }

  lemma {:induction false} ReportingIsSupervised(s: State, actions: seq<Action>)
    requires Reports(actions)
    ensures Supervised(s, actions)
    decreases |actions|
  {
    if |actions| > 0 {
      assert actions[0] in actions && forall a | a in actions[1..] :: a in actions;
      if Do(s, actions[0]).Some? {
        ReportingIsSupervised(Do(s, actions[0]).value, actions[1..]);
      }
    }
  }

  // The run leads from one state to the other, and every status write succeeds.
  ghost predicate Leads(s: State, actions: seq<Action>, t: State) {
    Reports(actions) && Run(s, actions) == Some(t)
  }

  lemma LeadsOn(s: State, a: seq<Action>, t: State, b: seq<Action>, u: State)
    requires Leads(s, a, t) && Leads(t, b, u)
    ensures Leads(s, a + b, u)
  {
    RunAppend(s, a, b);
  }

  // An abandoned scan may go on to any later stage; it finds its files as long as it is alone.
  ghost predicate Abandoned(s: State, w: nat, k: nat) {
    && w < |s.workers| && s.workers[w] == Releasing
    && k < |s.scans| && Live(s.scans[k]) && StageInv(s, k, s.scans[k])
    && (s.scans[k] != Started ==> !s.ready)
  }

  lemma OrphanIsAbandoned(s: State, a: Action)
    requires Inv(s) && Do(s, a).Some? && Orphans(s, a)
    ensures Abandoned(Do(s, a).value, a.w, s.workers[a.w].scan)
    ensures Do(s, a).value == Move(s, a.w, Releasing)
  {
    var k := s.workers[a.w].scan;
    assert StageInv(s, k, s.scans[k]);
  }

  lemma AbandonedAdvances(s: State, w: nat, k: nat)
    requires Abandoned(s, w, k) && s.scans[k] != DbRenamed
    ensures Advance(s, k).Some?
    ensures var t := Advance(s, k).value;
            && Abandoned(t, w, k) && t.scans[k] != Started && |t.scans| == |s.scans|
            && Leads(s, [ScanStep(k)], t)
  {
    var t := Advance(s, k).value;
    assert Do(s, ScanStep(k)) == Some(t);
    assert [ScanStep(k)][1..] == [] && Run(t, []) == Some(t);
    assert Run(s, [ScanStep(k)]) == Run(t, [ScanStep(k)][1..]);
  }

  // How many steps a scan has to go before it writes READY.
  function Remaining(stage: Stage): nat {
    match stage
    case Started => 9
    case Cleared => 8
    case RefsOpen => 7
    case RefsFull => 6
    case DbOpen => 5
    case DbFull => 4
    case RefsRemoved => 3
    case DbRemoved => 2
    case RefsRenamed => 1
    case _ => 0
  }

  lemma NextIsNearer(s: State, k: nat)
    requires k < |s.scans| && Advance(s, k).Some? && Live(s.scans[k]) && s.scans[k] != DbRenamed
    ensures Advance(s, k).value.scans[k] != DbRenamed || s.scans[k] == RefsRenamed
    ensures s.scans[k] != RefsRenamed ==> Remaining(Advance(s, k).value.scans[k]) < Remaining(s.scans[k])
  {
  }

  // Before READY the abandoned scan can come to the point where only refs.bin is in place.
  lemma ReachesRefsRenamed(s: State, w: nat, k: nat) returns (early: seq<Action>, t: State)
    requires Abandoned(s, w, k) && s.scans[k] != DbRenamed
    ensures Leads(s, early, t) && Abandoned(t, w, k) && t.scans[k] == RefsRenamed
    decreases Remaining(s.scans[k])
  {
    if s.scans[k] == RefsRenamed {
      early, t := [], s;
    } else {
      hide Abandoned, Leads, StageInv;
      StillLive(s, w, k);
      AbandonedAdvances(s, w, k);
      var next := Advance(s, k).value;
      NextIsNearer(s, k);
      var rest: seq<Action>;
      rest, t := ReachesRefsRenamed(next, w, k);
      LeadsOn(s, [ScanStep(k)], next, rest, t);
      early := [ScanStep(k)] + rest;
    }
  }

  lemma StillLive(s: State, w: nat, k: nat)
    requires Abandoned(s, w, k)
    ensures k < |s.scans| && Live(s.scans[k])
  {
  }

  // A request that finds neither index nor lock.
  function Request(w: nat): seq<Action> {
    [Does(w, NewRequest), Does(w, CheckReady), Does(w, CheckLock), Does(w, CreateLock), Does(w, Launch)]
  }

  // The worker that left its scan asks again, and starts another one.
  function Again(w: nat): seq<Action> {
    [Does(w, ReleaseLock)] + Request(w)
  }

  function Relaunched(s: State, w: nat): State
    requires w < |s.workers|
  {
    Move(s, w, Watching(|s.scans|)).(lock := true, scans := s.scans + [Started])
  }

  lemma AgainLaunches(s: State, w: nat)
    requires w < |s.workers| && s.workers[w] == Releasing && !s.ready
    ensures Leads(s, Again(w), Relaunched(s, w))
  {
    hide Advance, Run, Supervised, Inv;
    var run := Again(w);
    var s1 := Move(s, w, Done).(lock := false);
    var s2 := Move(s1, w, Idle);
    var s3 := Move(s2, w, NotReady);
    var s4 := Move(s3, w, SawNoLock);
    var s5 := Move(s4, w, Locked).(lock := true);
    var s6 := Move(s5, w, Watching(|s.scans|)).(scans := s.scans + [Started]);
    RunAlong([s, s1, s2, s3, s4, s5, s6], run);
    assert s6.workers == Relaunched(s, w).workers;
  }

  lemma AbandonedReachesTwoScans(s: State, w: nat, k: nat) returns (rest: seq<Action>, t: State)
    requires Abandoned(s, w, k)
    ensures Leads(s, rest, t) && TwoScans(t)
  {
    var early: seq<Action>, cleared := [], s;
    if s.scans[k] == Started {
      AbandonedAdvances(s, w, k);
      early, cleared := [ScanStep(k)], Advance(s, k).value;
    }
    AgainLaunches(cleared, w);
    LeadsOn(s, early, cleared, Again(w), Relaunched(cleared, w));
    rest, t := early + Again(w), Relaunched(cleared, w);
    assert Live(t.scans[k]) && Live(t.scans[|cleared.scans|]);
  }

  /**
   From any state of a supervised run and any possible action: whatever follows under
   supervision keeps one running scan at most if and only if the action does not abandon a
   running scan. Otherwise the worker that abandoned it can start the second one itself.
   */
  lemma OneScanIffSupervised(s: State, a: Action)
    requires Inv(s) && Do(s, a).Some?
    ensures KeepsOneScan(Do(s, a).value) <==> !Orphans(s, a)
  {
    hide Inv, Do, Abandoned;
    var s' := Do(s, a).value;
    if Orphans(s, a) {
      OrphanIsAbandoned(s, a);
      var rest, t := AbandonedReachesTwoScans(s', a.w, s.workers[a.w].scan);
      ReportingIsSupervised(s', rest);
      assert Supervised(s', rest) && Run(s', rest) == Some(t);
    } else {
      StepKeepsInv(s, a);
      forall rest | Supervised(s', rest) && Run(s', rest).Some?
        ensures !TwoScans(Run(s', rest).value)
      {
        RunKeepsInv(s', rest);
        InvHasOneScan(Run(s', rest).value);
      }
    }
  }

  lemma InvHasOneScan(s: State)
    requires Inv(s)
    ensures !TwoScans(s)
  {
    if j, k :| 0 <= j < k < |s.scans| && Live(s.scans[j]) && Live(s.scans[k]) {
      OneScan(s, NONE, j, k);
    }
  }

  // ------------------------------------------------------------ READY without supervision

  // The second scan `n` comes to write its tables.
  lemma OpensTables(s: State, n: nat, t: State)
    requires n < |s.scans| && s.scans[n] == Started
    requires t == s.(ready := false, refsTmp := Some(Content(n, true)), dbTmp := Some(Content(n, false)),
                     scans := s.scans[n := DbOpen])
    ensures Leads(s, [ScanStep(n), ScanStep(n), ScanStep(n), ScanStep(n)], t)
  {
    var s1 := s.(ready := false, scans := s.scans[n := Cleared]);
    var s2 := s1.(refsTmp := Some(Content(n, false)), scans := s1.scans[n := RefsOpen]);
    var s3 := s2.(refsTmp := Some(Content(n, true)), scans := s2.scans[n := RefsFull]);
    assert s3.scans[n := DbOpen] == t.scans;
    RunAlong([s, s1, s2, s3, t], [ScanStep(n), ScanStep(n), ScanStep(n), ScanStep(n)]);
  }

  // The first scan `k` renames whatever tables it finds and writes READY.
  lemma WritesReady(s: State, k: nat, t: State)
    requires k < |s.scans| && s.scans[k] == RefsRenamed && s.dbTmp.Some?
    requires t == s.(ready := true, db := s.dbTmp, dbTmp := None, scans := s.scans[k := Finished])
    ensures Leads(s, [ScanStep(k), ScanStep(k)], t)
  {
    var s1 := s.(db := s.dbTmp, dbTmp := None, scans := s.scans[k := DbRenamed]);
    assert s1.scans[k := Finished] == t.scans;
    RunAlong([s, s1, t], [ScanStep(k), ScanStep(k)]);
  }

  lemma SecondScanIsPublished(s: State, w: nat, k: nat) returns (rest: seq<Action>, t: State)
    requires Abandoned(s, w, k) && s.scans[k] == RefsRenamed
    ensures Leads(s, rest, t) && IsReady(t)
    ensures t.refs == Some(Content(k, true)) && t.db == Some(Content(|s.scans|, false))
  {
    hide Leads;
    var n, launched := |s.scans|, Relaunched(s, w);
    AgainLaunches(s, w);
    var writing := launched.(ready := false, refsTmp := Some(Content(n, true)), dbTmp := Some(Content(n, false)),
                            scans := launched.scans[n := DbOpen]);
    OpensTables(launched, n, writing);
    LeadsOn(s, Again(w), launched, [ScanStep(n), ScanStep(n), ScanStep(n), ScanStep(n)], writing);
    t := writing.(ready := true, db := writing.dbTmp, dbTmp := None, scans := writing.scans[k := Finished]);
    WritesReady(writing, k, t);
    rest := Again(w) + [ScanStep(n), ScanStep(n), ScanStep(n), ScanStep(n)];
    LeadsOn(s, rest, writing, [ScanStep(k), ScanStep(k)], t);
    rest := rest + [ScanStep(k), ScanStep(k)];
  }

  lemma AbandonedReachesMixedIndex(s: State, w: nat, k: nat) returns (rest: seq<Action>, t: State)
    requires Abandoned(s, w, k) && s.scans[k] != DbRenamed
    ensures Leads(s, rest, t) && !Sound(t)
  {
    hide Abandoned, Leads;
    var early, renamed := ReachesRefsRenamed(s, w, k);
    rest, t := SecondScanIsPublished(renamed, w, k);
    LeadsOn(s, early, renamed, rest, t);
    rest := early + rest;
  }

  // An abandoned scan that has both files in place can only write READY.
  lemma AbandonedAtTheEndIsSpare(s: State, a: Action)
    requires Inv(s) && Do(s, a).Some? && Orphans(s, a) && s.scans[s.workers[a.w].scan] == DbRenamed
    ensures FileInv(Do(s, a).value, s.workers[a.w].scan)
  {
    var k := s.workers[a.w].scan;
    assert FileInv(s, k);
    MoveKeepsFiles(s, k, a.w, Releasing);
  }

  /**
   Whatever follows under supervision keeps READY beside the complete files of one scan, if and
   only if the action does not abandon a running scan or that scan has only READY to write.
   */
  lemma SoundIffSupervised(s: State, a: Action)
    requires Inv(s) && Do(s, a).Some?
    ensures KeepsSound(Do(s, a).value) <==> (Orphans(s, a) ==> s.scans[s.workers[a.w].scan] == DbRenamed)
  {
    hide Do, Abandoned, FileInv;
    var s' := Do(s, a).value;
    if Orphans(s, a) && s.scans[s.workers[a.w].scan] != DbRenamed {
      OrphanIsAbandoned(s, a);
      var rest, t := AbandonedReachesMixedIndex(s', a.w, s.workers[a.w].scan);
      ReportingIsSupervised(s', rest);
      assert Supervised(s', rest) && Run(s', rest) == Some(t);
    } else {
      var spare: int := NONE;
      if Orphans(s, a) {
        spare := s.workers[a.w].scan;
        AbandonedAtTheEndIsSpare(s, a);
      } else {
        StepKeepsInv(s, a);
      }
      forall rest | Supervised(s', rest) && Run(s', rest).Some?
        ensures Sound(Run(s', rest).value)
      {
        RunKeepsFiles(s', spare, rest);
        FilesAreSound(Run(s', rest).value, spare);
      }
    }
  }

  lemma FilesAreSound(s: State, spare: int)
    requires FileInv(s, spare)
    ensures Sound(s)
  {
  }

  // ------------------------------------------------------------ from the initial state

  // A worker takes the lock and starts a scan.
  const LOCK := [Does(0, CheckReady), Does(0, CheckLock), Does(0, CreateLock), Does(0, Launch)]

  function Scanning(): State {
    State(false, None, None, None, None, true, [Watching(0)], [Started])
  }

  lemma FirstScanStarts()
    ensures Run(Initial(1), LOCK) == Some(Scanning()) && Inv(Initial(1)) && Inv(Scanning())
  {
    hide Advance, FileInv, ReadyInv, Run;
    var s0 := Initial(1);
    var s1 := Do(s0, LOCK[0]).value;
    var s2 := Do(s1, LOCK[1]).value;
    var s3 := Do(s2, LOCK[2]).value;
    var s4 := Do(s3, LOCK[3]).value;
    assert s4.workers == [Watching(0)] && s4.scans == [Started];
    RunAlong([s0, s1, s2, s3, s4], LOCK);
    ScanningIsValid();
  }

  lemma ScanningIsValid()
    ensures Inv(Initial(1)) && Inv(Scanning())
  {
    assert Watched(Scanning().workers[0]) == Some(0);
  }

  /** One worker, one failed status write: READY comes to stand beside the files of two scans. */
  lemma FailedWriteCanPublishMixedIndex() returns (run: seq<Action>, t: State)
    ensures Run(Initial(1), run) == Some(t) && IsReady(t) && t.refs != t.db
  {
    hide Inv, Abandoned, Initial, ReadyInv, FileInv, Advance;
    FirstScanStarts();
    var a := Does(0, StatusFails);
    var s := Move(Scanning(), 0, Releasing);
    assert Scanning().workers[0] == Watching(0) && Scanning().scans[0] == Started;
    assert Do(Scanning(), a) == Some(s) && Orphans(Scanning(), a);
    OrphanIsAbandoned(Scanning(), a);
    var early, renamed := ReachesRefsRenamed(s, 0, 0);
    var rest;
    rest, t := SecondScanIsPublished(renamed, 0, 0);
    LeadsOn(s, early, renamed, rest, t);
    assert Run(Scanning(), [a] + (early + rest)) == Some(t) by {
      assert ([a] + (early + rest))[1..] == early + rest;
    }
    RunAppend(Initial(1), LOCK, [a] + (early + rest));
    run := LOCK + ([a] + (early + rest));
  }

  // ------------------------------------------------------------ the lock is given back

  // The lock stands exactly while one worker has it.
  ghost predicate LockIsHeld(s: State) {
    && (s.lock <==> exists w :: 0 <= w < |s.workers| && Holds(s.workers[w]))
    && forall v, w | 0 <= v < w < |s.workers| :: !(Holds(s.workers[v]) && Holds(s.workers[w]))
  }

  lemma StepKeepsLockHeld(s: State, a: Action)
    requires LockIsHeld(s) && Do(s, a).Some?
    ensures LockIsHeld(Do(s, a).value)
  {
    hide Advance;
    if a.Does? {
      WorkerKeepsLockHeld(s, a.w, a.step);
    } else if a.ScanStep? {
      FilesOnly(s, a.k);
    }
  }

  lemma FilesOnly(s: State, k: nat)
    requires k < |s.scans| && Advance(s, k).Some?
    ensures Advance(s, k).value.lock == s.lock && Advance(s, k).value.workers == s.workers
  {
  }

  lemma WorkerKeepsLockHeld(s: State, w: nat, step: Step)
    requires LockIsHeld(s) && w < |s.workers| && WorkerStep(s, w, step).Some?
    ensures LockIsHeld(WorkerStep(s, w, step).value)
  {
    hide IsReady;
    var s' := WorkerStep(s, w, step).value;
    OneWorkerMoves(s, s', w);
  }

  // If one worker moves and the lock follows it, the lock stays with its holder.
  lemma OneWorkerMoves(s: State, s': State, w: nat)
    requires LockIsHeld(s) && w < |s.workers| == |s'.workers| && s'.workers == s.workers[w := s'.workers[w]]
    requires if Holds(s'.workers[w]) then s'.lock && (s.lock ==> Holds(s.workers[w]))
             else if Holds(s.workers[w]) then !s'.lock else s'.lock == s.lock
    ensures LockIsHeld(s')
  {
    hide Holds;
    assert forall v | 0 <= v < |s.workers| && v != w :: s'.workers[v] == s.workers[v];
  }

  /** Over every run, supervised or not: a lock never outlives the worker that created it. */
  lemma LockNeverOutlivesHolder(workers: nat, actions: seq<Action>)
    requires Run(Initial(workers), actions).Some?
    ensures LockIsHeld(Run(Initial(workers), actions).value)
  {
    RunKeepsLockHeld(Initial(workers), actions);
  }

  lemma {:induction false} RunKeepsLockHeld(s: State, actions: seq<Action>)
    requires LockIsHeld(s) && Run(s, actions).Some?
    ensures LockIsHeld(Run(s, actions).value)
    decreases |actions|
  {
    hide LockIsHeld, Do;
    if |actions| > 0 {
      StepKeepsLockHeld(s, actions[0]);
      RunKeepsLockHeld(Do(s, actions[0]).value, actions[1..]);
    }
  }

  // What ends the watch over a scan: it exited, it ran too long, or its status cannot be written.
  function Endings(s: State, w: nat): seq<Step>
    requires w < |s.workers|
  {
    match s.workers[w]
    case Locked => [LaunchFails]
    case Watching(k) => [TimeOut, StatusFails] + (if k < |s.scans| && !Live(s.scans[k]) then [SeeExit] else [])
    case _ => []
  }

  /**
   However its work ends, a worker that created the lock removes it in its next step, and can
   take the next request.
   */
  lemma LockIsGivenBack(s: State, w: nat, step: Step)
    requires Inv(s) && w < |s.workers| && step in Endings(s, w)
    ensures var t := Run(s, [Does(w, step), Does(w, ReleaseLock)]);
            t.Some? && !t.value.lock && t.value.workers == s.workers[w := Done]
  {
    hide Inv, Advance, Run;
    if s.workers[w].Watching? {
      Watches(s, w);
    }
    var s1 := Do(s, Does(w, step)).value;
    var s2 := Do(s1, Does(w, ReleaseLock)).value;
    RunAlong([s, s1, s2], [Does(w, step), Does(w, ReleaseLock)]);
    assert s2.workers == s.workers[w := Done];
  }

  lemma Watches(s: State, w: nat)
    requires Inv(s) && w < |s.workers| && s.workers[w].Watching?
    ensures s.workers[w].scan < |s.scans|
  {
    hide ReadyInv;
    WatchedExists(s, NONE, w);
  }

  /** With the lock gone and no index ready, the next request starts a scan. */
  lemma NextRequestBuilds(s: State, w: nat)
    requires w < |s.workers| && s.workers[w] == Done && !s.lock && !(s.ready && s.refs.Some? && s.db.Some?)
    ensures var t := Run(s, Request(w));
            && t.Some? && t.value.lock && t.value.scans == s.scans + [Started]
            && t.value.workers == s.workers[w := Watching(|s.scans|)]
  {
    hide Advance, Run;
    var s1 := Move(s, w, Idle);
    var s2 := Move(s1, w, NotReady);
    var s3 := Move(s2, w, SawNoLock);
    var s4 := Move(s3, w, Locked).(lock := true);
    var s5 := Move(s4, w, Watching(|s.scans|)).(scans := s.scans + [Started]);
    RunAlong([s, s1, s2, s3, s4, s5], Request(w));
    assert s5.workers == s.workers[w := Watching(|s.scans|)];
  }

  /** When an index is ready, or another worker has the lock, a request changes nothing. */
  lemma RequestLeavesAlone(s: State, w: nat)
    requires w < |s.workers| && s.workers[w] == Idle
    ensures s.ready && s.refs.Some? && s.db.Some? ==> Run(s, [Does(w, CheckReady)]) == Some(Move(s, w, Done))
    ensures !(s.ready && s.refs.Some? && s.db.Some?) && s.lock ==>
              Run(s, [Does(w, CheckReady), Does(w, CheckLock)]) == Some(Move(s, w, Done))
  {
    hide Advance, Run;
    RunOne(s, Does(w, CheckReady));
    if !IsReady(s) && s.lock {
      var s1 := Move(s, w, NotReady);
      RunAlong([s, s1, Move(s1, w, Done)], [Does(w, CheckReady), Does(w, CheckLock)]);
      assert Move(s1, w, Done) == Move(s, w, Done);
    }
  }

  lemma RunOne(s: State, a: Action)
    ensures Run(s, [a]) == Do(s, a)
  {
    assert [a][1..] == [];
  }

  // ------------------------------------------------------------ a scan that nothing disturbs

  /** From any state in which a scan is about to start, it can run to its end and publish its own output. */
  lemma ScanPublishes(s: State, k: nat) returns (run: seq<Action>, t: State)
    requires Inv(s) && k < |s.scans| && Live(s.scans[k])
    ensures Leads(s, run, t) && |t.scans| == |s.scans| && t.scans[k] == Finished && t.ready
    ensures t.refs == t.db == Some(Content(k, true))
    ensures t.lock == s.lock && t.workers == s.workers
    decreases Remaining(s.scans[k])
  {
    hide LockInv, ScanInv;
    assert StageInv(s, k, s.scans[k]);
    var next := Advance(s, k).value;
    assert Do(s, ScanStep(k)) == Some(next);
    RunOne(s, ScanStep(k));
    if s.scans[k] == DbRenamed {
      run, t := [ScanStep(k)], next;
    } else {
      ScanKeepsFiles(s, NONE, k);
      ScanKeepsReady(s, k);
      var rest: seq<Action>;
      rest, t := ScanPublishes(next, k);
      LeadsOn(s, [ScanStep(k)], next, rest, t);
      run := [ScanStep(k)] + rest;
    }
  }
}
