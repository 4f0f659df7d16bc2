/** The project lock of a foreground `up`. */
module ProjectLock {
  // Any number of podup processes on one project, each running its command one
  // engine call at a time. `flock` gives the lock to one process and blocks the
  // others; the kernel takes it back when the guard is dropped, when the process
  // returns and when it dies. Engine calls are steps that may change containers,
  // only read, or fail. A standalone `watch` changes containers and takes no lock;
  // what the lock is for holds exactly of the commands that do not meet one.

  import opened Prelude

  // ----- the project -----

  /** `oneOff` marks the container of a `run`, which no `up` owns. */
  datatype Container = Container(id: nat, service: string, oneOff: bool, running: bool)

  /** Containers by name. Ids are never reused, names are. */
  datatype Project = Project(containers: map<string, Container>, nextId: nat)

  ghost predicate ValidProject(p: Project) {
    && (forall n :: n in p.containers ==> p.containers[n].id < p.nextId)
    && (forall m, n :: m in p.containers && n in p.containers && p.containers[m].id == p.containers[n].id ==> m == n)
  }

  datatype Change =
    | Create(name: string, service: string, oneOff: bool)
    | Remove(name: string)
    | SetRunning(name: string, running: bool)

  function Apply(p: Project, c: Change): Project {
    match c
    case Create(name, service, oneOff) =>
      if name in p.containers then p
      else Project(p.containers[name := Container(p.nextId, service, oneOff, true)], p.nextId + 1)
    case Remove(name) => p.(containers := p.containers - {name})
    case SetRunning(name, running) =>
      if name in p.containers then p.(containers := p.containers[name := p.containers[name].(running := running)]) else p
  }

  /** Stopping by id: a container that is gone, or whose name now belongs to
      another container, is left alone. */
  function StopId(p: Project, id: nat): Project {
    p.(containers := map n | n in p.containers ::
         if p.containers[n].id == id then p.containers[n].(running := false) else p.containers[n])
  }

  /** One replica of a snapshot. */
  datatype Seen = Seen(name: string, id: nat, service: string)

  /** `snapshot_containers`: every replica, one-off containers left out. */
  function Snapshot(p: Project): set<Seen> {
    set n | n in p.containers && !p.containers[n].oneOff :: Seen(n, p.containers[n].id, p.containers[n].service)
  }

  /** What `stop_snapshot` acts on: the replicas of the snapshot whose name still
      stands for the same container, of the services in scope. */
  function StillThere(snap: set<Seen>, p: Project, scope: set<string>): set<nat> {
    set e | e in snap && e.service in scope && e.name in p.containers && p.containers[e.name].id == e.id :: e.id
  }

  // ----- the processes -----

  datatype UpFlags = UpFlags(detach: bool, wait: bool, watch: bool, noStart: bool,
                             abortOnExit: bool, exitCodeFrom: Option<string>, scope: set<string>)

  /** `Mutating` is any other command of `is_mutating`. `Watch` is the standalone
      `watch`, which is not one of them; an `autostart` command that has systemd start,
      stop or restart the containers is another of this kind. */
  datatype Command = Up(flags: UpFlags) | Mutating | Watch | ReadOnly

  datatype Outcome = StreamsEnded | Interrupted | StreamBroke

  datatype ExitResult = Success | ServiceNotFound | EngineError | RunExited(code: int) | WasInterrupted | StreamTruncated | Killed

  datatype Pc =
    | Waiting
    | Checking
    | Changing
    | Health
    | Watching
    | Snapshotting
    | Releasing(snap: set<Seen>)
    | Attached(snap: set<Seen>)
    | Aborting(snap: set<Seen>)
    | Relocking(snap: set<Seen>, outcome: Outcome)
    | Listing(snap: set<Seen>, outcome: Outcome)
    | Stopping(snap: set<Seen>, targets: set<nat>, left: set<nat>, outcome: Outcome)
    | Reading
    | Exited(result: ExitResult)

  /** `guard` is the `Option<ProjectLock>` the process carries. */
  datatype Process = Process(command: Command, pc: Pc, guard: bool)

  /** `holder` is who the kernel says has the `flock`. */
  datatype State = State(project: Project, holder: Option<nat>, procs: seq<Process>)

  /** The attach itself may stop the project: `--abort-on-container-exit`, or
      `--exit-code-from`, which implies it. */
  predicate MayStopInside(f: UpFlags) {
    f.abortOnExit || f.exitCodeFrom.Some?
  }

  /** `--exit-code-from` names a service of the command's scope. */
  predicate NamesAService(f: UpFlags) {
    f.exitCodeFrom.Some? ==> f.exitCodeFrom.value in f.scope
  }

  /** The `up` follows logs and stops what it captured. */
  predicate Attaches(f: UpFlags) {
    NamesAService(f) && !f.noStart && !f.wait && !f.watch && !f.detach
  }

  /** Whether a command may come to change containers. */
  predicate CanChange(c: Command) {
    match c
    case Up(f) => NamesAService(f)
    case Mutating => true
    case Watch => true
    case ReadOnly => false
  }

  datatype Action =
    | Go
    | Modify(change: Change)
    | StopOne(id: nat)
    | AttachEnds(outcome: Outcome)
    | AttachAborted(code: int)
    | Fail
    | Kill

  /** A step of a process, or a container ending on its own. */
  datatype Event = Act(who: nat, action: Action) | ContainerExits(name: string)

  // ----- one step -----

  function At(s: State, i: nat, pc: Pc): State
    requires i < |s.procs|
  {
    s.(procs := s.procs[i := s.procs[i].(pc := pc)])
  }

  /** The process returns or dies; its guard goes with it. */
  function Exit(s: State, i: nat, result: ExitResult): State
    requires i < |s.procs|
  {
    s.(holder := if s.holder == Some(i) then None else s.holder,
       procs := s.procs[i := s.procs[i].(pc := Exited(result), guard := false)])
  }

  function TakeLock(s: State, i: nat, pc: Pc): State
    requires i < |s.procs|
  {
    s.(holder := Some(i), procs := s.procs[i := s.procs[i].(pc := pc, guard := true)])
  }

  function DropLock(s: State, i: nat, pc: Pc): State
    requires i < |s.procs|
  {
    s.(holder := if s.holder == Some(i) then None else s.holder,
       procs := s.procs[i := s.procs[i].(pc := pc, guard := false)])
  }

  function AfterWait(s: State, i: nat, f: UpFlags): State
    requires i < |s.procs|
  {
    if f.watch then At(s, i, Watching)
    else if !f.detach && !f.wait then At(s, i, Snapshotting)
    else Exit(s, i, Success)
  }

  function Report(outcome: Outcome): ExitResult {
    match outcome
    case StreamsEnded => Success
    case Interrupted => WasInterrupted
    case StreamBroke => StreamTruncated
  }

  /** The next call of the command, when it succeeds. */
  function Advance(s: State, i: nat): State
    requires i < |s.procs|
  {
    var p := s.procs[i];
    match p.pc
    case Waiting =>
      if p.command.ReadOnly? then At(s, i, Reading)
      else if p.command.Watch? then At(s, i, Watching)
      else if s.holder != None then s
      else TakeLock(s, i, if p.command.Up? then Checking else Changing)
    case Reading => Exit(s, i, Success)
    case Changing =>
      if p.command.Up? then
        if p.command.flags.noStart then Exit(s, i, Success)
        else if p.command.flags.wait then At(s, i, Health)
        else AfterWait(s, i, p.command.flags)
      else Exit(s, i, Success)
    case Watching => Exit(s, i, Success)
    case Exited(_) => s
    case _ => if p.command.Up? then AdvanceUp(s, i, p.command.flags) else s
  }

  function AdvanceUp(s: State, i: nat, f: UpFlags): State
    requires i < |s.procs|
  {
    match s.procs[i].pc
    case Checking =>
      if NamesAService(f) then At(s, i, Changing) else Exit(s, i, ServiceNotFound)
    case Health => AfterWait(s, i, f)
    case Snapshotting => At(s, i, Releasing(Snapshot(s.project)))
    case Releasing(snap) => if MayStopInside(f) then At(s, i, Attached(snap)) else DropLock(s, i, Attached(snap))
    case Attached(snap) => if MayStopInside(f) then At(s, i, Aborting(snap)) else s
    case Relocking(snap, o) =>
      if s.procs[i].guard then At(s, i, Listing(snap, o))
      else if s.holder != None then s
      else TakeLock(s, i, Listing(snap, o))
    case Listing(snap, o) =>
      var targets := StillThere(snap, s.project, f.scope);
      At(s, i, Stopping(snap, targets, targets, o))
    case Stopping(_, _, left, o) => if left == {} then Exit(s, i, Report(o)) else s
    case _ => s
  }

  /** An engine call that changes containers, where the command makes one. The
      abort inside an attach only stops containers of its scope. */
  function ChangeProject(s: State, i: nat, c: Change): State
    requires i < |s.procs|
  {
    var p := s.procs[i];
    if p.pc.Changing? || p.pc.Watching? then s.(project := Apply(s.project, c))
    else if p.pc.Aborting? && p.command.Up? && c.SetRunning? && !c.running && c.name in s.project.containers
            && s.project.containers[c.name].service in p.command.flags.scope
    then s.(project := Apply(s.project, c))
    else s
  }

  function Do(s: State, i: nat, a: Action): State
    requires i < |s.procs|
  {
    var p := s.procs[i];
    if p.pc.Exited? then s
    else
      match a
      case Go => Advance(s, i)
      case Modify(c) => ChangeProject(s, i, c)
      case StopOne(id) =>
        if p.pc.Stopping? && id in p.pc.left
        then At(s.(project := StopId(s.project, id)), i, p.pc.(left := p.pc.left - {id}))
        else s
      case AttachEnds(o) => if p.pc.Attached? then At(s, i, Relocking(p.pc.snap, o)) else s
      case AttachAborted(code) => if p.pc.Aborting? then Exit(s, i, if code == 0 then Success else RunExited(code)) else s
      case Fail => Exit(s, i, EngineError)
      case Kill => Exit(s, i, Killed)
  }

  function Step(s: State, e: Event): State {
    match e
    case Act(i, a) => if i < |s.procs| then Do(s, i, a) else s
    case ContainerExits(n) => s.(project := Apply(s.project, SetRunning(n, false)))
  }

  function Run(s: State, events: seq<Event>): State
    decreases |events|
  {
    if events == [] then s else Step(Run(s, events[..|events| - 1]), events[|events| - 1])
  }

  // ----- the invariant -----

  /** The phases in which a command changes containers. */
  predicate Mutates(pc: Pc) {
    pc.Changing? || pc.Watching? || pc.Aborting? || pc.Stopping?
  }

  predicate OnlyFollowsLogs(pc: Pc) {
    pc.Attached? || pc.Relocking?
  }

  /** Who should be holding a guard, phase by phase. */
  predicate ShouldHold(p: Process) {
    match p.pc
    case Waiting => false
    case Reading => false
    case Exited(_) => false
    case Attached(_) => p.command.Up? && MayStopInside(p.command.flags)
    case Relocking(_, _) => p.command.Up? && MayStopInside(p.command.flags)
    case Watching => p.command.Up?
    case _ => true
  }

  function SnapOf(pc: Pc): Option<set<Seen>> {
    match pc
    case Releasing(snap) => Some(snap)
    case Attached(snap) => Some(snap)
    case Aborting(snap) => Some(snap)
    case Relocking(snap, _) => Some(snap)
    case Listing(snap, _) => Some(snap)
    case Stopping(snap, _, _, _) => Some(snap)
    case _ => None
  }

  /** A captured id still means the replica it was captured from, or nothing. */
  ghost predicate SnapInv(snap: set<Seen>, p: Project) {
    && (forall e :: e in snap ==> e.id < p.nextId)
    && (forall e, n :: e in snap && n in p.containers && p.containers[n].id == e.id
          ==> p.containers[n].service == e.service && !p.containers[n].oneOff)
  }

  /** The phases a command goes through. */
  predicate Reaches(c: Command, pc: Pc) {
    match pc
    case Waiting => true
    case Exited(_) => true
    case Reading => c.ReadOnly?
    case Checking => c.Up?
    case Changing => (c.Up? || c.Mutating?) && CanChange(c)
    case Health => c.Up? && CanChange(c) && !c.flags.noStart && c.flags.wait
    case Watching => c.Watch? || (c.Up? && CanChange(c) && !c.flags.noStart && c.flags.watch)
    case Aborting(_) => c.Up? && Attaches(c.flags) && MayStopInside(c.flags)
    case _ => c.Up? && Attaches(c.flags)
  }

  /** The ids of the snapshot whose service is in scope. */
  function InScope(snap: set<Seen>, scope: set<string>): set<nat> {
    set e | e in snap && e.service in scope :: e.id
  }

  ghost predicate ProcessInv(p: Process, project: Project) {
    && p.guard == ShouldHold(p)
    && Reaches(p.command, p.pc)
    && (SnapOf(p.pc).Some? ==> SnapInv(SnapOf(p.pc).value, project))
    && (p.pc.Stopping? ==>
          && p.pc.left <= p.pc.targets <= InScope(p.pc.snap, p.command.flags.scope)
          && StillThere(p.pc.snap, project, p.command.flags.scope) <= p.pc.targets)
  }

  ghost predicate Inv(s: State) {
    && ValidProject(s.project)
    && (forall i: nat :: i < |s.procs| ==> ProcessInv(s.procs[i], s.project))
    && (forall i: nat :: i < |s.procs| && s.procs[i].guard ==> s.holder == Some(i))
    && (s.holder.Some? ==> s.holder.value < |s.procs| && s.procs[s.holder.value].guard)
  }

  ghost predicate Initial(s: State) {
    && ValidProject(s.project)
    && s.holder == None
    && forall i: nat :: i < |s.procs| ==> s.procs[i].pc == Waiting && !s.procs[i].guard
  }

  lemma ApplyKeepsValid(p: Project, c: Change)
    requires ValidProject(p)
    ensures ValidProject(Apply(p, c))
  {}

  /** Which container a name stands for, whether or not it runs. */
  ghost predicate SameNames(p: Project, q: Project) {
    && p.containers.Keys == q.containers.Keys
    && forall n :: n in p.containers ==> p.containers[n].id == q.containers[n].id
  }

  /** Ids are not reused, so no change brings a captured container back. */
  lemma ApplyKeepsStillThere(p: Project, c: Change, snap: set<Seen>, scope: set<string>)
    requires SnapInv(snap, p)
    ensures StillThere(snap, Apply(p, c), scope) <= StillThere(snap, p, scope)
  {}

  lemma StopKeepsStillThere(p: Project, q: Project, snap: set<Seen>, scope: set<string>)
    requires SameNames(p, q)
    ensures StillThere(snap, p, scope) == StillThere(snap, q, scope)
  {}

  /** A step of one process leaves the others as they are, and changes the
      project only while that process mutates. */
  lemma {:induction false} StepIsLocal(s: State, i: nat, a: Action)
    requires Inv(s) && i < |s.procs|
    ensures var s' := Do(s, i, a);
            && |s'.procs| == |s.procs| && s'.procs[i].command == s.procs[i].command
            && (forall j: nat :: j < |s.procs| && j != i ==> s'.procs[j] == s.procs[j])
            && (s'.project != s.project ==> Mutates(s.procs[i].pc))
            && ValidProject(s'.project)
  {
    if a.Modify? {
      ApplyKeepsValid(s.project, a.change);
    }
  }

  lemma SnapshotIsSound(p: Project)
    requires ValidProject(p)
    ensures SnapInv(Snapshot(p), p)
  {}

  lemma ApplyKeepsSnap(snap: set<Seen>, p: Project, c: Change)
    requires SnapInv(snap, p)
    ensures SnapInv(snap, Apply(p, c))
  {}

  lemma StopKeepsSnap(snap: set<Seen>, p: Project, id: nat)
    requires SnapInv(snap, p)
    ensures SnapInv(snap, StopId(p, id))
  {}

  /** No step makes a captured id mean another container. */
  lemma StepKeepsSnap(s: State, i: nat, a: Action, snap: set<Seen>)
    requires i < |s.procs| && SnapInv(snap, s.project)
    ensures SnapInv(snap, Do(s, i, a).project)
  {
    hide SnapInv, Apply, StopId;
    match a
    case Modify(c) => ApplyKeepsSnap(snap, s.project, c);
    case StopOne(id) => StopKeepsSnap(snap, s.project, id);
    case _ =>
  }

  lemma StepKeepsStillThere(s: State, i: nat, a: Action, snap: set<Seen>, scope: set<string>)
    requires i < |s.procs| && SnapInv(snap, s.project)
    ensures StillThere(snap, Do(s, i, a).project, scope) <= StillThere(snap, s.project, scope)
  {
    hide SnapInv, Apply, StillThere;
    match a
    case Modify(c) => ApplyKeepsStillThere(s.project, c, snap, scope);
    case StopOne(id) => StopKeepsStillThere(s.project, StopId(s.project, id), snap, scope);
    case _ =>
  }

  lemma {:induction false} StepKeepsHolder(s: State, i: nat, a: Action)
    requires Inv(s) && i < |s.procs|
    ensures var s' := Do(s, i, a);
            && (forall j: nat :: j < |s'.procs| && s'.procs[j].guard ==> s'.holder == Some(j))
            && (s'.holder.Some? ==> s'.holder.value < |s'.procs| && s'.procs[s'.holder.value].guard)
  {
    assert ProcessInv(s.procs[i], s.project);
  }

  lemma AdvanceUpKeepsOwnInv(s: State, i: nat)
    requires Inv(s) && i < |s.procs| && s.procs[i].command.Up? && !s.procs[i].pc.Exited?
    ensures var s' := AdvanceUp(s, i, s.procs[i].command.flags); ProcessInv(s'.procs[i], s'.project)
  {
    hide SnapInv, ValidProject, Snapshot;
    assert ProcessInv(s.procs[i], s.project);
    SnapshotIsSound(s.project);
    if s.procs[i].pc.Listing? {
      var targets := StillThere(s.procs[i].pc.snap, s.project, s.procs[i].command.flags.scope);
      assert targets - targets == {};
    }
  }

  lemma {:induction false} StepKeepsOwnInv(s: State, i: nat, a: Action)
    requires Inv(s) && i < |s.procs|
    ensures var s' := Do(s, i, a); ProcessInv(s'.procs[i], s'.project)
  {
    hide SnapInv, ValidProject, AdvanceUp;
    assert ProcessInv(s.procs[i], s.project);
    var p := s.procs[i];
    if SnapOf(p.pc).Some? {
      StepKeepsSnap(s, i, a, SnapOf(p.pc).value);
    }
    if a.Go? && p.command.Up? && !p.pc.Exited? {
      AdvanceUpKeepsOwnInv(s, i);
    } else if a.StopOne? && p.pc.Stopping? {
      StopKeepsStillThere(s.project, StopId(s.project, a.id), p.pc.snap, p.command.flags.scope);
    }
  }

  lemma StepKeepsOthersInv(s: State, i: nat, a: Action, j: nat)
    requires Inv(s) && i < |s.procs| && j < |s.procs| && i != j
    ensures var s' := Do(s, i, a); j < |s'.procs| && ProcessInv(s'.procs[j], s'.project)
  {
    hide SnapInv, ValidProject, Do, StillThere;
    var p := s.procs[j];
    assert ProcessInv(p, s.project);
    StepIsLocal(s, i, a);
    if SnapOf(p.pc).Some? {
      StepKeepsSnap(s, i, a, SnapOf(p.pc).value);
    }
    if p.pc.Stopping? {
      StepKeepsStillThere(s, i, a, p.pc.snap, p.command.flags.scope);
    }
  }

  lemma ExitKeepsProcess(p: Process, project: Project, n: string)
    requires ProcessInv(p, project)
    ensures ProcessInv(p, Apply(project, SetRunning(n, false)))
  {
    hide SnapInv, StillThere;
    if SnapOf(p.pc).Some? {
      ApplyKeepsSnap(SnapOf(p.pc).value, project, SetRunning(n, false));
      if p.pc.Stopping? {
        ApplyKeepsStillThere(project, SetRunning(n, false), p.pc.snap, p.command.flags.scope);
      }
    }
  }

  lemma {:induction false} StepKeepsInv(s: State, e: Event)
    requires Inv(s)
    ensures Inv(Step(s, e))
  {
    hide ProcessInv, ValidProject, Do, Apply;
    match e
    case Act(i, a) =>
      if i < |s.procs| {
        var s' := Do(s, i, a);
        StepIsLocal(s, i, a);
        StepKeepsHolder(s, i, a);
        forall j: nat | j < |s'.procs| ensures ProcessInv(s'.procs[j], s'.project) {
          if j == i {
            StepKeepsOwnInv(s, i, a);
          } else {
            StepKeepsOthersInv(s, i, a, j);
          }
        }
      }
    case ContainerExits(n) =>
      ApplyKeepsValid(s.project, SetRunning(n, false));
      forall j: nat | j < |s.procs| ensures ProcessInv(s.procs[j], Step(s, e).project) {
        ExitKeepsProcess(s.procs[j], s.project, n);
      }
  }

  lemma {:induction false} RunKeepsInv(s: State, events: seq<Event>)
    requires Initial(s)
    ensures Inv(Run(s, events))
    decreases |events|
  {
    if events != [] {
      RunKeepsInv(s, events[..|events| - 1]);
      StepKeepsInv(Run(s, events[..|events| - 1]), events[|events| - 1]);
    }
  }

  lemma StepKeepsCommands(s: State, e: Event)
    ensures |Step(s, e).procs| == |s.procs|
    ensures forall i: nat :: i < |s.procs| ==> Step(s, e).procs[i].command == s.procs[i].command
  {}

  lemma {:induction false} RunKeepsCommands(s: State, events: seq<Event>)
    ensures |Run(s, events).procs| == |s.procs|
    ensures forall i: nat :: i < |s.procs| ==> Run(s, events).procs[i].command == s.procs[i].command
    decreases |events|
  {
    if events != [] {
      RunKeepsCommands(s, events[..|events| - 1]);
      StepKeepsCommands(Run(s, events[..|events| - 1]), events[|events| - 1]);
    }
  }

  // ----- what every run guarantees -----

  /** Every process that changes containers has the lock, a standalone `watch` aside. */
  lemma MutatorsHoldTheLock(s: State, i: nat)
    requires Inv(s) && i < |s.procs| && Mutates(s.procs[i].pc)
    ensures s.procs[i].command.Watch? || (s.procs[i].guard && s.holder == Some(i))
    ensures CanChange(s.procs[i].command)
  {
    assert ProcessInv(s.procs[i], s.project);
  }

  /** No standalone `watch` beside another command that may change containers. */
  ghost predicate WatchIsAlone(s: State) {
    forall w: nat, j: nat :: w < |s.procs| && j < |s.procs| && w != j && s.procs[w].command.Watch? ==> !CanChange(s.procs[j].command)
  }

  ghost predicate NoWatch(s: State) {
    forall w: nat :: w < |s.procs| ==> !s.procs[w].command.Watch?
  }

  ghost predicate OneMutates(s: State) {
    forall i: nat, j: nat :: i < |s.procs| && j < |s.procs| && Mutates(s.procs[i].pc) && Mutates(s.procs[j].pc) ==> i == j
  }

  /** At most one process is in a phase that changes containers, in every run, exactly
      when the commands do not put a standalone `watch` beside another one that may
      change them. */
  lemma {:induction false} OneMutatorAtATime(s: State)
    requires Initial(s)
    ensures (forall events :: OneMutates(Run(s, events))) <==> WatchIsAlone(s)
  {
    if WatchIsAlone(s) {
      forall events ensures OneMutates(Run(s, events)) {
        OnlyOneMutates(s, events);
      }
    } else {
      var w: nat, j: nat :| w < |s.procs| && j < |s.procs| && w != j && s.procs[w].command.Watch? && CanChange(s.procs[j].command);
      var events := WatchBesideAnother(s, w, j);
    }
  }

  lemma OnlyOneMutates(s: State, events: seq<Event>)
    requires Initial(s) && WatchIsAlone(s)
    ensures OneMutates(Run(s, events))
  {
    hide Inv, Run, CanChange;
    var now := Run(s, events);
    RunKeepsInv(s, events);
    RunKeepsCommands(s, events);
    forall i: nat, j: nat | i < |now.procs| && j < |now.procs| && Mutates(now.procs[i].pc) && Mutates(now.procs[j].pc) ensures i == j {
      MutatorsHoldTheLock(now, i);
      MutatorsHoldTheLock(now, j);
    }
  }

  /** One more event of a run. */
  lemma Then(s: State, events: seq<Event>, e: Event) returns (more: seq<Event>)
    ensures more == events + [e] && Run(s, more) == Step(Run(s, events), e)
  {
    more := events + [e];
    assert more[..|more| - 1] == events;
  }

  /** The run that puts both in a mutating phase. */
  lemma WatchBesideAnother(s: State, w: nat, j: nat) returns (events: seq<Event>)
    requires Initial(s) && w < |s.procs| && j < |s.procs| && w != j
    requires s.procs[w].command.Watch? && CanChange(s.procs[j].command)
    ensures |Run(s, events).procs| == |s.procs|
    ensures Mutates(Run(s, events).procs[w].pc) && Mutates(Run(s, events).procs[j].pc)
  {
    hide Run, Do, Initial, CanChange;
    events := ToMutating(s, j);
    var now := Run(s, events);
    StartWatching(now, w);
    events := Then(s, events, Act(w, Go));
  }

  lemma ToMutating(s: State, j: nat) returns (events: seq<Event>)
    requires Initial(s) && j < |s.procs| && CanChange(s.procs[j].command)
    ensures |Run(s, events).procs| == |s.procs| && Mutates(Run(s, events).procs[j].pc)
    ensures forall i: nat :: i < |s.procs| && i != j ==> Run(s, events).procs[i] == s.procs[i] && s.procs[i].pc.Waiting?
  {
    assert Run(s, []) == s;
    hide Run, ValidProject;
    events := Then(s, [], Act(j, Go));
    if s.procs[j].command.Up? {
      events := Then(s, events, Act(j, Go));
    }
  }

  lemma StartWatching(s: State, w: nat)
    requires w < |s.procs| && s.procs[w].pc.Waiting? && s.procs[w].command.Watch?
    ensures Do(s, w, Go).procs == s.procs[w := s.procs[w].(pc := Watching)]
  {}

  /** A failing input of the description: while a `stop`, say, holds the lock, a
      standalone `watch` restarts the container it has just stopped. */
  lemma WatchChangesBehindTheLock(p: Project, n: string)
    requires ValidProject(p) && n in p.containers
    ensures var s := State(p, None, [Process(Watch, Waiting, false), Process(Mutating, Waiting, false)]);
            var stopped := Run(s, [Act(0, Go), Act(1, Go), Act(1, Modify(SetRunning(n, false)))]);
            var now := Step(stopped, Act(0, Modify(SetRunning(n, true))));
            && Initial(s) && now.holder == Some(1) && |now.procs| == 2 && Mutates(now.procs[0].pc) && Mutates(now.procs[1].pc)
            && n in stopped.project.containers && !stopped.project.containers[n].running
            && n in now.project.containers && now.project.containers[n].running
  {
    var s := State(p, None, [Process(Watch, Waiting, false), Process(Mutating, Waiting, false)]);
    assert Run(s, []) == s;
    hide Run, ValidProject;
    var events := Then(s, [], Act(0, Go));
    events := Then(s, events, Act(1, Go));
    events := Then(s, events, Act(1, Modify(SetRunning(n, false))));
    assert events == [Act(0, Go), Act(1, Go), Act(1, Modify(SetRunning(n, false)))];
  }

  /** The step of process `i` changes the project without the lock. */
  ghost predicate ChangesUnlocked(s: State, i: nat, a: Action) {
    i < |s.procs| && Step(s, Act(i, a)).project != s.project && s.holder != Some(i)
  }

  /** Every change a process makes to the project happens while it has the lock, in
      every run, exactly when there is no standalone `watch`. */
  lemma {:induction false} ChangesNeedTheLock(s: State)
    requires Initial(s)
    ensures (forall events, i: nat, a :: !ChangesUnlocked(Run(s, events), i, a)) <==> NoWatch(s)
  {
    if NoWatch(s) {
      forall events, i: nat, a ensures !ChangesUnlocked(Run(s, events), i, a) {
        OnlyAWatchChangesUnlocked(s, events, i, a);
      }
    } else {
      var w: nat :| w < |s.procs| && s.procs[w].command.Watch?;
      var events, a := WatchChanges(s, w);
    }
  }

  /** Whoever changes the project without the lock is a standalone `watch`. */
  lemma OnlyAWatchChangesUnlocked(s: State, events: seq<Event>, i: nat, a: Action)
    requires Initial(s)
    ensures ChangesUnlocked(Run(s, events), i, a) ==> i < |s.procs| && s.procs[i].command.Watch?
  {
    hide Inv, Run, Do, Initial;
    var now := Run(s, events);
    if ChangesUnlocked(now, i, a) {
      RunKeepsInv(s, events);
      RunKeepsCommands(s, events);
      StepIsLocal(now, i, a);
      MutatorsHoldTheLock(now, i);
    }
  }

  lemma WatchChanges(s: State, w: nat) returns (events: seq<Event>, a: Action)
    requires Initial(s) && w < |s.procs| && s.procs[w].command.Watch?
    ensures ChangesUnlocked(Run(s, events), w, a)
  {
    assert Run(s, []) == s;
    hide Run, ChangesUnlocked;
    events := Then(s, [], Act(w, Go));
    a := Modify(SomeChange(s.project));
    AWatchChangesUnlocked(Run(s, events), w);
  }

  /** A change that is one: the named container goes, or comes. */
  function SomeChange(p: Project): Change {
    if "" in p.containers then Remove("") else Create("", "", false)
  }

  lemma AWatchChangesUnlocked(s: State, w: nat)
    requires w < |s.procs| && s.procs[w].pc.Watching? && s.holder == None
    ensures ChangesUnlocked(s, w, Modify(SomeChange(s.project)))
  {
    var later := Step(s, Act(w, Modify(SomeChange(s.project))));
    assert "" in later.project.containers <==> "" !in s.project.containers;
  }

  /** An attached `up` that may stop the project from inside the attach, and a
      watching one, hold the lock from the first call to the last; the others
      let go of it exactly while they follow logs. */
  lemma {:induction false} WhoLetsGoOfTheLock(s: State, events: seq<Event>, i: nat)
    requires Initial(s) && i < |s.procs| && s.procs[i].command.Up?
    ensures var now := Run(s, events);
            && i < |now.procs|
            && var (p, f) := (now.procs[i], s.procs[i].command.flags);
               && (!p.pc.Waiting? && !p.pc.Exited? ==>
                     (now.holder == Some(i) <==> p.guard) && (p.guard <==> MayStopInside(f) || !OnlyFollowsLogs(p.pc)))
               && (p.pc.Waiting? || p.pc.Exited? ==> now.holder != Some(i))
  {
    hide Run, ValidProject, StillThere;
    RunKeepsInv(s, events);
    RunKeepsCommands(s, events);
    var now := Run(s, events);
    assert ProcessInv(now.procs[i], now.project);
  }

  /** The lock is never orphaned: whoever holds it is alive and inside a locked phase. */
  lemma {:induction false} LockIsNeverOrphaned(s: State, events: seq<Event>)
    requires Initial(s)
    ensures var now := Run(s, events);
            now.holder.Some? ==> now.holder.value < |now.procs| && ShouldHold(now.procs[now.holder.value])
  {
    RunKeepsInv(s, events);
    var now := Run(s, events);
    if now.holder.Some? {
      assert ProcessInv(now.procs[now.holder.value], now.project);
    }
  }

  /** Event `k` took the snapshot of process `i`, under the lock. */
  ghost predicate TookSnapshot(s: State, events: seq<Event>, k: nat, i: nat, snap: set<Seen>)
    requires k < |events|
  {
    var moment := Run(s, events[..k]);
    events[k] == Act(i, Go) && moment.holder == Some(i) && snap == Snapshot(moment.project)
  }

  lemma FreshSnapshot(s: State, e: Event, i: nat, snap: set<Seen>)
    requires Inv(s) && i < |s.procs| && i < |Step(s, e).procs|
    requires SnapOf(s.procs[i].pc) != Some(snap) && SnapOf(Step(s, e).procs[i].pc) == Some(snap)
    ensures e == Act(i, Go) && s.holder == Some(i) && snap == Snapshot(s.project)
  {
    assert ProcessInv(s.procs[i], s.project);
  }

  lemma {:induction false} SnapshotWasTakenUnderTheLock(s: State, events: seq<Event>, i: nat, snap: set<Seen>)
    requires Initial(s) && i < |s.procs|
    requires i < |Run(s, events).procs| && SnapOf(Run(s, events).procs[i].pc) == Some(snap)
    ensures exists k :: 0 <= k < |events| && TookSnapshot(s, events, k, i, snap)
    decreases |events|
  {
    var last := |events| - 1;
    var before := Run(s, events[..last]);
    RunKeepsCommands(s, events[..last]);
    if SnapOf(before.procs[i].pc) == Some(snap) {
      SnapshotWasTakenUnderTheLock(s, events[..last], i, snap);
      var k :| 0 <= k < last && TookSnapshot(s, events[..last], k, i, snap);
      assert events[..last][..k] == events[..k];
      assert TookSnapshot(s, events, k, i, snap);
    } else {
      RunKeepsInv(s, events[..last]);
      FreshSnapshot(before, events[last], i, snap);
      assert TookSnapshot(s, events, last, i, snap);
    }
  }

  /** A container the final stop touches: `name` stands for it, and it was there
      when the snapshot was taken. */
  ghost predicate WasCaptured(s: State, events: seq<Event>, i: nat, id: nat, service: string) {
    exists k, snap, n :: 0 <= k < |events| && TookSnapshot(s, events, k, i, snap) && Seen(n, id, service) in snap
  }

  /** The final stop runs under the lock, only ever turns a running container
      into a stopped one, and only a replica captured in the snapshot of this
      very process, of a service in its scope; never the container of a `run`. */
  lemma {:induction false} FinalStopTouchesOnlyItsSnapshot(s: State, events: seq<Event>, i: nat, a: Action, n: string)
    requires Initial(s) && i < |s.procs| && s.procs[i].command.Up?
    requires i < |Run(s, events).procs| && Run(s, events).procs[i].pc.Stopping?
    requires var (now, later) := (Run(s, events), Step(Run(s, events), Act(i, a)));
             n in now.project.containers && (n in later.project.containers ==> later.project.containers[n] != now.project.containers[n])
    ensures var (now, later) := (Run(s, events), Step(Run(s, events), Act(i, a)));
            && now.holder == Some(i)
            && n in later.project.containers && later.project.containers[n] == now.project.containers[n].(running := false)
            && now.project.containers[n].service in s.procs[i].command.flags.scope && !now.project.containers[n].oneOff
            && WasCaptured(s, events, i, now.project.containers[n].id, now.project.containers[n].service)
  {
    RunKeepsInv(s, events);
    RunKeepsCommands(s, events);
    var now := Run(s, events);
    var p := now.procs[i];
    assert ProcessInv(p, now.project);
    var id := now.project.containers[n].id;
    assert a == StopOne(id) && id in p.pc.left;
    var e :| e in p.pc.snap && e.id == id && e.service in p.command.flags.scope;
    SnapshotWasTakenUnderTheLock(s, events, i, p.pc.snap);
    var k :| 0 <= k < |events| && TookSnapshot(s, events, k, i, p.pc.snap);
    assert Seen(e.name, id, e.service) in p.pc.snap;
  }

  lemma StepGrowsIds(s: State, e: Event)
    ensures s.project.nextId <= Step(s, e).project.nextId
  {}

  /** Ids only grow, so a container someone created after the snapshot is not in it. */
  lemma {:induction false} NextIdGrows(s: State, events: seq<Event>, k: nat)
    requires k <= |events|
    ensures Run(s, events[..k]).project.nextId <= Run(s, events).project.nextId
    decreases |events|
  {
    hide Step;
    if k == |events| {
      assert events[..k] == events;
    } else {
      var last := |events| - 1;
      NextIdGrows(s, events[..last], k);
      assert events[..last][..k] == events[..k];
      StepGrowsIds(Run(s, events[..last]), events[last]);
    }
  }

  /** A container created while the lock was let go survives the final stop. */
  lemma {:induction false} LaterContainersAreNotCaptured(s: State, events: seq<Event>, k: nat, i: nat, snap: set<Seen>, e: Seen)
    requires Initial(s) && k < |events| && TookSnapshot(s, events, k, i, snap) && e in snap
    ensures e.id < Run(s, events[..k]).project.nextId <= Run(s, events).project.nextId
  {
    RunKeepsInv(s, events[..k]);
    NextIdGrows(s, events, k);
  }

  /** No captured container of the scope is running under its name. */
  ghost predicate AllStopped(p: Project, snap: set<Seen>, scope: set<string>) {
    forall e :: e in snap && e.service in scope && e.name in p.containers && p.containers[e.name].id == e.id
      ==> !p.containers[e.name].running
  }

  /** What the final stop has stopped so far is still stopped. */
  ghost predicate StoppedSoFar(p: Process, project: Project) {
    p.pc.Stopping? ==>
      forall n :: n in project.containers && project.containers[n].id in p.pc.targets - p.pc.left
        ==> !project.containers[n].running
  }

  lemma OwnStepKeepsStopped(s: State, i: nat, a: Action)
    requires Inv(s) && i < |s.procs| && StoppedSoFar(s.procs[i], s.project)
    ensures StoppedSoFar(Do(s, i, a).procs[i], Do(s, i, a).project)
  {
    assert ProcessInv(s.procs[i], s.project);
    if s.procs[i].pc.Listing? && s.procs[i].command.Up? {
      var targets := StillThere(s.procs[i].pc.snap, s.project, s.procs[i].command.flags.scope);
      assert targets - targets == {};
    }
  }

  lemma ExitKeepsStopped(p: Process, project: Project, n: string)
    requires StoppedSoFar(p, project)
    ensures StoppedSoFar(p, Apply(project, SetRunning(n, false)))
  {}

  lemma NotStopping(p: Process, project: Project)
    requires !p.pc.Stopping?
    ensures StoppedSoFar(p, project)
  {}

  /** A process that is stopping holds the lock, so without a standalone `watch`
      nobody else changes the project. */
  lemma StepKeepsStopped(s: State, e: Event, i: nat)
    requires Inv(s) && NoWatch(s) && i < |s.procs| && StoppedSoFar(s.procs[i], s.project)
    ensures i < |Step(s, e).procs| && StoppedSoFar(Step(s, e).procs[i], Step(s, e).project)
  {
    hide Inv, Do, Apply, StoppedSoFar;
    if e.ContainerExits? {
      ExitKeepsStopped(s.procs[i], s.project, e.name);
    } else if e.who < |s.procs| {
      StepIsLocal(s, e.who, e.action);
      if e.who == i {
        OwnStepKeepsStopped(s, i, e.action);
      } else if s.procs[i].pc.Stopping? {
        MutatorsHoldTheLock(s, i);
        if Mutates(s.procs[e.who].pc) {
          MutatorsHoldTheLock(s, e.who);
        }
      } else {
        NotStopping(s.procs[i], Step(s, e).project);
      }
    }
  }

  lemma {:induction false} RunKeepsStopped(s: State, events: seq<Event>, i: nat)
    requires Initial(s) && NoWatch(s) && i < |s.procs|
    ensures i < |Run(s, events).procs| && StoppedSoFar(Run(s, events).procs[i], Run(s, events).project)
    decreases |events|
  {
    if events == [] {
      NotStopping(s.procs[i], s.project);
    } else {
      hide Inv, Step, StoppedSoFar, Initial;
      var last := |events| - 1;
      RunKeepsStopped(s, events[..last], i);
      RunKeepsInv(s, events[..last]);
      RunKeepsCommands(s, events[..last]);
      StepKeepsStopped(Run(s, events[..last]), events[last], i);
    }
  }

  /** The final stop has gone through its list. */
  predicate IsDone(s: State, i: nat) {
    i < |s.procs| && s.procs[i].pc.Stopping? && s.procs[i].pc.left == {}
  }

  lemma StoppedWhenDone(s: State, i: nat)
    requires Inv(s) && IsDone(s, i) && s.procs[i].command.Up? && StoppedSoFar(s.procs[i], s.project)
    ensures AllStopped(s.project, s.procs[i].pc.snap, s.procs[i].command.flags.scope)
  {
    var p := s.procs[i];
    assert ProcessInv(p, s.project);
    forall e | e in p.pc.snap && e.service in p.command.flags.scope && e.name in s.project.containers && s.project.containers[e.name].id == e.id
      ensures !s.project.containers[e.name].running
    {
      assert e.id in p.pc.targets - p.pc.left;
    }
  }

  /** When the final stop of process `i` is through, every container of its scope that
      is still the one it had captured is stopped. */
  ghost predicate StopsAll(s: State, i: nat) {
    IsDone(s, i) ==> s.procs[i].command.Up? && AllStopped(s.project, s.procs[i].pc.snap, s.procs[i].command.flags.scope)
  }

  /** The final stop is complete in every run exactly when no standalone `watch` can
      start a container behind its back: there is none, or this `up` never gets to a
      final stop, or it has no service in its scope. */
  lemma {:induction false} FinalStopIsComplete(s: State, i: nat)
    requires Initial(s) && i < |s.procs| && s.procs[i].command.Up?
    ensures var f := s.procs[i].command.flags;
            (forall events :: StopsAll(Run(s, events), i)) <==> NoWatch(s) || !Attaches(f) || f.scope == {}
  {
    var f := s.procs[i].command.flags;
    if NoWatch(s) || !Attaches(f) || f.scope == {} {
      forall events ensures StopsAll(Run(s, events), i) {
        StopIsComplete(s, events, i);
      }
    } else {
      var w: nat :| w < |s.procs| && s.procs[w].command.Watch?;
      var service :| service in f.scope;
      var events := RestartedBehindTheStop(s, w, i, service);
    }
  }

  lemma StopIsComplete(s: State, events: seq<Event>, i: nat)
    requires Initial(s) && i < |s.procs| && s.procs[i].command.Up?
    requires NoWatch(s) || !Attaches(s.procs[i].command.flags) || s.procs[i].command.flags.scope == {}
    ensures StopsAll(Run(s, events), i)
  {
    hide Run, StoppedSoFar, Initial, NoWatch;
    var now := Run(s, events);
    RunKeepsInv(s, events);
    RunKeepsCommands(s, events);
    if IsDone(now, i) {
      assert ProcessInv(now.procs[i], now.project);
      if NoWatch(s) {
        RunKeepsStopped(s, events, i);
        StoppedWhenDone(now, i);
      }
    }
  }

  /** The stops of a final stop, one after the other. */
  lemma {:induction false} StopEach(s: State, events: seq<Event>, i: nat) returns (more: seq<Event>)
    requires i < |Run(s, events).procs| && Run(s, events).procs[i].pc.Stopping?
    ensures var (now, later) := (Run(s, events), Run(s, more));
            && SameNames(now.project, later.project)
            && later.procs == now.procs[i := now.procs[i].(pc := now.procs[i].pc.(left := {}))]
    decreases Run(s, events).procs[i].pc.left
  {
    hide Run;
    var now := Run(s, events);
    if now.procs[i].pc.left == {} {
      assert now.procs[i := now.procs[i]] == now.procs;
      return events;
    }
    var id :| id in now.procs[i].pc.left;
    more := Then(s, events, Act(i, StopOne(id)));
    more := StopEach(s, more, i);
  }

  /** A run in which the `watch` starts a captured container again before the final
      stop returns. */
  lemma RestartedBehindTheStop(s: State, w: nat, i: nat, service: string) returns (events: seq<Event>)
    requires Initial(s) && w < |s.procs| && i < |s.procs| && s.procs[w].command.Watch? && s.procs[i].command.Up?
    requires Attaches(s.procs[i].command.flags) && service in s.procs[i].command.flags.scope
    ensures !StopsAll(Run(s, events), i)
  {
    hide Run, Initial;
    var snap;
    events, snap := CaptureOne(s, w, i, service);
    events := StopWhatIsThere(s, events, i, snap);
    events := Then(s, events, Act(w, Modify(SetRunning("", true))));
    var now := Run(s, events);
    var id := now.project.containers[""].id;
    assert Seen("", id, service) in snap && now.project.containers[""].running;
    assert !AllStopped(now.project, snap, s.procs[i].command.flags.scope);
  }

  ghost predicate Captured(p: Project, snap: set<Seen>, n: string, service: string) {
    n in p.containers && Seen(n, p.containers[n].id, service) in snap
  }

  lemma CreateOne(s: State, w: nat, i: nat, service: string) returns (events: seq<Event>)
    requires Initial(s) && w < |s.procs| && i < |s.procs| && s.procs[w].command.Watch? && s.procs[i].command.Up?
    requires CanChange(s.procs[i].command)
    ensures var now := Run(s, events);
            && now.holder == Some(i)
            && now.procs == s.procs[w := Process(Watch, Watching, false)][i := Process(s.procs[i].command, Changing, true)]
            && "" in now.project.containers && now.project.containers[""].service == service && !now.project.containers[""].oneOff
  {
    assert Run(s, []) == s;
    hide Run, ValidProject;
    events := Then(s, [], Act(w, Go));
    events := Then(s, events, Act(i, Go));
    events := Then(s, events, Act(i, Go));
    events := Then(s, events, Act(i, Modify(Remove(""))));
    events := Then(s, events, Act(i, Modify(Create("", service, false))));
  }

  /** Up to an attach that has captured a container of the service. */
  lemma CaptureOne(s: State, w: nat, i: nat, service: string) returns (events: seq<Event>, snap: set<Seen>)
    requires Initial(s) && w < |s.procs| && i < |s.procs| && s.procs[w].command.Watch? && s.procs[i].command.Up?
    requires Attaches(s.procs[i].command.flags)
    ensures var now := Run(s, events);
            && |now.procs| == |s.procs| && now.procs[w].pc == Watching && now.procs[w].command == Watch
            && now.procs[i] == Process(s.procs[i].command, Attached(snap), MayStopInside(s.procs[i].command.flags))
            && (now.holder == if now.procs[i].guard then Some(i) else None)
            && Captured(now.project, snap, "", service)
  {
    hide Run, MayStopInside;
    events := CreateOne(s, w, i, service);
    var project := Run(s, events).project;
    snap := Snapshot(project);
    assert Captured(project, snap, "", service);
    hide Snapshot, Captured;
    events := Then(s, events, Act(i, Go));
    events := Then(s, events, Act(i, Go));
    events := Then(s, events, Act(i, Go));
  }

  /** The streams end, the lock is taken again where it was let go, the captured
      containers are stopped. */
  lemma StopWhatIsThere(s: State, events: seq<Event>, i: nat, snap: set<Seen>) returns (more: seq<Event>)
    requires i < |Run(s, events).procs| && Run(s, events).procs[i].command.Up? && Run(s, events).procs[i].pc == Attached(snap)
    requires var now := Run(s, events); now.holder == if now.procs[i].guard then Some(i) else None
    ensures var (now, later) := (Run(s, events), Run(s, more));
            && SameNames(now.project, later.project) && |later.procs| == |now.procs|
            && (forall j :: 0 <= j < |now.procs| && j != i ==> later.procs[j] == now.procs[j])
            && later.procs[i].command == now.procs[i].command
            && IsDone(later, i) && later.procs[i].pc.snap == snap
  {
    hide Run, StillThere;
    more := Then(s, events, Act(i, AttachEnds(StreamsEnded)));
    more := Then(s, more, Act(i, Go));
    more := Then(s, more, Act(i, Go));
    more := StopEach(s, more, i);
  }

  // ----- what a process returns -----

  ghost predicate Happened(events: seq<Event>, e: Event) {
    exists k :: 0 <= k < |events| && events[k] == e
  }

  /** The outcome the process carries to its end. */
  function OutcomeOf(pc: Pc): Option<Outcome> {
    match pc
    case Relocking(_, o) => Some(o)
    case Listing(_, o) => Some(o)
    case Stopping(_, _, _, o) => Some(o)
    case _ => None
  }

  /** What stands behind a result, in the events of the process itself. */
  ghost predicate Earned(events: seq<Event>, i: nat, c: Command, result: ExitResult) {
    match result
    case Success => c.Up? && Attaches(c.flags) ==>
        Happened(events, Act(i, AttachEnds(StreamsEnded))) || Happened(events, Act(i, AttachAborted(0)))
    case WasInterrupted => c.Up? && Attaches(c.flags) && Happened(events, Act(i, AttachEnds(Interrupted)))
    case StreamTruncated => c.Up? && Attaches(c.flags) && Happened(events, Act(i, AttachEnds(StreamBroke)))
    case RunExited(code) =>
        c.Up? && Attaches(c.flags) && MayStopInside(c.flags) && code != 0 && Happened(events, Act(i, AttachAborted(code)))
    case ServiceNotFound => c.Up? && !NamesAService(c.flags)
    case EngineError => Happened(events, Act(i, Fail))
    case Killed => Happened(events, Act(i, Kill))
  }

  ghost predicate ResultHistory(events: seq<Event>, i: nat, p: Process) {
    && (OutcomeOf(p.pc).Some? ==> Happened(events, Act(i, AttachEnds(OutcomeOf(p.pc).value))))
    && (p.pc.Exited? ==> Earned(events, i, p.command, p.pc.result))
  }

  lemma HistoryGrows(events: seq<Event>, e: Event, i: nat, p: Process)
    requires ResultHistory(events, i, p)
    ensures ResultHistory(events + [e], i, p)
  {
    forall h | Happened(events, h) ensures Happened(events + [e], h) {
      var k :| 0 <= k < |events| && events[k] == h;
      assert (events + [e])[k] == h;
    }
  }

  lemma JustHappened(events: seq<Event>, e: Event)
    ensures Happened(events + [e], e)
  {
    assert (events + [e])[|events|] == e;
  }

  lemma OwnStepKeepsHistory(s: State, events: seq<Event>, i: nat, a: Action)
    requires Inv(s) && i < |s.procs| && ResultHistory(events, i, s.procs[i])
    ensures ResultHistory(events + [Act(i, a)], i, Do(s, i, a).procs[i])
  {
    var p := s.procs[i];
    assert ProcessInv(p, s.project);
    hide ProcessInv, SnapInv, ValidProject, Happened, Inv;
    JustHappened(events, Act(i, a));
    HistoryGrows(events, Act(i, a), i, p);
  }

  lemma {:induction false} RunKeepsHistory(s: State, events: seq<Event>, i: nat)
    requires Initial(s) && i < |s.procs|
    ensures |Run(s, events).procs| == |s.procs| && ResultHistory(events, i, Run(s, events).procs[i])
    decreases |events|
  {
    hide Inv, Do, ResultHistory;
    RunKeepsCommands(s, events);
    if events == [] {
      NothingReturnedYet(s, i);
    } else {
      hide Initial;
      var (last, e) := (|events| - 1, events[|events| - 1]);
      var before := Run(s, events[..last]);
      RunKeepsHistory(s, events[..last], i);
      RunKeepsInv(s, events[..last]);
      assert events == events[..last] + [e];
      HistoryGrows(events[..last], e, i, before.procs[i]);
      if e.Act? && e.who < |before.procs| {
        StepIsLocal(before, e.who, e.action);
        if e.who == i {
          OwnStepKeepsHistory(before, events[..last], i, e.action);
        }
      }
    }
  }

  lemma NothingReturnedYet(s: State, i: nat)
    requires Initial(s) && i < |s.procs|
    ensures ResultHistory([], i, s.procs[i])
  {}

  /** What a process returns, told from the events of the run alone: an interrupt, a
      broken stream and a container's own exit code are returned only after they
      happened, and an `up` that attaches succeeds only after its streams have ended or
      a container has exited with 0. */
  lemma ResultsAreEarned(s: State, events: seq<Event>, i: nat, result: ExitResult)
    requires Initial(s) && i < |s.procs|
    requires i < |Run(s, events).procs| && Run(s, events).procs[i].pc == Exited(result)
    ensures Earned(events, i, s.procs[i].command, result)
  {
    hide Run, Earned, Initial;
    RunKeepsHistory(s, events, i);
    RunKeepsCommands(s, events);
  }

  // ----- the code itself, running among the others -----

  /** The project all processes share; `log` is the interleaving so far. */
  class Host {
    ghost const first: State
    ghost var log: seq<Event>
    var s: State

    ghost predicate Valid()
      reads this
    {
      Initial(first) && s == Run(first, log)
    }

    /** Process `i` is this `up`, at `pc`, with `lock` its `Option<ProjectLock>`. */
    ghost predicate Mine(i: nat, f: UpFlags, pc: Pc, lock: bool)
      reads this
    {
      Valid() && i < |s.procs| && s.procs[i] == Process(Command.Up(f), pc, lock)
    }

    method Perform(e: Event)
      requires Valid()
      modifies this`s, this`log
      ensures Valid() && s == Step(old(s), e)
    {
      hide Step, Initial;
      s := Step(s, e);
      log := log + [e];
      assert log[..|log| - 1] == old(log);
    }

    /** Any number of steps of other processes and of containers. */
    method Others(i: nat)
      requires Valid() && i < |s.procs|
      modifies this`s, this`log
      ensures Valid() && i < |s.procs| && s.procs[i] == old(s).procs[i]
    {
      var steps: nat := *;
      while steps > 0
        invariant Valid() && i < |s.procs| && s.procs[i] == old(s).procs[i]
      {
        var e: Event := *;
        if !(e.Act? && e.who == i) {
          RunKeepsInv(first, log);
          if e.Act? && e.who < |s.procs| {
            StepIsLocal(s, e.who, e.action);
          }
          Perform(e);
        }
        steps := steps - 1;
      }
    }

    /** What is known of the state a call of process `i` finds. */
    static ghost predicate Sound(first: State, was: State, i: nat) {
      i < |was.procs| && Inv(was) && (NoWatch(first) ==> StoppedSoFar(was.procs[i], was.project))
    }

    /** One engine call: it goes through, or it fails and the command returns. */
    method Call(i: nat, f: UpFlags, a: Action) returns (ok: bool)
      requires Valid() && i < |s.procs| && s.procs[i].command == Command.Up(f) && !s.procs[i].pc.Exited?
      modifies this`s, this`log
      ensures Valid() && i < |s.procs|
      ensures if ok then exists was: State :: i < |was.procs| && was.procs[i] == old(s).procs[i] && Sound(first, was, i) && s == Do(was, i, a)
              else s.procs[i] == Process(Command.Up(f), Exited(EngineError), false)
    {
      hide StoppedSoFar, Inv, Initial, NoWatch;
      Others(i);
      RunKeepsInv(first, log);
      RunKeepsCommands(first, log);
      if NoWatch(first) {
        RunKeepsStopped(first, log, i);
      }
      ok := *;
      Perform(Act(i, if ok then a else Fail));
    }

    /** `lock_project`: it returns with the lock, or with an error, or the
        process is ended while it waits. */
    method LockProject(i: nat, f: UpFlags) returns (ok: bool)
      requires Valid() && i < |s.procs| && s.procs[i].command == Command.Up(f) && !s.procs[i].guard
      requires s.procs[i].pc.Waiting? || s.procs[i].pc.Relocking?
      modifies this`s, this`log
      ensures ok ==> Mine(i, f, if old(s).procs[i].pc.Waiting? then Checking else Listing(old(s).procs[i].pc.snap, old(s).procs[i].pc.outcome), true)
      ensures !ok ==> Mine(i, f, Exited(EngineError), false)
    {
      Others(i);
      RunKeepsInv(first, log);
      if s.holder == None {
        ok := true;
        Perform(Act(i, Go));
      } else {
        ok := false;
        Perform(Act(i, Fail));
      }
    }

    /** Some engine work that changes the project any number of times. */
    method Mutate(i: nat, f: UpFlags) returns (ok: bool)
      requires Valid() && i < |s.procs| && (s.procs[i] == Process(Command.Up(f), Changing, true) || s.procs[i] == Process(Command.Up(f), Watching, true))
      modifies this`s, this`log
      ensures if ok then Mine(i, f, old(s).procs[i].pc, true) else Mine(i, f, Exited(EngineError), false)
    {
      var changes: nat := *;
      while changes > 0
        invariant Mine(i, f, old(s).procs[i].pc, true)
      {
        var c: Change := *;
        ok := Call(i, f, Modify(c));
        if !ok {
          return;
        }
        changes := changes - 1;
      }
      ok := true;
    }

    lemma DoneIsComplete(was: State, i: nat)
      requires Sound(first, was, i) && IsDone(was, i) && was.procs[i].command.Up?
      ensures NoWatch(first) ==> AllStopped(was.project, was.procs[i].pc.snap, was.procs[i].command.flags.scope)
    {
      if NoWatch(first) {
        StoppedWhenDone(was, i);
      }
    }

    /** The `Up` arm of `dispatch`, from the lock the caller takes to the result. */
    method Up(i: nat, f: UpFlags) returns (r: ExitResult)
      requires Mine(i, f, Waiting, false)
      modifies this`s, this`log
      ensures Mine(i, f, Exited(r), false)
      ensures r != EngineError ==> (r == ServiceNotFound <==> !NamesAService(f))
      ensures r == WasInterrupted || r == StreamTruncated ==> Attaches(f)
      ensures r.RunExited? ==> Attaches(f) && MayStopInside(f) && r.code != 0
      ensures r != Killed
      ensures i < |first.procs| && Earned(log, i, Command.Up(f), r)
    {
      r := UpArm(i, f);
      hide Initial, Earned, Run;
      RunKeepsCommands(first, log);
      ResultsAreEarned(first, log, i, r);
    }

    method UpArm(i: nat, f: UpFlags) returns (r: ExitResult)
      requires Mine(i, f, Waiting, false)
      modifies this`s, this`log
      ensures Mine(i, f, Exited(r), false)
      ensures r != EngineError ==> (r == ServiceNotFound <==> !NamesAService(f))
      ensures r == WasInterrupted || r == StreamTruncated ==> Attaches(f)
      ensures r.RunExited? ==> Attaches(f) && MayStopInside(f) && r.code != 0
      ensures r != Killed
    {
      var lock := LockProject(i, f);
      if !lock {
        return EngineError;
      }
      var done := BringUp(i, f);
      if done.Some? {
        return done.value;
      }
      if f.wait {
        done := WaitHealthy(i, f);
      } else {
        done := None;
      }
      if done.Some? {
        return done.value;
      }
      if f.watch {
        var ok := Mutate(i, f);
        if ok { ok := Call(i, f, Go); }
        return if ok then Success else EngineError;
      }
      r := AttachAndStop(i, f);
    }

    /** The name check, the orphans and `up_with_options`, up to what follows it. */
    method BringUp(i: nat, f: UpFlags) returns (done: Option<ExitResult>)
      requires Mine(i, f, Checking, true)
      modifies this`s, this`log
      ensures done.Some? ==> Mine(i, f, Exited(done.value), false)
      ensures done.Some? ==> done.value == EngineError || done.value == if NamesAService(f) then Success else ServiceNotFound
      ensures done.None? ==> NamesAService(f)
      ensures done.None? ==> !f.noStart && (f.detach ==> f.wait || f.watch) && Mine(i, f, if f.wait then Health else if f.watch then Watching else Snapshotting, true)
    {
      var ok := Call(i, f, Go);
      if !ok {
        return Some(EngineError);
      }
      if !NamesAService(f) {
        return Some(ServiceNotFound);
      }
      ok := Mutate(i, f);
      if ok { ok := Call(i, f, Go); }
      if !ok {
        return Some(EngineError);
      }
      done := if f.noStart || (!f.wait && !f.watch && f.detach) then Some(Success) else None;
    }

    method WaitHealthy(i: nat, f: UpFlags) returns (done: Option<ExitResult>)
      requires Mine(i, f, Health, true) && f.wait
      modifies this`s, this`log
      ensures done.Some? ==> Mine(i, f, Exited(done.value), false) && (done.value == EngineError || done.value == Success)
      ensures done.None? ==> f.watch && Mine(i, f, Watching, true)
    {
      var ok := Call(i, f, Go);
      done := if !ok then Some(EngineError) else if f.watch then None else Some(Success);
    }

    /** The attached part: snapshot, `lock.take()`, follow, take the lock again, stop. */
    method AttachAndStop(i: nat, f: UpFlags) returns (r: ExitResult)
      requires Mine(i, f, Snapshotting, true)
      modifies this`s, this`log
      ensures Mine(i, f, Exited(r), false)
      ensures r != ServiceNotFound && r != Killed && (r.RunExited? ==> MayStopInside(f) && r.code != 0)
    {
      var snap := SnapshotAndRelease(i, f);
      if snap.None? {
        return EngineError;
      }
      var lock := MayStopInside(f);
      var aborted: bool := *;
      if lock && aborted {
        r := AbortInside(i, f, snap.value);
        return;
      }
      var outcome: Outcome := *;
      var ok := FollowLogs(i, f, snap.value, outcome);
      if ok {
        if !lock {
          lock := LockProject(i, f);
          ok := lock;
        } else {
          ok := KeepLock(i, f, snap.value, outcome);
        }
      }
      if !ok {
        return EngineError;
      }
      r := StopSnapshot(i, f, snap.value, outcome);
    }

    method SnapshotAndRelease(i: nat, f: UpFlags) returns (snap: Option<set<Seen>>)
      requires Mine(i, f, Snapshotting, true)
      modifies this`s, this`log
      ensures snap.Some? ==> Mine(i, f, Attached(snap.value), MayStopInside(f))
      ensures snap.None? ==> Mine(i, f, Exited(EngineError), false)
    {
      var ok := Call(i, f, Go);
      if !ok {
        return None;
      }
      snap := Some(s.procs[i].pc.snap);
      ok := Call(i, f, Go);
      if !ok {
        return None;
      }
    }

    method FollowLogs(i: nat, f: UpFlags, snap: set<Seen>, outcome: Outcome) returns (ok: bool)
      requires Mine(i, f, Attached(snap), MayStopInside(f))
      modifies this`s, this`log
      ensures if ok then Mine(i, f, Relocking(snap, outcome), MayStopInside(f)) else Mine(i, f, Exited(EngineError), false)
    {
      ok := Call(i, f, AttachEnds(outcome));
    }

    method KeepLock(i: nat, f: UpFlags, snap: set<Seen>, outcome: Outcome) returns (ok: bool)
      requires Mine(i, f, Relocking(snap, outcome), true)
      modifies this`s, this`log
      ensures if ok then Mine(i, f, Listing(snap, outcome), true) else Mine(i, f, Exited(EngineError), false)
    {
      ok := Call(i, f, Go);
    }

    /** The first container to exit makes the attach stop the rest itself. */
    method AbortInside(i: nat, f: UpFlags, snap: set<Seen>) returns (r: ExitResult)
      requires Mine(i, f, Attached(snap), true) && MayStopInside(f)
      modifies this`s, this`log
      ensures Mine(i, f, Exited(r), false)
      ensures r == EngineError || r == Success || (r.RunExited? && r.code != 0)
    {
      var ok := Call(i, f, Go);
      if !ok {
        return EngineError;
      }
      hide Sound, Initial;
      var stops: nat := *;
      while stops > 0
        invariant Mine(i, f, Aborting(snap), true)
      {
        var n: string := *;
        ok := Call(i, f, Modify(SetRunning(n, false)));
        if !ok {
          return EngineError;
        }
        stops := stops - 1;
      }
      var code: int := *;
      ok := Call(i, f, AttachAborted(code));
      r := if !ok then EngineError else if code == 0 then Success else RunExited(code);
    }

    /** `stop_snapshot`: unless an engine call fails, every captured container of the
        scope that is still there when this returns is stopped. */
    method StopSnapshot(i: nat, f: UpFlags, snap: set<Seen>, outcome: Outcome) returns (r: ExitResult)
      requires Mine(i, f, Listing(snap, outcome), true)
      modifies this`s, this`log
      ensures Mine(i, f, Exited(r), false)
      ensures r == EngineError ||
              match outcome
              case StreamsEnded => r == Success
              case Interrupted => r == WasInterrupted
              case StreamBroke => r == StreamTruncated
      ensures r != EngineError && NoWatch(first) ==> AllStopped(s.project, snap, f.scope)
    {
      hide Sound, AllStopped, Initial, NoWatch, StillThere;
      var ok := Call(i, f, Go);
      if !ok {
        return EngineError;
      }
      while s.procs[i].pc.left != {}
        invariant Valid() && i < |s.procs| && s.procs[i].pc.Stopping? && s.procs[i].pc.outcome == outcome
        invariant s.procs[i].pc.snap == snap
        invariant s.procs[i].command == Command.Up(f) && s.procs[i].guard
        decreases s.procs[i].pc.left
      {
        var id :| id in s.procs[i].pc.left;
        ok := Call(i, f, StopOne(id));
        if !ok {
          return EngineError;
        }
      }
      ghost var mine := s.procs[i];
      ok := Call(i, f, Go);
      if ok {
        ghost var was: State :| i < |was.procs| && was.procs[i] == mine && Sound(first, was, i) && s == Do(was, i, Go);
        DoneIsComplete(was, i);
      }
      r := if ok then Report(outcome) else EngineError;
    }
  }
}
