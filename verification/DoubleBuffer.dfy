/** `DoubleBufferShm` and `DblBufLoader`: storing processes, one client in `load`/`wait`, and the
    worker that locks, swaps and publishes. The lock appears as its users see it
    (ShmLock.RefinesAbstractLock). Every byte of every copy is a step of its own. */
module DoubleBuffer {
  import opened Bits
  import opened Options
  import SwapRunner

  datatype Pointer = Shared | Private

  datatype Holder = Free | ByWorker | ByStorer(id: nat)

  /** A process in `store(v)`: waiting for the lock, or writing under it. */
  datatype Storer = Wanting(v: Value) | Writing(v: Value, done: set<nat>)

  /** The client: between cycles; in `load` after staging, and after clearing `idle_`; and after
      `load` has returned. */
  datatype Client = Ready | Staged | Half | Loaded

  /** The worker: blocked; woken; about to lock; copying; then after the copy, after the active
      pointer is set, after the stage is cleared, after publishing, and after unlocking. */
  datatype Worker = Blocked | Seen | Locking | Copying(done: set<nat>) | Copied | Installed | Unstaged | Published | Unlocked

  /** `contents` lists what the shared buffer held each time no store was under way; `loadAt` is its
      length when the current cycle's `load` staged; `taken` indexes the content the worker found when
      it last took the lock; `everTaken` says it ever did. */
  datatype State = State(
    size: nat,
    shm: Value,
    private: Value,
    active: Pointer,
    published: Pointer,
    stage: bool,
    holder: Holder,
    storers: map<nat, Storer>,
    client: Client,
    worker: Worker,
    triggered: bool,
    idle: bool,
    contents: seq<Value>,
    loadAt: nat,
    taken: nat,
    everTaken: bool)

  datatype Action =
    | StoreCall(id: nat, v: Value)
    | StoreLock(id: nat)
    | StoreByte(id: nat, j: nat)
    | StoreUnlock(id: nat)
    | LoadStage
    | LoadClearIdle
    | LoadTrigger
    | WaitReturns
    | WorkerWakes
    | WorkerClears
    | WorkerLocks
    | WorkerCopies(j: nat)
    | WorkerCopied
    | WorkerInstalls
    | WorkerUnstages
    | WorkerPublishes
    | WorkerUnlocks
    | WorkerFinishes

  predicate Init(s: State) {
    && |s.shm| == |s.private| == s.size
    && s.active == s.published == Shared && !s.stage
    && s.holder == Free && s.storers == map[]
    && s.client == Ready && s.worker == Blocked && !s.triggered && s.idle
    && s.contents == [s.shm] && s.loadAt == 0 && s.taken == 0 && !s.everTaken
  }

  predicate Enabled(s: State, a: Action) {
    && |s.shm| == |s.private| == s.size
    && match a
       case StoreCall(id, v) => id !in s.storers && |v| == s.size
       case StoreLock(id) => id in s.storers && s.storers[id].Wanting? && s.holder == Free
       case StoreByte(id, j) =>
         && id in s.storers && s.storers[id].Writing?
         && j < s.size == |s.storers[id].v| && j !in s.storers[id].done
       case StoreUnlock(id) =>
         id in s.storers && s.storers[id].Writing? && forall j :: 0 <= j < s.size ==> j in s.storers[id].done
       case LoadStage => s.client == Ready || s.client == Loaded
       case LoadClearIdle => s.client == Staged
       case LoadTrigger => s.client == Half
       case WaitReturns => (s.client == Loaded || s.client == Ready) && s.idle
       case WorkerWakes => s.worker == Blocked && s.triggered
       case WorkerClears => s.worker == Seen
       case WorkerLocks => s.worker == Locking && s.holder == Free
       case WorkerCopies(j) => s.worker.Copying? && j < s.size && j !in s.worker.done
       case WorkerCopied => s.worker.Copying? && forall j :: 0 <= j < s.size ==> j in s.worker.done
       case WorkerInstalls => s.worker == Copied
       case WorkerUnstages => s.worker == Installed
       case WorkerPublishes => s.worker == Unstaged
       case WorkerUnlocks => s.worker == Published
       case WorkerFinishes => s.worker == Unlocked
  }

  /** Index of the content the shared buffer last held at rest. */
  function Latest(s: State): nat {
    if s.contents == [] then 0 else |s.contents| - 1
  }

  function Next(s: State, a: Action): State
    requires Enabled(s, a)
  {
    match a
    case StoreCall(id, v) => s.(storers := s.storers[id := Wanting(v)])
    case StoreLock(id) => s.(holder := ByStorer(id), storers := s.storers[id := Writing(s.storers[id].v, {})])
    case StoreByte(id, j) =>
      var w := s.storers[id];
      s.(shm := s.shm[j := w.v[j]], storers := s.storers[id := w.(done := w.done + {j})])
    case StoreUnlock(id) =>
      s.(holder := Free, storers := s.storers - {id}, contents := s.contents + [s.storers[id].v])
    case LoadStage => s.(stage := true, client := Staged, loadAt := |s.contents|)
    case LoadClearIdle => s.(idle := false, client := Half)
    case LoadTrigger => s.(triggered := true, client := Loaded)
    case WaitReturns => s.(client := Ready)
    case WorkerWakes => s.(worker := Seen)
    case WorkerClears => s.(triggered := false, worker := Locking)
    case WorkerLocks =>
      s.(holder := ByWorker, worker := Copying({}), taken := Latest(s),
      everTaken := true)
    case WorkerCopies(j) => s.(private := s.private[j := s.shm[j]], worker := Copying(s.worker.done + {j}))
    case WorkerCopied => s.(worker := Copied)
    case WorkerInstalls => s.(active := Private, worker := Installed)
    case WorkerUnstages => s.(stage := false, worker := Unstaged)
    case WorkerPublishes => s.(published := s.active, worker := Published)
    case WorkerUnlocks => s.(holder := Free, worker := Unlocked)
    case WorkerFinishes => s.(idle := true, worker := Blocked)
  }

  // ---------------------------------------------------------------------------------------------
  // Invariants
  // ---------------------------------------------------------------------------------------------

  /** Phases in which the worker holds the lock. */
  predicate WorkerHolds(w: Worker) {
    w.Copying? || w == Copied || w == Installed || w == Unstaged || w == Published
  }

  /** Stores run one at a time, and never while the worker copies. */
  ghost predicate LockInv(s: State) {
    && (s.holder == ByWorker <==> WorkerHolds(s.worker))
    && (forall id :: id in s.storers && s.storers[id].Writing? ==> s.holder == ByStorer(id))
    && (s.holder.ByStorer? ==> s.holder.id in s.storers && s.storers[s.holder.id].Writing?)
  }

  /** At rest the shared buffer holds the latest content; under a store, a mix with the new one. */
  ghost predicate SharedInv(s: State) {
    && s.contents != []
    && |s.shm| == |s.private| == s.size
    && (forall n :: 0 <= n < |s.contents| ==> |s.contents[n]| == s.size)
    && (forall id :: id in s.storers ==> |s.storers[id].v| == s.size)
    && match s.holder
       case ByStorer(id) =>
         && id in s.storers && s.storers[id].Writing?
         && forall j :: 0 <= j < s.size ==> s.shm[j] == MixedByte(s, s.storers[id], j)
       case _ => s.shm == s.contents[Latest(s)]
  }

  function MixedByte(s: State, w: Storer, j: nat): byte
    requires w.Writing? && j < s.size == |w.v| && s.contents != [] && |s.contents[Latest(s)]| == s.size
  {
    if j in w.done then w.v[j] else s.contents[Latest(s)][j]
  }

  /** The private buffer: filling up from the content found at the lock, and equal to it since. */
  ghost predicate PrivateInv(s: State)
    requires SharedInv(s)
  {
    && s.taken < |s.contents|
    && (WorkerHolds(s.worker) ==> s.everTaken && s.taken == Latest(s))
    && (s.worker.Copying? ==> forall j :: j in s.worker.done && j < s.size ==> s.private[j] == s.contents[s.taken][j])
    && (s.everTaken && !s.worker.Copying? ==> s.private == s.contents[s.taken])
  }

  /** Client and worker take turns; the stage is set from `load` until the worker clears it. */
  ghost predicate TurnInv(s: State) {
    && s.loadAt <= |s.contents|
    && match s.client
       case Ready => s.idle && !s.triggered && s.worker == Blocked && !s.stage && Delivered(s)
       case Staged => s.idle && !s.triggered && s.worker == Blocked && s.stage && Settled(s)
       case Half => !s.idle && !s.triggered && s.worker == Blocked && s.stage && Settled(s)
       case Loaded =>
         match s.worker
         case Blocked => if s.triggered then !s.idle && s.stage && Settled(s) else s.idle && !s.stage && s.everTaken && Delivered(s)
         case Seen => s.triggered && !s.idle && s.stage && Settled(s)
         case Locking => !s.triggered && !s.idle && s.stage && Settled(s)
         case Copying(_) => !s.triggered && !s.idle && s.stage && Timely(s)
         case Copied => !s.triggered && !s.idle && s.stage && Timely(s)
         case Installed => !s.triggered && !s.idle && s.stage && Timely(s) && s.active == Private
         case Unstaged => !s.triggered && !s.idle && !s.stage && Timely(s) && s.active == Private
         case _ => !s.triggered && !s.idle && !s.stage && Delivered(s) && s.everTaken
  }

  /** What the worker took is no older than the load. */
  ghost predicate Timely(s: State) {
    s.everTaken && s.loadAt <= s.taken + 1
  }

  /** Published and private agree; nothing is said about age. */
  ghost predicate Settled(s: State) {
    s.everTaken ==> s.active == s.published == Private
  }

  ghost predicate Delivered(s: State) {
    s.everTaken ==> s.active == s.published == Private && Timely(s)
  }

  /** What holds whatever the client does. */
  ghost predicate CoreInv(s: State) {
    LockInv(s) && SharedInv(s) && PrivateInv(s)
  }

  ghost predicate Inv(s: State) {
    CoreInv(s) && TurnInv(s)
  }

  /** The client never calls `load` again before `wait` has returned. */
  predicate Alternates(s: State, a: Action) {
    a == LoadStage ==> s.client == Ready
  }

  lemma StepLock(s: State, a: Action)
    requires CoreInv(s) && Enabled(s, a)
    ensures LockInv(Next(s, a))
  {
  }

  lemma StepShared(s: State, a: Action)
    requires CoreInv(s) && Enabled(s, a)
    ensures SharedInv(Next(s, a))
  {
    match a
    case StoreCall(_, _) => StoreShared(s, a);
    case StoreLock(_) => StoreShared(s, a);
    case StoreByte(_, _) => StoreShared(s, a);
    case StoreUnlock(_) => UnlockShared(s, a);
    case _ => WorkShared(s, a);
  }

  lemma StoreShared(s: State, a: Action)
    requires CoreInv(s) && Enabled(s, a) && (a.StoreCall? || a.StoreLock? || a.StoreByte?)
    ensures SharedInv(Next(s, a))
  {
    hide PrivateInv;
  }

  /** After the last byte the shared buffer is the stored value, whole. */
  lemma UnlockShared(s: State, a: Action)
    requires CoreInv(s) && Enabled(s, a) && a.StoreUnlock?
    ensures SharedInv(Next(s, a))
  {
    hide PrivateInv;
    assert s.holder == ByStorer(a.id);
    assert s.shm == s.storers[a.id].v;
  }

  lemma WorkShared(s: State, a: Action)
    requires CoreInv(s) && Enabled(s, a) && !a.StoreCall? && !a.StoreLock? && !a.StoreByte? && !a.StoreUnlock?
    ensures SharedInv(Next(s, a))
  {
    hide PrivateInv;
    var t := Next(s, a);
    assert t.shm == s.shm && t.storers == s.storers && t.contents == s.contents && t.size == s.size;
  }

  lemma StepPrivate(s: State, a: Action)
    requires CoreInv(s) && Enabled(s, a) && SharedInv(Next(s, a))
    ensures PrivateInv(Next(s, a))
  {
    match a
    case WorkerLocks => LocksPrivate(s);
    case WorkerCopies(j) => CopiesPrivate(s, j);
    case WorkerCopied => CopiesPrivate(s, 0);
    case _ => RestPrivate(s, a);
  }

  lemma LocksPrivate(s: State)
    requires CoreInv(s) && Enabled(s, WorkerLocks) && SharedInv(Next(s, WorkerLocks))
    ensures PrivateInv(Next(s, WorkerLocks))
  {
  }

  lemma CopiesPrivate(s: State, j: nat)
    requires CoreInv(s)
    ensures Enabled(s, WorkerCopies(j)) && SharedInv(Next(s, WorkerCopies(j))) ==> PrivateInv(Next(s, WorkerCopies(j)))
    ensures Enabled(s, WorkerCopied) && SharedInv(Next(s, WorkerCopied)) ==> PrivateInv(Next(s, WorkerCopied))
  {
  }

  /** Nothing else touches the private buffer, nor the contents while the worker holds the lock. */
  lemma RestPrivate(s: State, a: Action)
    requires CoreInv(s) && Enabled(s, a) && SharedInv(Next(s, a))
    requires a != WorkerLocks && !a.WorkerCopies? && a != WorkerCopied
    ensures PrivateInv(Next(s, a))
  {
    hide Next, Enabled, SharedInv, LockInv;
    RestFrame(s, a);
    SharedSize(s);
    SharedSize(Next(s, a));
  }

  lemma RestFrame(s: State, a: Action)
    requires LockInv(s) && Enabled(s, a) && a != WorkerLocks && !a.WorkerCopies? && a != WorkerCopied
    ensures var t := Next(s, a);
            && t.private == s.private && t.taken == s.taken && t.everTaken == s.everTaken && t.size == s.size
            && s.contents <= t.contents && (WorkerHolds(t.worker) ==> WorkerHolds(s.worker) && t.contents == s.contents)
            && t.worker.Copying? == s.worker.Copying? && (t.worker.Copying? ==> t.worker == s.worker)
  {
    match a
    case StoreUnlock(_) =>
    case WorkerInstalls =>
    case WorkerUnstages =>
    case WorkerPublishes =>
    case WorkerUnlocks =>
    case _ =>
  }

  lemma SharedSize(s: State)
    requires SharedInv(s)
    ensures s.contents != [] && |s.private| == s.size && forall n :: 0 <= n < |s.contents| ==> |s.contents[n]| == s.size
  {
  }

  lemma StepCore(s: State, a: Action)
    requires CoreInv(s) && Enabled(s, a)
    ensures CoreInv(Next(s, a))
  {
    StepLock(s, a);
    StepShared(s, a);
    StepPrivate(s, a);
  }

  lemma StepTurn(s: State, a: Action)
    requires Inv(s) && Enabled(s, a) && Alternates(s, a)
    ensures TurnInv(Next(s, a))
  {
  }

  lemma StepInv(s: State, a: Action)
    requires Inv(s) && Enabled(s, a) && Alternates(s, a)
    ensures Inv(Next(s, a))
  {
    StepCore(s, a);
    StepTurn(s, a);
  }

  // ---------------------------------------------------------------------------------------------
  // What a client can count on
  // ---------------------------------------------------------------------------------------------

  ghost predicate AlternatingPath(s: State, acts: seq<Action>, t: State)
    decreases acts
  {
    if acts == [] then s == t
    else Enabled(s, acts[0]) && Alternates(s, acts[0]) && AlternatingPath(Next(s, acts[0]), acts[1..], t)
  }

  lemma {:induction false} PathInv(s: State, acts: seq<Action>, t: State)
    requires Inv(s) && AlternatingPath(s, acts, t)
    ensures Inv(t)
    decreases acts
  {
    if acts != [] {
      StepInv(s, acts[0]);
      PathInv(Next(s, acts[0]), acts[1..], t);
    }
  }

  lemma InitInv(s: State)
    requires Init(s)
    ensures Inv(s)
  {
  }

  /** What dereferencing the snapshot yields. */
  function Snapshot(s: State): Value {
    if s.published == Private then s.private else s.shm
  }

  /** By the time a `wait` after a `load` returns, the worker has taken a content. */
  lemma {:induction false} TakenByThen(s: State, acts: seq<Action>, t: State)
    requires Inv(s) && AlternatingPath(s, acts, t) && t.client == Ready
    requires LoadStage in acts || s.client != Ready || s.everTaken
    ensures t.everTaken
    decreases acts
  {
    if acts != [] {
      StepInv(s, acts[0]);
      TakenByThen(Next(s, acts[0]), acts[1..], t);
    }
  }

  // The run told by its actions: what was stored, and when the client loaded.

  /** The value that process id passed to its last call of `store`. */
  function Argument(acts: seq<Action>, id: nat): Value {
    if acts == [] then []
    else
      var a := acts[|acts| - 1];
      if a.StoreCall? && a.id == id then a.v else Argument(acts[..|acts| - 1], id)
  }

  /** The arguments of the calls of `store`, in the order in which they were finished. */
  function Stored(acts: seq<Action>): seq<Value> {
    if acts == [] then []
    else
      var front, a := acts[..|acts| - 1], acts[|acts| - 1];
      Stored(front) + if a.StoreUnlock? then [Argument(front, a.id)] else []
  }

  /** The number of stores finished before the last `load` began. */
  function StoredBeforeLoad(acts: seq<Action>): nat {
    if acts == [] then 0
    else
      var front, a := acts[..|acts| - 1], acts[|acts| - 1];
      if a == LoadStage then |Stored(front)| else StoredBeforeLoad(front)
  }

  /** The state's records are what the actions say. */
  ghost predicate Recorded(first: Value, acts: seq<Action>, s: State) {
    && s.contents == [first] + Stored(acts)
    && (forall id :: id in s.storers ==> s.storers[id].v == Argument(acts, id))
    && (LoadStage in acts ==> s.loadAt == 1 + StoredBeforeLoad(acts))
  }

  lemma RecordedStep(first: Value, acts: seq<Action>, s: State, a: Action)
    requires Recorded(first, acts, s) && Enabled(s, a)
    ensures Recorded(first, acts + [a], Next(s, a))
  {
    assert (acts + [a])[..|acts|] == acts;
    RecordsStep(s, a);
    hide Next, Enabled;
  }

  /** How a step changes the records. */
  ghost predicate Recording(s: State, a: Action, t: State) {
    && t.contents == s.contents + (if a.StoreUnlock? && a.id in s.storers then [s.storers[a.id].v] else [])
    && t.loadAt == (if a == LoadStage then |s.contents| else s.loadAt)
    && (a.StoreUnlock? ==> a.id in s.storers)
    && (forall id :: id in t.storers ==>
                       if a.StoreCall? && a.id == id then t.storers[id].v == a.v
                       else id in s.storers && t.storers[id].v == s.storers[id].v)
  }

  lemma RecordsStep(s: State, a: Action)
    requires Enabled(s, a)
    ensures Recording(s, a, Next(s, a))
  {
    match a
    case StoreCall(_, _) =>
    case StoreLock(_) =>
    case StoreByte(_, _) =>
    case StoreUnlock(_) =>
    case LoadStage =>
    case _ => OtherRecords(s, a);
  }

  lemma OtherRecords(s: State, a: Action)
    requires Enabled(s, a) && !a.StoreCall? && !a.StoreLock? && !a.StoreByte? && !a.StoreUnlock? && a != LoadStage
    ensures Recording(s, a, Next(s, a))
  {
    var t := Next(s, a);
    assert t.contents == s.contents && t.loadAt == s.loadAt && t.storers == s.storers;
    hide Next, Enabled;
  }

  lemma {:induction false} RecordedKept(first: Value, before: seq<Action>, s: State, acts: seq<Action>, t: State)
    requires Recorded(first, before, s) && AlternatingPath(s, acts, t)
    ensures Recorded(first, before + acts, t)
    decreases acts
  {
    if acts == [] {
      assert before + acts == before;
    } else {
      RecordedStep(first, before, s, acts[0]);
      assert before + acts == before + [acts[0]] + acts[1..];
      RecordedKept(first, before + [acts[0]], Next(s, acts[0]), acts[1..], t);
    }
  }

  /** With one client that waits before it loads again, and any stores by others under the lock: once a `load`
      has been made and the client is between cycles, the snapshot is exactly the initial content or the
      argument of one finished call of `store`: no older than the last one finished before the `load` began.
      It is never torn. */
  lemma SnapshotIsOneContent(s: State, acts: seq<Action>, t: State)
    requires Init(s) && AlternatingPath(s, acts, t) && t.client == Ready && LoadStage in acts
    ensures t.published == Private
    ensures exists n: nat :: StoredBeforeLoad(acts) <= n <= |Stored(acts)| && Snapshot(t) == ([s.shm] + Stored(acts))[n]
  {
    InitInv(s);
    PathInv(s, acts, t);
    TakenByThen(s, acts, t);
    assert Recorded(s.shm, [], s);
    RecordedKept(s.shm, [], s, acts, t);
    assert [] + acts == acts;
    assert t.loadAt <= t.taken + 1 && t.taken < |t.contents| && Snapshot(t) == t.contents[t.taken];
  }

  /** The worker is in a swap with no stage to copy from. */
  predicate NullSwap(s: State) {
    s.worker.Copying? && !s.stage
  }

  /** No swap ever meets a null stage: it is set from before the lock until the swap clears it. */
  lemma StageNeverNull(s: State, acts: seq<Action>, t: State)
    requires Init(s) && AlternatingPath(s, acts, t)
    ensures !NullSwap(t)
    ensures t.worker == Locking || t.worker.Copying? || t.worker == Copied || t.worker == Installed ==> t.stage
  {
    InitInv(s);
    PathInv(s, acts, t);
  }

  /** Between a `wait` and the trigger of the next `load`, nothing changes the snapshot, whatever is
      stored meanwhile. */
  lemma {:induction false} SnapshotStays(t: State, more: seq<Action>, u: State)
    requires Inv(t) && t.worker == Blocked && !t.triggered
    requires AlternatingPath(t, more, u) && LoadTrigger !in more && t.everTaken && t.published == Private
    ensures Snapshot(u) == Snapshot(t) && u.published == Private
    decreases more
  {
    if more != [] {
      StepInv(t, more[0]);
      SnapshotStays(Next(t, more[0]), more[1..], u);
    }
  }

  /** The same from the start of a run. */
  lemma SnapshotSurvivesStores(s: State, acts: seq<Action>, t: State, more: seq<Action>, u: State)
    requires Init(s) && AlternatingPath(s, acts, t) && t.client == Ready && LoadStage in acts
    requires AlternatingPath(t, more, u) && LoadTrigger !in more
    ensures Snapshot(u) == Snapshot(t)
    ensures exists n: nat :: StoredBeforeLoad(acts) <= n <= |Stored(acts)| && Snapshot(u) == ([s.shm] + Stored(acts))[n]
  {
    InitInv(s);
    PathInv(s, acts, t);
    TakenByThen(s, acts, t);
    SnapshotIsOneContent(s, acts, t);
    SnapshotStays(t, more, u);
  }

  // ---------------------------------------------------------------------------------------------
  // The runner inside
  // ---------------------------------------------------------------------------------------------

  /** The runner's state as far as this one shows it, with the client as the runner's client 0. */
  predicate Shows(s: State, r: SwapRunner.State) {
    && r.triggered == s.triggered && r.idle == s.idle
    && r.worker == (if s.worker == Blocked then SwapRunner.Blocked
                    else if s.worker == Seen then SwapRunner.Seen else SwapRunner.Running)
    && r.clients.Keys == {0} && r.clients[0].half == (s.client == Half)
  }

  /** The runner's step in a step: all of the task but its end is the runner's own business. */
  function RunnerStep(a: Action): Option<SwapRunner.Action> {
    match a
    case LoadClearIdle => Some(SwapRunner.ClearIdle(0))
    case LoadTrigger => Some(SwapRunner.SetTriggered(0))
    case WaitReturns => Some(SwapRunner.WaitReturns(0))
    case WorkerWakes => Some(SwapRunner.WorkerWakes)
    case WorkerClears => Some(SwapRunner.WorkerClears)
    case WorkerFinishes => Some(SwapRunner.TaskEnds)
    case _ => None
  }

  lemma RunnerStepWithin(s: State, a: Action, r: SwapRunner.State)
    requires Enabled(s, a) && Shows(s, r)
    ensures match RunnerStep(a)
            case None => Shows(Next(s, a), r)
            case Some(b) => SwapRunner.Enabled(r, b) && Shows(Next(s, a), SwapRunner.Next(r, b))
  {
  }

  ghost predicate AnyPath(s: State, acts: seq<Action>, t: State)
    decreases acts
  {
    if acts == [] then s == t else Enabled(s, acts[0]) && AnyPath(Next(s, acts[0]), acts[1..], t)
  }

  /** Every run, alternating or not, is a run of the runner's protocol with one client; so all that
      holds there for any number of clients holds here. */
  lemma {:induction false} RunnerWithin(s: State, acts: seq<Action>, t: State, r: SwapRunner.State)
    returns (racts: seq<SwapRunner.Action>, u: SwapRunner.State)
    requires AnyPath(s, acts, t) && Shows(s, r)
    ensures SwapRunner.Path(r, racts, u) && Shows(t, u)
    decreases acts
  {
    hide Enabled, Next, Shows, SwapRunner.Enabled, SwapRunner.Next;
    if acts == [] {
      racts, u := [], r;
    } else {
      RunnerStepWithin(s, acts[0], r);
      match RunnerStep(acts[0])
      case None =>
        racts, u := RunnerWithin(Next(s, acts[0]), acts[1..], t, r);
      case Some(b) =>
        racts, u := RunnerWithin(Next(s, acts[0]), acts[1..], t, SwapRunner.Next(r, b));
        SwapRunner.Prepend(r, b, racts, u);
        racts := [b] + racts;
    }
  }

  /** So, from the handshake of the runner: while `wait` blocks, the client is about to trigger, or a
      trigger is pending, or the worker is at work. */
  lemma WaitBlocksForAReason(s: State, acts: seq<Action>, t: State)
    requires Init(s) && AnyPath(s, acts, t) && !t.idle
    ensures t.client == Half || t.triggered || t.worker != Blocked
  {
    var r := SwapRunner.State(false, true, SwapRunner.Blocked, map[0 := SwapRunner.Client(false, false, 0, 0)], 0, 0, 0);
    var racts, u := RunnerWithin(s, acts, t, r);
    SwapRunner.Handshake(r, racts, u);
  }

  // ---------------------------------------------------------------------------------------------
  // Exactly when a load is safe
  // ---------------------------------------------------------------------------------------------

  /** A `load` found the stage empty: the previous one has been consumed. */
  predicate Guarded(s: State, a: Action) {
    a == LoadStage ==> !s.stage
  }

  ghost predicate GuardedPath(s: State, acts: seq<Action>, t: State)
    decreases acts
  {
    if acts == [] then s == t
    else Enabled(s, acts[0]) && Guarded(s, acts[0]) && GuardedPath(Next(s, acts[0]), acts[1..], t)
  }

  /** `load` between its staging and its trigger. */
  predicate MidLoad(s: State) {
    s.client == Staged || s.client == Half
  }

  /** Phases of the worker from seeing the trigger to clearing the stage. */
  predicate Serving(w: Worker) {
    w == Seen || w == Locking || w.Copying? || w == Copied || w == Installed
  }

  /** A set stage has exactly one taker to come; an empty one has none. */
  predicate StageInv(s: State) {
    && if s.stage then
      if MidLoad(s) then !s.triggered && !Serving(s.worker)
      else if s.triggered then !Serving(s.worker) || s.worker == Seen
      else Serving(s.worker) && s.worker != Seen
    else !MidLoad(s) && !s.triggered && !Serving(s.worker)
  }

  lemma StepStage(s: State, a: Action)
    requires StageInv(s) && Enabled(s, a) && Guarded(s, a)
    ensures StageInv(Next(s, a))
  {
  }

  lemma {:induction false} GuardedInv(s: State, acts: seq<Action>, t: State)
    requires CoreInv(s) && StageInv(s) && GuardedPath(s, acts, t)
    ensures CoreInv(t) && StageInv(t)
    decreases acts
  {
    if acts != [] {
      StepCore(s, acts[0]);
      StepStage(s, acts[0]);
      GuardedInv(Next(s, acts[0]), acts[1..], t);
    }
  }

  /** A client that always waits before the next `load` finds the stage empty every time. */
  lemma {:induction false} AlternatingIsGuarded(s: State, acts: seq<Action>, t: State)
    requires Inv(s) && AlternatingPath(s, acts, t)
    ensures GuardedPath(s, acts, t)
    decreases acts
  {
    if acts != [] {
      StepInv(s, acts[0]);
      AlternatingIsGuarded(Next(s, acts[0]), acts[1..], t);
    }
  }

  /** `t` can follow `s` without a further `load` beginning. */
  ghost predicate Leads(s: State, t: State) {
    exists acts :: LoadStage !in acts && GuardedPath(s, acts, t)
  }

  lemma LeadsNow(s: State)
    ensures Leads(s, s)
  {
    assert LoadStage !in [] && GuardedPath(s, [], s);
  }

  lemma LeadsStep(s: State, a: Action, t: State)
    requires Enabled(s, a) && a != LoadStage && Leads(Next(s, a), t)
    ensures Leads(s, t)
  {
    var acts :| LoadStage !in acts && GuardedPath(Next(s, a), acts, t);
    assert ([a] + acts)[1..] == acts;
    assert LoadStage !in [a] + acts && GuardedPath(s, [a] + acts, t);
  }

  /** Steps of the worker's cycle still to come, up to clearing the stage. */
  function Rank(w: Worker): nat {
    match w
    case Unstaged => 9
    case Published => 8
    case Unlocked => 7
    case Blocked => 6
    case Seen => 5
    case Locking => 4
    case Copying(_) => 3
    case Copied => 2
    case Installed => 1
  }

  function Undone(size: nat, done: set<nat>): nat {
    |set j: nat | j < size && j !in done|
  }

  /** Bytes the lock holder has still to write before the worker moves on. */
  function Missing(s: State): nat {
    if s.worker.Copying? then Undone(s.size, s.worker.done)
    else if s.holder.ByStorer? && s.holder.id in s.storers && s.storers[s.holder.id].Writing? then
      1 + Undone(s.size, s.storers[s.holder.id].done)
    else 0
  }

  lemma OneLess(size: nat, done: set<nat>, j: nat)
    requires j < size && j !in done
    ensures Undone(size, done + {j}) < Undone(size, done)
  {
    var before := set k: nat | k < size && k !in done;
    assert (set k: nat | k < size && k !in done + {j}) == before - {j};
  }

  /** `a` is enabled, is neither the client's nor a new `store`, and brings the worker nearer to
      clearing the stage. */
  predicate Nearer(s: State, a: Action) {
    && Enabled(s, a)
    && var t := Next(s, a);
    && t.client == s.client
    && t.triggered == (s.triggered && s.worker != Seen)
    && (a == WorkerLocks ==> s.worker == Locking && t.worker == Copying({}))
    && if s.worker == Installed then a == WorkerUnstages && t.worker == Unstaged && !t.stage
       else
         && a != LoadStage && a != WorkerUnstages && t.stage == s.stage
         && (Rank(t.worker) < Rank(s.worker) || (Rank(t.worker) == Rank(s.worker) && Missing(t) < Missing(s)))
         && (s.worker == Locking && a != WorkerLocks ==> t.worker == Locking)
         && Rank(t.worker) + 1 >= Rank(s.worker)
  }

  /** Until the worker gets the lock, the store that holds it goes on. */
  lemma StorerForward(s: State) returns (a: Action)
    requires CoreInv(s) && s.worker == Locking && s.holder != Free
    ensures Nearer(s, a) && a != WorkerLocks
  {
    var id := s.holder.id;
    var done := s.storers[id].done;
    if j: nat :| j < s.size && j !in done {
      OneLess(s.size, done, j);
      a := StoreByte(id, j);
    } else {
      a := StoreUnlock(id);
    }
  }

  lemma CopyForward(s: State) returns (a: Action)
    requires CoreInv(s) && s.worker.Copying?
    ensures Nearer(s, a)
  {
    if j: nat :| j < s.size && j !in s.worker.done {
      OneLess(s.size, s.worker.done, j);
      a := WorkerCopies(j);
    } else {
      a := WorkerCopied;
    }
  }

  /** The other phases take one step each. */
  lemma PlainForward(s: State, a: Action)
    requires |s.shm| == |s.private| == s.size
    requires match s.worker
             case Blocked => s.triggered && a == WorkerWakes
             case Seen => a == WorkerClears
             case Locking => s.holder == Free && a == WorkerLocks
             case Copying(_) => false
             case Copied => a == WorkerInstalls
             case Installed => a == WorkerUnstages
             case Unstaged => a == WorkerPublishes
             case Published => a == WorkerUnlocks
             case Unlocked => a == WorkerFinishes
    ensures Nearer(s, a)
  {
    hide Missing;
  }

  lemma Forward(s: State) returns (a: Action)
    requires CoreInv(s) && (s.worker == Blocked ==> s.triggered)
    ensures Nearer(s, a)
  {
    hide LockInv, PrivateInv, Nearer;
    if s.worker.Copying? {
      a := CopyForward(s);
    } else if s.worker == Locking && s.holder != Free {
      a := StorerForward(s);
    } else {
      a := match s.worker
        case Blocked => WorkerWakes
        case Seen => WorkerClears
        case Locking => WorkerLocks
        case Copied => WorkerInstalls
        case Installed => WorkerUnstages
        case Unstaged => WorkerPublishes
        case Published => WorkerUnlocks
        case Unlocked => WorkerFinishes;
      PlainForward(s, a);
    }
  }

  /** A worker that is serving, or has a trigger to come back to, does clear the stage. */
  lemma {:induction false} Consume(s: State) returns (t: State)
    requires CoreInv(s) && (Serving(s.worker) || s.triggered)
    requires s.triggered ==> !Serving(s.worker) || s.worker == Seen
    ensures CoreInv(t) && Leads(s, t) && t.client == s.client
    ensures !t.stage && t.worker == Unstaged && !t.triggered
    decreases Rank(s.worker), Missing(s)
  {
    hide CoreInv, Undone, Enabled, Next;
    var a := Forward(s);
    StepCore(s, a);
    t := Next(s, a);
    if a == WorkerUnstages {
      LeadsNow(t);
    } else {
      t := Consume(t);
    }
    LeadsStep(s, a, t);
  }

  /** A trigger with an empty stage makes the worker lock and swap a null stage. */
  lemma {:induction false} Swaps(s: State) returns (t: State)
    requires CoreInv(s) && !s.stage && (Rank(s.worker) >= 6 ==> s.triggered) && Rank(s.worker) >= 4
    ensures Leads(s, t) && NullSwap(t)
    decreases Rank(s.worker), Missing(s)
  {
    hide CoreInv, Undone, Enabled, Next;
    var a := Forward(s);
    StepCore(s, a);
    t := Next(s, a);
    if a == WorkerLocks {
      LeadsNow(t);
    } else {
      t := Swaps(t);
    }
    LeadsStep(s, a, t);
  }

  lemma LeadsThrough(s: State, t: State, u: State)
    requires Leads(s, t) && Leads(t, u)
    ensures Leads(s, u)
  {
    var acts :| LoadStage !in acts && GuardedPath(s, acts, t);
    LeadsAlong(s, acts, t, u);
  }

  lemma {:induction false} LeadsAlong(s: State, acts: seq<Action>, t: State, u: State)
    requires LoadStage !in acts && GuardedPath(s, acts, t) && Leads(t, u)
    ensures Leads(s, u)
    decreases acts
  {
    if acts != [] {
      LeadsAlong(Next(s, acts[0]), acts[1..], t, u);
      LeadsStep(s, acts[0], u);
    }
  }

  /** A `load` over a stage not yet consumed can end in a swap of a null stage: the pending task
      clears the new stage, and the new trigger then finds none. */
  lemma OverwrittenStage(s: State) returns (t: State)
    requires CoreInv(s) && StageInv(s) && s.stage && Enabled(s, LoadStage)
    ensures Leads(Next(s, LoadStage), t) && NullSwap(t)
  {
    var s1 := Next(s, LoadStage);
    var s2 := Next(s1, LoadClearIdle);
    StepCore(s, LoadStage);
    StepCore(s1, LoadClearIdle);
    var s3 := Consume(s2);
    var s4 := Next(s3, LoadTrigger);
    StepCore(s3, LoadTrigger);
    t := Swaps(s4);
    LeadsStep(s3, LoadTrigger, t);
    LeadsThrough(s2, s3, t);
    LeadsStep(s1, LoadClearIdle, t);
  }

  lemma {:induction false} QuietKeepsStage(s: State, acts: seq<Action>, t: State)
    requires CoreInv(s) && StageInv(s) && LoadStage !in acts && GuardedPath(s, acts, t)
    ensures !NullSwap(t)
    decreases acts
  {
    GuardedInv(s, acts, t);
  }

  /** In a run whose earlier loads were safe, the next `load` can cause a swap with a null stage
      exactly when the stage is still set as it begins. Waiting first is one way to have it empty. */
  lemma LoadIsSafeExactly(z: State, acts: seq<Action>, s: State)
    requires Init(z) && GuardedPath(z, acts, s) && Enabled(s, LoadStage)
    ensures (forall t :: Leads(Next(s, LoadStage), t) ==> !NullSwap(t)) <==> !s.stage
  {
    InitInv(z);
    GuardedInv(z, acts, s);
    if s.stage {
      var t := OverwrittenStage(s);
      assert Leads(Next(s, LoadStage), t);
    } else {
      var s1 := Next(s, LoadStage);
      StepCore(s, LoadStage);
      StepStage(s, LoadStage);
      forall t | Leads(s1, t) ensures !NullSwap(t) {
        var more :| LoadStage !in more && GuardedPath(s1, more, t);
        QuietKeepsStage(s1, more, t);
      }
    }
  }

  /** Two `load`s in a row, with no `wait` between them, are such a case. */
  lemma DoubleLoadMeetsNullStage(z: State) returns (acts: seq<Action>, s: State, t: State)
    requires Init(z)
    ensures GuardedPath(z, acts, s) && acts == [LoadStage, LoadClearIdle, LoadTrigger]
    ensures Enabled(s, LoadStage) && Leads(Next(s, LoadStage), t) && NullSwap(t)
  {
    var s1 := Next(z, LoadStage);
    var s2 := Next(s1, LoadClearIdle);
    s := Next(s2, LoadTrigger);
    acts := [LoadStage, LoadClearIdle, LoadTrigger];
    assert GuardedPath(s, acts[3..], s);
    assert acts[2..][1..] == acts[3..] && acts[1..][1..] == acts[2..];
    assert GuardedPath(s2, acts[2..], s);
    assert GuardedPath(s1, acts[1..], s);
    InitInv(z);
    GuardedInv(z, acts, s);
    t := OverwrittenStage(s);
  }

  // ---------------------------------------------------------------------------------------------
  // A whole cycle
  // ---------------------------------------------------------------------------------------------

  lemma Onto(s: State, acts: seq<Action>, m: State, a: Action)
    requires AlternatingPath(s, acts, m) && Enabled(m, a) && Alternates(m, a)
    ensures AlternatingPath(s, acts + [a], Next(m, a))
    decreases acts
  {
    if acts == [] {
      assert [] + [a] == [a] && [a][1..] == [];
    } else {
      Onto(Next(s, acts[0]), acts[1..], m, a);
      assert (acts + [a])[1..] == acts[1..] + [a];
    }
  }

  /** One process, and no other, is writing what it was called with. */
  ghost predicate WritesAlone(acts: seq<Action>, m: State, id: nat, v: Value) {
    && Inv(m) && m.client == Ready && m.storers.Keys == {id} && m.storers[id].Writing?
    && Argument(acts, id) == v && Stored(acts) == []
  }

  lemma WriteByte(s: State, acts: seq<Action>, m: State, id: nat, v: Value, j: nat) returns (more: seq<Action>, t: State)
    requires AlternatingPath(s, acts, m) && WritesAlone(acts, m, id, v) && j < m.size && j !in m.storers[id].done
    ensures AlternatingPath(s, more, t) && WritesAlone(more, t, id, v)
    ensures t.size == m.size && t.storers[id].done == m.storers[id].done + {j}
  {
    var a := StoreByte(id, j);
    StepInv(m, a);
    Onto(s, acts, m, a);
    more, t := acts + [a], Next(m, a);
    assert more[..|acts|] == acts;
  }

  lemma EndStore(s: State, acts: seq<Action>, m: State, id: nat, v: Value) returns (more: seq<Action>, t: State)
    requires AlternatingPath(s, acts, m) && WritesAlone(acts, m, id, v)
    requires forall j :: 0 <= j < m.size ==> j in m.storers[id].done
    ensures AlternatingPath(s, more, t) && Inv(t) && t.client == Ready && t.storers == map[] && Stored(more) == [v]
  {
    var a := StoreUnlock(id);
    StepInv(m, a);
    Onto(s, acts, m, a);
    more, t := acts + [a], Next(m, a);
    assert more[..|acts|] == acts;
  }

  /** A storing process that has the lock finishes. */
  lemma {:induction false} FinishStore(s: State, acts: seq<Action>, m: State, id: nat, v: Value) returns (more: seq<Action>, t: State)
    requires AlternatingPath(s, acts, m) && WritesAlone(acts, m, id, v)
    ensures AlternatingPath(s, more, t) && Inv(t) && t.client == Ready && t.storers == map[] && Stored(more) == [v]
    decreases Undone(m.size, m.storers[id].done)
  {
    hide Inv, AlternatingPath;
    if j: nat :| j < m.size && j !in m.storers[id].done {
      OneLess(m.size, m.storers[id].done, j);
      more, t := WriteByte(s, acts, m, id, v, j);
      more, t := FinishStore(s, more, t, id, v);
    } else {
      more, t := EndStore(s, acts, m, id, v);
    }
  }

  lemma BeginStore(s: State, id: nat, v: Value) returns (more: seq<Action>, t: State)
    requires Init(s) && |v| == s.size
    ensures AlternatingPath(s, more, t) && WritesAlone(more, t, id, v)
  {
    InitInv(s);
    var a1, s1 := StoreCall(id, v), Next(s, StoreCall(id, v));
    var a2, s2 := StoreLock(id), Next(s1, StoreLock(id));
    StepInv(s, a1);
    StepInv(s1, a2);
    Onto(s, [], s, a1);
    assert [] + [a1] == [a1];
    Onto(s, [a1], s1, a2);
    more, t := [a1, a2], s2;
    assert [a1] + [a2] == more && more[..1] == [a1] && [a1][..0] == [];
    assert Stored([a1]) == [] && Argument([a1], id) == v;
  }

  /** With no store about, the worker serves its trigger up to clearing the stage. */
  lemma {:induction false} Serve(s: State, acts: seq<Action>, m: State) returns (more: seq<Action>, t: State)
    requires AlternatingPath(s, acts, m) && Inv(m) && m.client == Loaded && m.storers == map[]
    requires Serving(m.worker) || m.triggered
    ensures AlternatingPath(s, more, t) && Inv(t) && t.client == Loaded && t.worker == Unstaged && t.storers == map[]
    ensures acts <= more && Stored(more) == Stored(acts) && StoredBeforeLoad(more) == StoredBeforeLoad(acts)
    decreases Rank(m.worker), Missing(m)
  {
    var a := Forward(m);
    ServesAlone(m, a);
    StepInv(m, a);
    Onto(s, acts, m, a);
    assert (acts + [a])[..|acts|] == acts;
    if a == WorkerUnstages {
      more, t := acts + [a], Next(m, a);
    } else {
      hide Next, Enabled, Inv;
      more, t := Serve(s, acts + [a], Next(m, a));
    }
  }

  lemma ServesAlone(m: State, a: Action)
    requires Inv(m) && m.client == Loaded && m.storers == map[] && (Serving(m.worker) || m.triggered) && Nearer(m, a)
    ensures a != LoadStage && !a.StoreUnlock? && !a.StoreCall? && Next(m, a).storers == map[] && Next(m, a).client == Loaded
    ensures a == WorkerUnstages ==> Next(m, a).worker == Unstaged
    ensures a != WorkerUnstages ==> Serving(Next(m, a).worker) || Next(m, a).triggered
  {
  }

  /** It all comes together: from every initial state, for every value, a `store`, then a `load` and a `wait`,
      and the snapshot is what was stored. */
  lemma StoreThenLoad(s: State, v: Value) returns (acts: seq<Action>, t: State)
    requires Init(s) && |v| == s.size
    ensures AlternatingPath(s, acts, t) && t.client == Ready && LoadStage in acts && Stored(acts) == [v]
    ensures Snapshot(t) == v
  {
    hide Inv, AlternatingPath, Stored, StoredBeforeLoad;
    var m;
    acts, m := BeginStore(s, 0, v);
    acts, m := FinishStore(s, acts, m, 0, v);
    acts, m := LoadAll(s, acts, m);
    acts, m := Serve(s, acts, m);
    acts, t := WaitAll(s, acts, m);
    SnapshotIsOneContent(s, acts, t);
  }

  lemma LoadAll(s: State, acts: seq<Action>, m: State) returns (more: seq<Action>, t: State)
    requires AlternatingPath(s, acts, m) && Inv(m) && m.client == Ready && m.storers == map[]
    ensures AlternatingPath(s, more, t) && Inv(t) && t.client == Loaded && t.triggered && t.storers == map[]
    ensures LoadStage in more && Stored(more) == Stored(acts) && StoredBeforeLoad(more) == |Stored(acts)|
  {
    more, t := Do(s, acts, m, LoadStage);
    more, t := Do(s, more, t, LoadClearIdle);
    more, t := Do(s, more, t, LoadTrigger);
  }

  lemma WaitAll(s: State, acts: seq<Action>, m: State) returns (more: seq<Action>, t: State)
    requires AlternatingPath(s, acts, m) && Inv(m) && m.client == Loaded && m.worker == Unstaged && LoadStage in acts
    ensures AlternatingPath(s, more, t) && t.client == Ready
    ensures LoadStage in more && Stored(more) == Stored(acts) && StoredBeforeLoad(more) == StoredBeforeLoad(acts)
  {
    more, t := Do(s, acts, m, WorkerPublishes);
    more, t := Do(s, more, t, WorkerUnlocks);
    more, t := Do(s, more, t, WorkerFinishes);
    more, t := Do(s, more, t, WaitReturns);
  }

  /** One more step, that finishes no store. */
  lemma Do(s: State, acts: seq<Action>, m: State, a: Action) returns (more: seq<Action>, t: State)
    requires AlternatingPath(s, acts, m) && Inv(m) && Enabled(m, a) && Alternates(m, a) && !a.StoreUnlock?
    ensures more == acts + [a] && t == Next(m, a) && AlternatingPath(s, more, t) && Inv(t)
    ensures Stored(more) == Stored(acts)
    ensures StoredBeforeLoad(more) == if a == LoadStage then |Stored(acts)| else StoredBeforeLoad(acts)
  {
    more, t := acts + [a], Next(m, a);
    StepInv(m, a);
    Onto(s, acts, m, a);
    assert more[..|acts|] == acts;
  }
}
