/** The double buffer over the futex lock: `DoubleBuffer` with the holder replaced by the word, the
    threads and the wait queue of `ShmLock`. */
module DoubleBufferLock {
  import opened Options
  import DB = DoubleBuffer
  import ShmLock

  datatype State = State(db: DB.State, lock: ShmLock.State)

  /** A step inside `lock` or `unlock` that does not change the holder; the exchange that takes the lock;
      the store that frees it; and everything else. The worker is thread 0, a storing process id is
      thread id + 1. */
  datatype Action =
    | Contend(step: ShmLock.Action)
    | Acquire(thread: nat)
    | Release(thread: nat)
    | Work(a: DB.Action)

  function TakeBy(thread: nat): DB.Action {
    if thread == 0 then DB.WorkerLocks else DB.StoreLock(thread - 1)
  }

  function FreeBy(thread: nat): DB.Action {
    if thread == 0 then DB.WorkerUnlocks else DB.StoreUnlock(thread - 1)
  }

  function ThreadOf(h: DB.Holder): Option<nat> {
    match h
    case Free => None
    case ByWorker => Some(0)
    case ByStorer(id) => Some(id + 1)
  }

  /** The thread is in its call of `lock`. */
  predicate AtLock(s: DB.State, thread: nat) {
    if thread == 0 then s.worker == DB.Locking
    else thread - 1 in s.storers && s.storers[thread - 1].Wanting?
  }

  predicate LockStep(a: DB.Action) {
    a == DB.WorkerLocks || a == DB.WorkerUnlocks || a.StoreLock? || a.StoreUnlock?
  }

  /** Only the word decides who gets the lock. */
  predicate Enabled(s: State, a: Action) {
    && |s.db.shm| == |s.db.private| == s.db.size
    && match a
       case Contend(step) =>
         ShmLock.Enabled(s.lock, step) && !step.Release? && !(step.Exchange? && s.lock.word == 0)
       case Acquire(thread) =>
         ShmLock.Enabled(s.lock, ShmLock.Exchange(thread)) && s.lock.word == 0 && AtLock(s.db, thread)
       case Release(thread) =>
         ShmLock.Enabled(s.lock, ShmLock.Release(thread)) && DB.Enabled(s.db, FreeBy(thread))
       case Work(b) => DB.Enabled(s.db, b) && !LockStep(b)
  }

  /** What the step is for the double buffer. */
  function Shown(a: Action): Option<DB.Action> {
    match a
    case Contend(_) => None
    case Acquire(thread) => Some(TakeBy(thread))
    case Release(thread) => Some(FreeBy(thread))
    case Work(b) => Some(b)
  }

  ghost predicate Agree(s: State) {
    ShmLock.Exclusive(s.lock) && ShmLock.Holder(s.lock) == ThreadOf(s.db.holder)
  }

  ghost predicate Next(s: State, a: Action, t: State)
    requires Enabled(s, a)
  {
    && (match a
        case Contend(step) => t.lock == ShmLock.Next(s.lock, step)
        case Acquire(thread) => t.lock == ShmLock.Next(s.lock, ShmLock.Exchange(thread))
        case Release(thread) => t.lock == ShmLock.Next(s.lock, ShmLock.Release(thread))
        case Work(_) => t.lock == s.lock)
    && match Shown(a)
       case None => t.db == s.db
       case Some(b) => if DB.Enabled(s.db, b) then t.db == DB.Next(s.db, b) else t.db == s.db
  }

  /** A free word means a free lock: the thread that takes the word may take the double buffer's lock,
      and word and holder go on agreeing. */
  lemma StepAgrees(s: State, a: Action, t: State)
    requires Agree(s) && Enabled(s, a) && Next(s, a, t)
    ensures Agree(t)
    ensures match Shown(a)
            case None => t.db == s.db
            case Some(b) => DB.Enabled(s.db, b) && t.db == DB.Next(s.db, b)
  {
    match a
    case Contend(step) => ShmLock.RefinesAbstractLock(s.lock, step);
    case Acquire(thread) => ShmLock.RefinesAbstractLock(s.lock, ShmLock.Exchange(thread));
    case Release(thread) => ShmLock.RefinesAbstractLock(s.lock, ShmLock.Release(thread));
    case Work(b) =>
      HolderStays(s.db, b);
      hide DB.Enabled, DB.Next;
  }

  lemma HolderStays(s: DB.State, b: DB.Action)
    requires DB.Enabled(s, b) && !LockStep(b)
    ensures DB.Next(s, b).holder == s.holder
  {
    match b
    case WorkerCopies(_) =>
    case WorkerLocks =>
    case WorkerUnlocks =>
    case _ =>
  }

  /** A client that waits before it loads again. */
  predicate Alternates(s: State, a: Action) {
    a == Work(DB.LoadStage) ==> s.db.client == DB.Ready
  }

  ghost predicate Run(run: seq<State>, acts: seq<Action>) {
    && |run| == |acts| + 1
    && forall n :: 0 <= n < |acts| ==> Enabled(run[n], acts[n]) && Alternates(run[n], acts[n]) && Next(run[n], acts[n], run[n + 1])
  }

  ghost predicate Init(s: State) {
    DB.Init(s.db) && ShmLock.Init(s.lock)
  }

  lemma InitAgrees(s: State)
    requires Init(s)
    ensures Agree(s)
  {
  }

  /** The double buffer's actions in a run over the futex. */
  function ShownAll(acts: seq<Action>): seq<DB.Action> {
    if acts == [] then []
    else (if Shown(acts[0]).Some? then [Shown(acts[0]).value] else []) + ShownAll(acts[1..])
  }

  /** Every run over the futex shows a run of the double buffer: all that holds of those holds here. */
  lemma {:induction false} RunShows(run: seq<State>, acts: seq<Action>)
    requires Run(run, acts) && Agree(run[0])
    ensures DB.AlternatingPath(run[0].db, ShownAll(acts), run[|acts|].db)
    ensures DB.LoadStage in ShownAll(acts) <==> Work(DB.LoadStage) in acts
    decreases acts
  {
    if acts != [] {
      StepShows(run[0], acts[0], run[1]);
      Tail(run, acts);
      hide Agree, Next, Enabled, Alternates, DB.Enabled, DB.Next, DB.Alternates, Shown;
      RunShows(run[1..], acts[1..]);
      assert acts == [acts[0]] + acts[1..];
      assert run[1..][|acts[1..]|] == run[|acts|] && run[1..][0] == run[1];
      match Shown(acts[0])
      case None => assert ShownAll(acts) == ShownAll(acts[1..]) && run[1].db == run[0].db;
      case Some(b) => InFront(run[0].db, b, ShownAll(acts[1..]), run[|acts|].db);
    }
  }

  lemma InFront(s: DB.State, b: DB.Action, rest: seq<DB.Action>, t: DB.State)
    requires DB.Enabled(s, b) && DB.Alternates(s, b) && DB.AlternatingPath(DB.Next(s, b), rest, t)
    ensures DB.AlternatingPath(s, [b] + rest, t)
  {
    assert ([b] + rest)[1..] == rest;
  }

  lemma StepShows(s: State, a: Action, t: State)
    requires Agree(s) && Enabled(s, a) && Alternates(s, a) && Next(s, a, t)
    ensures Agree(t)
    ensures Shown(a) == Some(DB.LoadStage) <==> a == Work(DB.LoadStage)
    ensures match Shown(a)
            case None => t.db == s.db
            case Some(b) => DB.Enabled(s.db, b) && DB.Alternates(s.db, b) && t.db == DB.Next(s.db, b)
  {
    StepAgrees(s, a, t);
  }

  lemma Tail(run: seq<State>, acts: seq<Action>)
    requires Run(run, acts) && acts != []
    ensures Run(run[1..], acts[1..])
  {
    forall n | 0 <= n < |acts| - 1
      ensures Enabled(run[1..][n], acts[1..][n]) && Alternates(run[1..][n], acts[1..][n]) && Next(run[1..][n], acts[1..][n], run[1..][n + 1])
    {
      assert run[1..][n] == run[n + 1] && acts[1..][n] == acts[n + 1];
    }
  }

  /** In particular the snapshot after a `load` and a `wait` is the initial content or the argument of one
      finished `store`, none older than the last one finished before the `load`, with real threads contending
      for the real lock. */
  lemma SnapshotOverFutex(run: seq<State>, acts: seq<Action>)
    requires Run(run, acts) && Init(run[0]) && Work(DB.LoadStage) in acts && run[|acts|].db.client == DB.Ready
    ensures var shown, s, t := ShownAll(acts), run[0].db, run[|acts|].db;
            exists n: nat :: DB.StoredBeforeLoad(shown) <= n <= |DB.Stored(shown)|
                             && DB.Snapshot(t) == ([s.shm] + DB.Stored(shown))[n]
  {
    InitAgrees(run[0]);
    RunShows(run, acts);
    DB.SnapshotIsOneContent(run[0].db, ShownAll(acts), run[|acts|].db);
  }
}
