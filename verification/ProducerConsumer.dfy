/** `ProducerConsumer`: any number of producers and consumers around one shared value and two
    semaphores. Every byte written, and every byte a consumer reads, is a step of its own. */
module ProducerConsumer {
  import opened Bits

  /** A thread in `produce(v)`: in `wait` on the write semaphore, or writing. In `consume`: in `wait`
      on the read semaphore; in the callback, with the bytes it has seen; past the callback, about to
      post; or gone because the callback threw. */
  datatype Thread =
    | Producing(v: Value)
    | Writing(v: Value, done: set<nat>)
    | Consuming
    | Reading(seen: map<nat, byte>)
    | Returned
    | Threw

  /** `produced` lists the values posted to readers, `consumed` those whose callback returned. */
  datatype State = State(
    size: nat,
    shm: Value,
    semRead: nat,
    semWrite: nat,
    threads: map<nat, Thread>,
    produced: seq<Value>,
    consumed: seq<Value>)

  datatype Action =
    | ProduceCall(id: nat, v: Value)
    | WaitWrite(id: nat)
    | WriteByte(id: nat, j: nat)
    | PostRead(id: nat)
    | ConsumeCall(id: nat)
    | WaitRead(id: nat)
    | ReadByte(id: nat, j: nat)
    | CallbackReturns(id: nat)
    | CallbackThrows(id: nat)
    | PostWrite(id: nat)

  predicate Init(s: State) {
    |s.shm| == s.size && s.semRead == 0 && s.semWrite == 1 && s.threads == map[] && s.produced == s.consumed == []
  }

  predicate Enabled(s: State, a: Action) {
    && |s.shm| == s.size
    && (a.ProduceCall? || a.ConsumeCall? <==> a.id !in s.threads)
    && match a
       case ProduceCall(_, v) => |v| == s.size
       case WaitWrite(id) => s.threads[id].Producing? && s.semWrite > 0
       case WriteByte(id, j) => s.threads[id].Writing? && j < s.size == |s.threads[id].v| && j !in s.threads[id].done
       case PostRead(id) => s.threads[id].Writing? && forall j :: 0 <= j < s.size ==> j in s.threads[id].done
       case ConsumeCall(_) => true
       case WaitRead(id) => s.threads[id].Consuming? && s.semRead > 0
       // a callback may read any byte, again and again
       case ReadByte(id, j) => s.threads[id].Reading? && j < s.size
       case CallbackReturns(id) => s.threads[id].Reading? && forall j :: 0 <= j < s.size ==> j in s.threads[id].seen
       case CallbackThrows(id) => s.threads[id].Reading?
       case PostWrite(id) => s.threads[id].Returned?
  }

  /** The value put together from the bytes a callback saw. */
  function Assembled(size: nat, seen: map<nat, byte>): Value {
    seq(size, j => if j in seen then seen[j] else 0)
  }

  function Next(s: State, a: Action): State
    requires Enabled(s, a)
  {
    match a
    case ProduceCall(id, v) => s.(threads := s.threads[id := Producing(v)])
    case WaitWrite(id) =>
      s.(semWrite := s.semWrite - 1, threads := s.threads[id := Writing(s.threads[id].v, {})])
    case WriteByte(id, j) =>
      var w := s.threads[id];
      s.(shm := s.shm[j := w.v[j]], threads := s.threads[id := w.(done := w.done + {j})])
    case PostRead(id) =>
      s.(semRead := s.semRead + 1, threads := s.threads - {id}, produced := s.produced + [s.threads[id].v])
    case ConsumeCall(id) => s.(threads := s.threads[id := Consuming])
    case WaitRead(id) => s.(semRead := s.semRead - 1, threads := s.threads[id := Reading(map[])])
    case ReadByte(id, j) => s.(threads := s.threads[id := Reading(s.threads[id].seen[j := s.shm[j]])])
    case CallbackReturns(id) =>
      s.(threads := s.threads[id := Returned], consumed := s.consumed + [Assembled(s.size, s.threads[id].seen)])
    case CallbackThrows(id) => s.(threads := s.threads[id := Threw])
    case PostWrite(id) => s.(semWrite := s.semWrite + 1, threads := s.threads - {id})
  }

  ghost predicate Path(s: State, acts: seq<Action>, t: State)
    decreases acts
  {
    if acts == [] then s == t else Enabled(s, acts[0]) && Path(Next(s, acts[0]), acts[1..], t)
  }

  // ---------------------------------------------------------------------------------------------
  // One token
  // ---------------------------------------------------------------------------------------------

  /** Between a semaphore `wait` and the matching `post`. */
  predicate Between(t: Thread) {
    t.Writing? || t.Reading? || t.Returned? || t.Threw?
  }

  function Inside(threads: map<nat, Thread>): set<nat> {
    set id | id in threads && Between(threads[id])
  }

  /** The two semaphores and the threads between a `wait` and its `post` sum to one. */
  predicate OneToken(s: State) {
    s.semRead + s.semWrite + |Inside(s.threads)| == 1
  }

  lemma InsideSet(threads: map<nat, Thread>, id: nat, t: Thread)
    ensures Inside(threads[id := t]) == if Between(t) then Inside(threads) + {id} else Inside(threads) - {id}
  {
  }

  lemma InsideRemove(threads: map<nat, Thread>, id: nat)
    ensures Inside(threads - {id}) == Inside(threads) - {id}
  {
  }

  lemma StepToken(s: State, a: Action)
    requires OneToken(s) && Enabled(s, a)
    ensures OneToken(Next(s, a))
  {
    InsideRemove(s.threads, a.id);
    if a.id in Next(s, a).threads {
      InsideSet(s.threads, a.id, Next(s, a).threads[a.id]);
    }
  }

  lemma {:induction false} SetOfOne(x: nat, y: nat, all: set<nat>)
    requires x in all && y in all && |all| <= 1
    ensures x == y
  {
    assert |all - {x}| == 0;
  }

  /** A thread between `wait` and `post` has both semaphores at zero and the value to itself. */
  lemma Alone(s: State, id: nat)
    requires OneToken(s) && id in s.threads && Between(s.threads[id])
    ensures s.semRead == s.semWrite == 0
    ensures forall other :: other in s.threads && Between(s.threads[other]) ==> other == id
  {
    assert id in Inside(s.threads);
    forall other | other in s.threads && Between(s.threads[other]) ensures other == id {
      SetOfOne(id, other, Inside(s.threads));
    }
  }

  // ---------------------------------------------------------------------------------------------
  // Exactly once, in order
  // ---------------------------------------------------------------------------------------------

  /** One value has been posted and not yet consumed, and the shared value is it. */
  predicate Full(s: State) {
    |s.produced| == |s.consumed| + 1 && s.shm == s.produced[|s.consumed|]
  }

  predicate Agrees(s: State, t: Thread)
    requires |s.shm| == s.size
  {
    match t
    case Producing(v) => |v| == s.size
    case Writing(v, done) =>
      |v| == s.size && s.produced == s.consumed && forall j :: 0 <= j < s.size && j in done ==> s.shm[j] == v[j]
    case Consuming => true
    case Reading(seen) => Full(s) && forall j :: 0 <= j < s.size && j in seen ==> seen[j] == s.shm[j]
    case Returned => s.produced == s.consumed
    case Threw => Full(s)
  }

  ghost predicate Inv(s: State) {
    && OneToken(s) && |s.shm| == s.size
    && s.consumed <= s.produced && |s.produced| <= |s.consumed| + 1
    && (s.semRead == 1 ==> Full(s))
    && (s.semWrite == 1 ==> s.produced == s.consumed)
    && forall id :: id in s.threads ==> Agrees(s, s.threads[id])
  }

  lemma InitInv(s: State)
    requires Init(s)
    ensures Inv(s)
  {
    assert Inside(s.threads) == {};
  }

  lemma StepInv(s: State, a: Action)
    requires Inv(s) && Enabled(s, a)
    ensures Inv(Next(s, a))
  {
    StepToken(s, a);
    var t := Next(s, a);
    if a.id in s.threads && Between(s.threads[a.id]) {
      Alone(s, a.id);
    }
    if a.id in t.threads && Between(t.threads[a.id]) {
      Alone(t, a.id);
    }
    if a.PostRead? {
      assert s.shm == s.threads[a.id].v;
    }
    if a.CallbackReturns? {
      assert Assembled(s.size, s.threads[a.id].seen) == s.shm;
    }
    forall id | id in t.threads ensures Agrees(t, t.threads[id]) {
    }
  }

  lemma {:induction false} PathInv(s: State, acts: seq<Action>, t: State)
    requires Inv(s) && Path(s, acts, t)
    ensures Inv(t)
    decreases acts
  {
    if acts != [] {
      StepInv(s, acts[0]);
      PathInv(Next(s, acts[0]), acts[1..], t);
    }
  }

  /** The value that thread id passed to its last call of `produce`. */
  function Argument(acts: seq<Action>, id: nat): Value {
    if acts == [] then []
    else
      var a := acts[|acts| - 1];
      if a.ProduceCall? && a.id == id then a.v else Argument(acts[..|acts| - 1], id)
  }

  /** The arguments of the calls of `produce`, in the order of their posts. */
  function Posts(acts: seq<Action>): seq<Value> {
    if acts == [] then []
    else
      var front, a := acts[..|acts| - 1], acts[|acts| - 1];
      Posts(front) + if a.PostRead? then [Argument(front, a.id)] else []
  }

  /** The state's records are what the actions say. */
  ghost predicate Recorded(acts: seq<Action>, s: State) {
    && s.produced == Posts(acts)
    && forall id :: id in s.threads ==>
                      && (s.threads[id].Producing? ==> s.threads[id].v == Argument(acts, id))
                      && (s.threads[id].Writing? ==> s.threads[id].v == Argument(acts, id))
  }

  lemma RecordedStep(acts: seq<Action>, s: State, a: Action)
    requires Recorded(acts, s) && Enabled(s, a)
    ensures Recorded(acts + [a], Next(s, a))
  {
    assert (acts + [a])[..|acts|] == acts;
  }

  lemma {:induction false} RecordedKept(before: seq<Action>, s: State, acts: seq<Action>, t: State)
    requires Recorded(before, s) && Path(s, acts, t)
    ensures Recorded(before + acts, t)
    decreases acts
  {
    if acts == [] {
      assert before + acts == before;
    } else {
      RecordedStep(before, s, acts[0]);
      assert before + acts == before + [acts[0]] + acts[1..];
      RecordedKept(before + [acts[0]], Next(s, acts[0]), acts[1..], t);
    }
  }

  lemma ProducedIsPosts(s: State, acts: seq<Action>, t: State)
    requires Init(s) && Path(s, acts, t)
    ensures t.produced == Posts(acts)
  {
    assert Recorded([], s);
    RecordedKept([], s, acts, t);
    assert [] + acts == acts;
  }

  /** Every value handed to a consumer is whole; they come in the order produced, none twice, none
      skipped, and at most the last one is still to be consumed. */
  lemma ExactlyOnceInOrder(s: State, acts: seq<Action>, t: State)
    requires Init(s) && Path(s, acts, t)
    ensures t.consumed <= Posts(acts) && |Posts(acts)| <= |t.consumed| + 1
    ensures t.semRead + t.semWrite + |Inside(t.threads)| == 1
  {
    InitInv(s);
    PathInv(s, acts, t);
    ProducedIsPosts(s, acts, t);
  }

  /** The value a callback has a reference to does not change until the callback is over. */
  lemma NothingMovesUnderACallback(s: State, acts: seq<Action>, t: State, id: nat, a: Action)
    requires Init(s) && Path(s, acts, t) && id in t.threads && t.threads[id].Reading? && Enabled(t, a)
    ensures Posts(acts) == t.consumed + [t.shm] && Next(t, a).shm == t.shm
  {
    InitInv(s);
    PathInv(s, acts, t);
    ProducedIsPosts(s, acts, t);
    Alone(t, id);
    assert Agrees(t, t.threads[id]);
  }

  // ---------------------------------------------------------------------------------------------
  // Progress, and what a throwing callback does
  // ---------------------------------------------------------------------------------------------

  /** Unless a callback threw, a producer and a consumer never block each other: some thread that is
      already in a call can take a step. */
  lemma SomebodyMoves(s: State, p: nat, c: nat) returns (a: Action)
    requires Inv(s) && p in s.threads && s.threads[p].Producing? && c in s.threads && s.threads[c].Consuming?
    requires forall id :: id in s.threads ==> !s.threads[id].Threw?
    ensures Enabled(s, a) && !a.ProduceCall? && !a.ConsumeCall? && !a.CallbackThrows?
  {
    if s.semWrite == 1 {
      a := WaitWrite(p);
    } else if s.semRead == 1 {
      a := WaitRead(c);
    } else {
      assert Inside(s.threads) != {};
      var id :| id in Inside(s.threads);
      assert Agrees(s, s.threads[id]);
      match s.threads[id]
      case Writing(v, done) =>
        if j: nat :| j < s.size && j !in done { a := WriteByte(id, j); } else { a := PostRead(id); }
      case Reading(seen) =>
        if j: nat :| j < s.size && j !in seen { a := ReadByte(id, j); } else { a := CallbackReturns(id); }
      case Returned => a := PostWrite(id);
    }
  }

  /** After a callback throws nothing is produced or consumed any more, by anyone. */
  lemma {:induction false} ThrowIsFinal(s: State, id: nat, acts: seq<Action>, t: State)
    requires Inv(s) && id in s.threads && s.threads[id].Threw? && Path(s, acts, t)
    ensures t.produced == s.produced && t.consumed == s.consumed && t.shm == s.shm
    ensures t.semRead == t.semWrite == 0
    decreases acts
  {
    Alone(s, id);
    if acts != [] {
      StepInv(s, acts[0]);
      ThrowIsFinal(Next(s, acts[0]), id, acts[1..], t);
    }
  }

  lemma PathStep(s: State, a: Action, acts: seq<Action>, t: State)
    requires Enabled(s, a) && Path(Next(s, a), acts, t)
    ensures Path(s, [a] + acts, t)
  {
    assert ([a] + acts)[1..] == acts;
  }

  /** A producer that holds the token can finish, and a waiting consumer enter and throw. */
  lemma {:induction false} ThrowFollows(s: State) returns (acts: seq<Action>, t: State)
    requires Inv(s) && s.semRead == s.semWrite == 0 && 1 in s.threads && s.threads[1].Consuming?
    requires 0 in s.threads && s.threads[0].Writing?
    ensures Path(s, acts, t) && 1 in t.threads && t.threads[1].Threw?
    decreases |set j: nat | j < s.size && j !in s.threads[0].done|
  {
    if j: nat :| j < s.size && j !in s.threads[0].done {
      var a := WriteByte(0, j);
      StepInv(s, a);
      var left, left' := set i: nat | i < s.size && i !in s.threads[0].done, set i: nat | i < s.size && i !in Next(s, a).threads[0].done;
      assert left' == left - {j};
      acts, t := ThrowFollows(Next(s, a));
      PathStep(s, a, acts, t);
      acts := [a] + acts;
    } else {
      var s1 := Next(s, PostRead(0));
      var s2 := Next(s1, WaitRead(1));
      t := Next(s2, CallbackThrows(1));
      acts := [];
      assert Path(t, acts, t);
      PathStep(s2, CallbackThrows(1), acts, t);
      acts := [CallbackThrows(1)] + acts;
      PathStep(s1, WaitRead(1), acts, t);
      acts := [WaitRead(1)] + acts;
      PathStep(s, PostRead(0), acts, t);
      acts := [PostRead(0)] + acts;
    }
  }

  /** It does happen: from every initial state, for every value, one producer and one consumer whose callback
      throws bring it about. */
  lemma ThrowHappens(s: State, v: Value) returns (acts: seq<Action>, t: State)
    requires Init(s) && |v| == s.size
    ensures Path(s, acts, t) && 1 in t.threads && t.threads[1].Threw?
  {
    var s1 := Next(s, ProduceCall(0, v));
    var s2 := Next(s1, ConsumeCall(1));
    var s3 := Next(s2, WaitWrite(0));
    InitInv(s);
    StepInv(s, ProduceCall(0, v));
    StepInv(s1, ConsumeCall(1));
    StepInv(s2, WaitWrite(0));
    acts, t := ThrowFollows(s3);
    PathStep(s2, WaitWrite(0), acts, t);
    acts := [WaitWrite(0)] + acts;
    PathStep(s1, ConsumeCall(1), acts, t);
    acts := [ConsumeCall(1)] + acts;
    PathStep(s, ProduceCall(0, v), acts, t);
    acts := [ProduceCall(0, v)] + acts;
  }
}
