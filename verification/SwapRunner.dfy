/** `SwapRunner`: any number of clients in `trigger` and `wait`, one worker thread in `run`, outside
    shutdown. Each atomic access is one step; a blocking `wait` on an atomic is a step that is enabled
    while the value differs. */
module SwapRunner {
  /** A client: between calls; past the store that clears `idle_`; past the store to `triggered_`
      (so free to call `wait`). `open` says a trigger has begun since its last `wait` returned.
      Records: finished trigger/wait pairs, and the finished executions when its current pair began. */
  datatype Client = Client(half: bool, open: bool, pairs: nat, base: nat)

  /** The worker: blocked on `triggered_`, past that wait, or running the task. */
  datatype Worker = Blocked | Seen | Running

  datatype State = State(
    triggered: bool,
    idle: bool,
    worker: Worker,
    clients: map<nat, Client>,
    triggers: nat,
    started: nat,
    finished: nat)

  datatype Action =
    | ClearIdle(id: nat)
    | SetTriggered(id: nat)
    | WaitReturns(id: nat)
    | WorkerWakes
    | WorkerClears
    | TaskEnds

  predicate Init(s: State) {
    && !s.triggered && s.idle && s.worker == Blocked
    && s.triggers == s.started == s.finished == 0
    && forall id :: id in s.clients ==> s.clients[id] == Client(false, false, 0, 0)
  }

  predicate Enabled(s: State, a: Action) {
    match a
    case ClearIdle(id) => id in s.clients && !s.clients[id].half
    case SetTriggered(id) => id in s.clients && s.clients[id].half
    case WaitReturns(id) => id in s.clients && !s.clients[id].half && s.idle
    case WorkerWakes => s.worker == Blocked && s.triggered
    case WorkerClears => s.worker == Seen
    case TaskEnds => s.worker == Running
  }

  /** The task may throw: the worker catches it and goes on as if it had returned. */
  function Next(s: State, a: Action): State
    requires Enabled(s, a)
  {
    match a
    case ClearIdle(id) =>
      var c := s.clients[id];
      s.(idle := false,
      clients := s.clients[id := c.(half := true, open := true, base := if c.open then c.base else s.finished)])
    case SetTriggered(id) =>
      s.(triggered := true, triggers := s.triggers + 1, clients := s.clients[id := s.clients[id].(half := false)])
    case WaitReturns(id) =>
      var c := s.clients[id];
      s.(clients := s.clients[id := if c.open then c.(open := false, pairs := c.pairs + 1) else c])
    case WorkerWakes => s.(worker := Seen)
    case WorkerClears => s.(triggered := false, worker := Running, started := s.started + 1)
    case TaskEnds => s.(idle := true, worker := Blocked, finished := s.finished + 1)
  }

  /** `idle_` is 0 only while a trigger is half-done, pending, or being served. */
  ghost predicate Busy(s: State) {
    (exists id :: id in s.clients && s.clients[id].half) || s.triggered || s.worker != Blocked
  }

  /** In an open pair, an idle flag means the worker finished something since the pair began. */
  ghost predicate ClientInv(s: State, c: Client) {
    && c.pairs <= s.finished
    && (c.half ==> c.open)
    && (c.open ==> c.pairs <= c.base <= s.finished)
    && (c.open && s.idle ==> c.base < s.finished)
  }

  ghost predicate Inv(s: State) {
    && (!s.idle ==> Busy(s))
    && s.started == s.finished + (if s.worker == Running then 1 else 0)
    && s.started + (if s.triggered then 1 else 0) <= s.triggers
    && (s.worker == Seen ==> s.triggered)
    && forall id :: id in s.clients ==> ClientInv(s, s.clients[id])
  }

  lemma StepInv(s: State, a: Action)
    requires Inv(s) && Enabled(s, a)
    ensures Inv(Next(s, a))
  {
    var t := Next(s, a);
    forall id | id in t.clients
      ensures ClientInv(t, t.clients[id])
    {
      assert ClientInv(s, s.clients[id]);
    }
    if a.ClearIdle? {
      assert t.clients[a.id].half;
    }
  }

  ghost predicate Path(s: State, acts: seq<Action>, t: State)
    decreases acts
  {
    if acts == [] then s == t else Enabled(s, acts[0]) && Path(Next(s, acts[0]), acts[1..], t)
  }

  lemma {:induction false} PathInv(s: State, acts: seq<Action>, t: State)
    requires Inv(s) && Path(s, acts, t)
    ensures Inv(t)
    decreases acts
  {
    if acts != [] {
      StepInv(s, acts[0]);
      PathInv(Next(s, acts[0]), acts[1..], t);
    }
  }

  // The run told by its actions.

  /** Triggers made, tasks begun, and tasks ended. */
  function Triggers(acts: seq<Action>): nat {
    if acts == [] then 0 else (if acts[0].SetTriggered? then 1 else 0) + Triggers(acts[1..])
  }

  function Begun(acts: seq<Action>): nat {
    if acts == [] then 0 else (if acts[0] == WorkerClears then 1 else 0) + Begun(acts[1..])
  }

  function Ended(acts: seq<Action>): nat {
    if acts == [] then 0 else (if acts[0] == TaskEnds then 1 else 0) + Ended(acts[1..])
  }

  /** The returns of `wait` of client id that follow a trigger of its own; `open` says one has begun. */
  function Pairs(acts: seq<Action>, id: nat, open: bool): nat {
    if acts == [] then 0
    else if acts[0] == ClearIdle(id) then Pairs(acts[1..], id, true)
    else if acts[0] == WaitReturns(id) then (if open then 1 else 0) + Pairs(acts[1..], id, false)
    else Pairs(acts[1..], id, open)
  }

  /** The records in the state are those counts. */
  lemma {:induction false} RecordsAreCounts(s: State, acts: seq<Action>, t: State)
    requires Path(s, acts, t)
    ensures t.triggers == s.triggers + Triggers(acts) && t.started == s.started + Begun(acts) && t.finished == s.finished + Ended(acts)
    decreases acts
  {
    if acts != [] {
      RecordsAreCounts(Next(s, acts[0]), acts[1..], t);
    }
  }

  lemma {:induction false} PairsAreCounted(s: State, acts: seq<Action>, t: State, id: nat)
    requires Path(s, acts, t) && id in s.clients
    ensures id in t.clients && t.clients[id].pairs == s.clients[id].pairs + Pairs(acts, id, s.clients[id].open)
    decreases acts
  {
    if acts != [] {
      PairsAreCounted(Next(s, acts[0]), acts[1..], t, id);
    }
  }

  /** In every run with any number of clients: `idle_` is 0 only for a reason; tasks ended never exceed triggers
      made, nor tasks begun; and they are at least the trigger/wait pairs any one client has completed. */
  lemma Handshake(s: State, acts: seq<Action>, t: State)
    requires Init(s) && Path(s, acts, t)
    ensures !t.idle ==> Busy(t)
    ensures Ended(acts) <= Begun(acts) <= Triggers(acts)
    ensures forall id :: id in s.clients ==> Pairs(acts, id, false) <= Ended(acts)
  {
    PathInv(s, acts, t);
    RecordsAreCounts(s, acts, t);
    forall id | id in s.clients
      ensures Pairs(acts, id, false) <= Ended(acts)
    {
      PairsAreCounted(s, acts, t, id);
      assert ClientInv(t, t.clients[id]);
    }
  }

  /** `wait` cannot hang: from any reachable state with `idle_` at 0, at most four steps of a client
      inside `trigger` and of the worker, with no further call, set it again. */
  lemma WaitCanReturn(s: State, acts: seq<Action>, t: State) returns (more: seq<Action>, u: State)
    requires Init(s) && Path(s, acts, t)
    ensures |more| <= 4 && Path(t, more, u) && u.idle
    ensures forall a :: a in more ==> a.SetTriggered? || a.WorkerWakes? || a.WorkerClears? || a.TaskEnds?
  {
    PathInv(s, acts, t);
    if t.idle {
      more, u := [], t;
    } else if t.worker != Blocked || t.triggered {
      more, u := Drain(t);
    } else {
      var id :| id in t.clients && t.clients[id].half;
      var m := Next(t, SetTriggered(id));
      var rest;
      rest, u := Drain(m);
      more := [SetTriggered(id)] + rest;
      assert more[1..] == rest;
    }
  }

  lemma Drain(t: State) returns (more: seq<Action>, u: State)
    requires t.worker != Blocked || t.triggered
    ensures |more| <= 3 && Path(t, more, u) && u.idle
    ensures forall a :: a in more ==> a.WorkerWakes? || a.WorkerClears? || a.TaskEnds?
    decreases if t.worker == Blocked then 2 else if t.worker == Seen then 1 else 0
  {
    if t.worker == Running {
      more, u := [TaskEnds], Next(t, TaskEnds);
      assert more[1..] == [];
    } else if t.worker == Seen {
      var m := Next(t, WorkerClears);
      u := Next(m, TaskEnds);
      more := [WorkerClears, TaskEnds];
      assert more[1..][1..] == [];
    } else {
      var m := Next(t, WorkerWakes);
      var m' := Next(m, WorkerClears);
      u := Next(m', TaskEnds);
      more := [WorkerWakes, WorkerClears, TaskEnds];
      assert more[1..] == [WorkerClears, TaskEnds] && more[1..][1..] == [TaskEnds] && more[1..][1..][1..] == [];
    }
  }

  // ---------------------------------------------------------------------------------------------
  // One client that waits after every trigger
  // ---------------------------------------------------------------------------------------------

  /** The client never triggers again before its `wait` has returned. */
  predicate Alternates(s: State, a: Action) {
    a.ClearIdle? && a.id in s.clients ==> !s.clients[a.id].open
  }

  ghost predicate AlternatingPath(s: State, acts: seq<Action>, t: State)
    decreases acts
  {
    if acts == [] then s == t
    else Enabled(s, acts[0]) && Alternates(s, acts[0]) && AlternatingPath(Next(s, acts[0]), acts[1..], t)
  }

  /** With one alternating client, triggers and executions move in step. */
  ghost predicate LoneInv(s: State, id: nat) {
    && s.clients.Keys == {id}
    && s.started == s.finished + (if s.worker == Running then 1 else 0)
    && var c := s.clients[id];
    if !c.open then
      !c.half && s.idle && !s.triggered && s.worker == Blocked && s.triggers == s.finished
    else if c.half then
      !s.idle && !s.triggered && s.worker == Blocked && s.triggers == s.finished
    else if s.triggered then
      !s.idle && s.worker != Running && s.triggers == s.finished + 1
    else if s.worker == Running then
      !s.idle && s.triggers == s.finished + 1
    else
      s.worker == Blocked && s.idle && s.triggers == s.finished
  }

  lemma {:induction false} LonePath(s: State, acts: seq<Action>, t: State, id: nat)
    requires LoneInv(s, id) && AlternatingPath(s, acts, t)
    ensures LoneInv(t, id)
    decreases acts
  {
    if acts != [] {
      assert LoneInv(Next(s, acts[0]), id);
      LonePath(Next(s, acts[0]), acts[1..], t, id);
    }
  }

  /** A lone alternating client finds, whenever `wait` returns, exactly as many tasks ended as it has triggered,
      and the worker at rest until its next trigger. */
  lemma LoneClientSeesEveryTrigger(s: State, acts: seq<Action>, t: State, id: nat)
    requires Init(s) && s.clients.Keys == {id} && AlternatingPath(s, acts, t)
    requires Enabled(t, WaitReturns(id))
    ensures Ended(acts) == Triggers(acts) && t.worker == Blocked && !t.triggered
  {
    LonePath(s, acts, t, id);
    AlternatingIsPath(s, acts, t);
    RecordsAreCounts(s, acts, t);
  }

  lemma {:induction false} AlternatingIsPath(s: State, acts: seq<Action>, t: State)
    requires AlternatingPath(s, acts, t)
    ensures Path(s, acts, t)
    decreases acts
  {
    if acts != [] {
      AlternatingIsPath(Next(s, acts[0]), acts[1..], t);
    }
  }

  /** A client b whose trigger lands while the task of a's is under way finds `idle_` set when that task
      ends, with its own trigger pending. The two may be one client that did not wait. */
  lemma WaitMayReturnEarly(s: State, a: nat, b: nat) returns (acts: seq<Action>, t: State)
    requires Init(s) && a in s.clients && b in s.clients
    ensures Path(s, acts, t) && (a != b ==> AlternatingPath(s, acts, t))
    ensures acts != [] && acts[|acts| - 1] == SetTriggered(b)
    ensures Enabled(t, WaitReturns(b)) && t.triggered && t.finished < t.triggers
  {
    var s1 := Next(s, ClearIdle(a));
    var s2 := Next(s1, SetTriggered(a));
    var s3 := Next(s2, WorkerWakes);
    var s4 := Next(s3, WorkerClears);
    var s5 := Next(s4, ClearIdle(b));
    var s6 := Next(s5, TaskEnds);
    t := Next(s6, SetTriggered(b));
    assert Path(t, [], t) && AlternatingPath(t, [], t);
    acts := [];
    acts := Front(a != b, s6, SetTriggered(b), acts, t);
    acts := Front(a != b, s5, TaskEnds, acts, t);
    acts := Front(a != b, s4, ClearIdle(b), acts, t);
    acts := Front(a != b, s3, WorkerClears, acts, t);
    acts := Front(a != b, s2, WorkerWakes, acts, t);
    acts := Front(a != b, s1, SetTriggered(a), acts, t);
    acts := Front(a != b, s, ClearIdle(a), acts, t);
  }

  lemma Front(alternating: bool, s: State, a: Action, acts: seq<Action>, t: State) returns (all: seq<Action>)
    requires Enabled(s, a) && Path(Next(s, a), acts, t)
    requires alternating ==> Alternates(s, a) && AlternatingPath(Next(s, a), acts, t)
    ensures Path(s, all, t) && (alternating ==> AlternatingPath(s, all, t))
    ensures all == [a] + acts
  {
    all := [a] + acts;
    assert all[1..] == acts;
  }

  /** Runs of the clients ids, with or without the discipline of waiting after every trigger. */
  ghost predicate RunOf(ids: set<nat>, disciplined: bool, s: State, acts: seq<Action>, t: State) {
    && Init(s) && s.clients.Keys == ids
    && if disciplined then AlternatingPath(s, acts, t) else Path(s, acts, t)
  }

  /** Trigger p of the run has been served: a task that began after it has ended. */
  ghost predicate Served(acts: seq<Action>, p: nat) {
    exists q, r :: p < q < r < |acts| && acts[q] == WorkerClears && acts[r] == TaskEnds
  }

  /** Whenever a client's `wait` can return, every trigger of that client has been served. */
  ghost predicate NeverEarly(ids: set<nat>, disciplined: bool) {
    forall s, acts, t, id :: RunOf(ids, disciplined, s, acts, t) && id in ids && Enabled(t, WaitReturns(id)) ==>
                               forall p :: 0 <= p < |acts| && acts[p] == SetTriggered(id) ==> Served(acts, p)
  }

  /** A task under way, with the client waiting, ends before `idle_` is set. */
  lemma EndsBeforeIdle(s: State, acts: seq<Action>, t: State, id: nat)
    requires LoneInv(s, id) && AlternatingPath(s, acts, t) && t.idle
    requires s.worker == Running && s.clients[id].open && !s.clients[id].half
    ensures acts != [] && acts[0] == TaskEnds
  {
  }

  /** A pending trigger, with the client waiting, is taken up before `idle_` is set. */
  lemma {:induction false} ServedBeforeIdle(s: State, acts: seq<Action>, t: State, id: nat) returns (q: nat)
    requires LoneInv(s, id) && AlternatingPath(s, acts, t) && t.idle
    requires s.triggered && s.clients[id].open && !s.clients[id].half
    ensures q + 1 < |acts| && acts[q] == WorkerClears && acts[q + 1] == TaskEnds
    decreases acts
  {
    var m := Next(s, acts[0]);
    LonePath(s, [acts[0]], m, id);
    if acts[0] == WorkerClears {
      EndsBeforeIdle(m, acts[1..], t, id);
      q := 0;
    } else {
      q := ServedBeforeIdle(m, acts[1..], t, id);
      q := q + 1;
    }
  }

  /** A lone client that waits after every trigger: when its `wait` can return, all its triggers have been
      served. */
  lemma {:induction false} LoneClientIsServed(s: State, acts: seq<Action>, t: State, id: nat, p: nat)
    requires LoneInv(s, id) && AlternatingPath(s, acts, t) && Enabled(t, WaitReturns(id))
    requires p < |acts| && acts[p] == SetTriggered(id)
    ensures Served(acts, p)
    decreases acts
  {
    var m := Next(s, acts[0]);
    LonePath(s, [acts[0]], m, id);
    if p == 0 {
      var q := ServedBeforeIdle(m, acts[1..], t, id);
      assert acts[q + 1] == WorkerClears && acts[q + 2] == TaskEnds;
    } else {
      LoneClientIsServed(m, acts[1..], t, id, p - 1);
      var q, r :| p - 1 < q < r < |acts[1..]| && acts[1..][q] == WorkerClears && acts[1..][r] == TaskEnds;
      assert acts[q + 1] == WorkerClears && acts[r + 1] == TaskEnds;
    }
  }

  /** No `wait` ever returns before a trigger of its own client has been served, in any run, if and only
      if there is one client and it waits after every trigger. */
  lemma NeverEarlyExactly(ids: set<nat>, disciplined: bool)
    requires ids != {}
    ensures NeverEarly(ids, disciplined) <==> |ids| == 1 && disciplined
  {
    var a :| a in ids;
    if ids == {a} && disciplined {
      forall s, acts, t, id | RunOf(ids, disciplined, s, acts, t) && id in ids && Enabled(t, WaitReturns(id))
        ensures forall p :: 0 <= p < |acts| && acts[p] == SetTriggered(id) ==> Served(acts, p)
      {
        forall p | 0 <= p < |acts| && acts[p] == SetTriggered(id)
          ensures Served(acts, p)
        {
          LoneClientIsServed(s, acts, t, id, p);
        }
      }
    } else {
      var b := a;
      if disciplined {
        b :| b in ids && b != a;
        Two(ids, a, b);
      }
      var s := State(false, true, Blocked, map id | id in ids :: Client(false, false, 0, 0), 0, 0, 0);
      var acts, t := WaitMayReturnEarly(s, a, b);
      assert RunOf(ids, disciplined, s, acts, t);
      assert !Served(acts, |acts| - 1);
    }
  }

  lemma Two(ids: set<nat>, a: nat, b: nat)
    requires a in ids && b in ids && a != b
    ensures |ids| != 1
  {
    assert |ids - {a}| > 0 by {
      assert b in ids - {a};
    }
  }

  lemma Prepend(s: State, a: Action, acts: seq<Action>, t: State)
    requires Enabled(s, a) && Path(Next(s, a), acts, t)
    ensures Path(s, [a] + acts, t)
  {
    assert ([a] + acts)[1..] == acts;
  }
}
