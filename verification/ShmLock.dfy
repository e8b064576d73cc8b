/** The futex lock: any number of threads in `lock` and `unlock`, one shared word, and the kernel's
    wait queue with spurious wake-ups and barging. */
module ShmLock {
  import opened Options

  /** Where a thread is: outside; about to do the fast-path exchange; about to do the loop's exchange;
      about to call FUTEX_WAIT; asleep; holding the lock; and, in `unlock`, about to call FUTEX_WAKE. */
  datatype Pc = Outside | FastPath | Retrying | Waiting | Asleep | Holding | Waking

  datatype State = State(word: nat, pcs: map<nat, Pc>)

  datatype Action =
    | Call(id: nat)
    | Exchange(id: nat)
    | FutexWait(id: nat)
    | Spurious(id: nat)
    | Release(id: nat)
    | FutexWake(id: nat, target: Option<nat>)

  predicate Init(s: State) {
    s.word == 0 && forall id :: id in s.pcs ==> s.pcs[id] == Outside
  }

  predicate Enabled(s: State, a: Action) {
    && a.id in s.pcs
    && match a
       case Call(id) => s.pcs[id] == Outside
       case Exchange(id) => s.pcs[id] == FastPath || s.pcs[id] == Retrying
       case FutexWait(id) => s.pcs[id] == Waiting
       case Spurious(id) => s.pcs[id] == Asleep
       case Release(id) => s.pcs[id] == Holding
       case FutexWake(id, target) =>
         && s.pcs[id] == Waking
         && match target
            case Some(t) => t in s.pcs && s.pcs[t] == Asleep
            case None => forall t :: t in s.pcs ==> s.pcs[t] != Asleep
  }

  function Next(s: State, a: Action): State
    requires Enabled(s, a)
  {
    match a
    case Call(id) => s.(pcs := s.pcs[id := FastPath])
    case Exchange(id) =>
      // the exchange stores 1 whatever it finds
      State(1, s.pcs[id :=
            if s.word == 0 then Holding else if s.pcs[id] == FastPath then Retrying else Waiting])
    case FutexWait(id) => s.(pcs := s.pcs[id := if s.word == 1 then Asleep else Retrying])
    case Spurious(id) => s.(pcs := s.pcs[id := Retrying])
    case Release(id) => State(0, s.pcs[id := Waking])
    case FutexWake(id, target) =>
      s.(pcs := (if target.Some? then s.pcs[target.value := Retrying] else s.pcs)[id := Outside])
  }

  // ---------------------------------------------------------------------------------------------
  // Mutual exclusion and wake-ups
  // ---------------------------------------------------------------------------------------------

  ghost predicate Holds(s: State, id: nat) {
    id in s.pcs && s.pcs[id] == Holding
  }

  /** The word is 1 exactly while some thread holds the lock, and never two do. */
  ghost predicate Exclusive(s: State) {
    && (s.word == 0 || s.word == 1)
    && (s.word == 0 ==> forall a :: !Holds(s, a))
    && (s.word == 1 ==> exists a :: Holds(s, a))
    && forall a, b :: Holds(s, a) && Holds(s, b) ==> a == b
  }

  /** A thread that will act on the word without being woken: an unlocker that still owes its wake,
      or a contender on its way to the next exchange. */
  ghost predicate Responsible(s: State, id: nat) {
    id in s.pcs && (s.pcs[id] == Waking || s.pcs[id] == Retrying || s.pcs[id] == Waiting)
  }

  ghost predicate Attended(s: State) {
    s.word == 0 && (exists id :: id in s.pcs && s.pcs[id] == Asleep) ==> exists id :: Responsible(s, id)
  }

  ghost predicate Inv(s: State) {
    Exclusive(s) && Attended(s)
  }

  lemma StepExclusive(s: State, a: Action)
    requires Exclusive(s) && Enabled(s, a)
    ensures Exclusive(Next(s, a))
  {
    var t := Next(s, a);
    if s.word == 1 && !a.Release? {
      var h :| Holds(s, h);
      assert Holds(t, h);
    } else if a.Exchange? {
      assert Holds(t, a.id);
    }
    forall x, y | Holds(t, x) && Holds(t, y)
      ensures x == y
    {
      if !a.Exchange? || s.word == 1 {
        assert Holds(s, x) && Holds(s, y);
      } else {
        assert !Holds(s, x) && !Holds(s, y);
      }
    }
    if t.word == 0 {
      forall x
        ensures !Holds(t, x)
      {
        if a.Release? {
          assert Holds(s, a.id);
          assert Holds(s, x) ==> x == a.id;
        } else {
          assert !Holds(s, x);
        }
      }
    }
  }

  lemma StepAttended(s: State, a: Action)
    requires Inv(s) && Enabled(s, a)
    ensures Attended(Next(s, a))
  {
    var t := Next(s, a);
    if a.Release? || a.Spurious? {
      assert Responsible(t, a.id);
    } else if a.FutexWait? {
      assert s.word == 0 ==> Responsible(t, a.id);
    } else if a.FutexWake? {
      assert a.target.Some? ==> Responsible(t, a.target.value);
    } else if a.Call? && s.word == 0 && exists x :: x in s.pcs && s.pcs[x] == Asleep {
      var r :| Responsible(s, r);
      assert Responsible(t, r);
    }
  }

  ghost predicate Path(s: State, acts: seq<Action>, t: State)
    decreases acts
  {
    if acts == [] then s == t else Enabled(s, acts[0]) && Path(Next(s, acts[0]), acts[1..], t)
  }

  lemma {:induction false} PathInv(s: State, acts: seq<Action>, t: State)
    requires Inv(s) && Path(s, acts, t)
    ensures Inv(t)
    decreases acts
  {
    if acts != [] {
      StepExclusive(s, acts[0]);
      StepAttended(s, acts[0]);
      PathInv(Next(s, acts[0]), acts[1..], t);
    }
  }

  /** In every run at most one thread holds the lock, and one does exactly when the word is 1. */
  lemma MutualExclusion(s: State, acts: seq<Action>, t: State)
    requires Init(s) && Path(s, acts, t)
    ensures forall a, b :: Holds(t, a) && Holds(t, b) ==> a == b
    ensures t.word == 1 <==> exists a :: Holds(t, a)
  {
    PathInv(s, acts, t);
  }

  /** No lost wake-up: if the lock is free and somebody sleeps, an unlocker has not yet issued its wake
      or a contender is awake and will retry the exchange. */
  lemma NoLostWakeup(s: State, acts: seq<Action>, t: State, sleeper: nat)
    requires Init(s) && Path(s, acts, t)
    requires t.word == 0 && sleeper in t.pcs && t.pcs[sleeper] == Asleep
    ensures exists id :: Responsible(t, id)
  {
    PathInv(s, acts, t);
  }

  /** A thread between `lock`'s call and its return. */
  predicate Contends(s: State, id: nat) {
    id in s.pcs && (s.pcs[id] == FastPath || s.pcs[id] == Retrying || s.pcs[id] == Waiting || s.pcs[id] == Asleep)
  }

  lemma Acquire(s: State, id: nat) returns (acts: seq<Action>, t: State)
    requires s.word == 0 && id in s.pcs && (s.pcs[id] == FastPath || s.pcs[id] == Retrying || s.pcs[id] == Waiting)
    ensures |acts| <= 2 && Path(s, acts, t) && Holds(t, id)
    ensures forall a :: a in acts ==> a == Exchange(id) || a == FutexWait(id)
  {
    if s.pcs[id] == Waiting {
      var m := Next(s, FutexWait(id));
      t := Next(m, Exchange(id));
      acts := [FutexWait(id), Exchange(id)];
      assert acts[1..][1..] == [];
    } else {
      acts := [Exchange(id)];
      t := Next(s, Exchange(id));
      assert acts[1..] == [];
    }
  }

  /** The lock never gets stuck: whenever it is free and somebody contends, at most three steps of
      awake threads, without any spurious wake-up, hand it to a contender. */
  lemma SomebodyGetsIn(s: State, acts: seq<Action>, t: State, id: nat) returns (more: seq<Action>, u: State, winner: nat)
    requires Init(s) && Path(s, acts, t) && t.word == 0 && Contends(t, id)
    ensures |more| <= 3 && Path(t, more, u) && Contends(t, winner) && Holds(u, winner)
    ensures forall a :: a in more ==> a.Exchange? || a.FutexWait? || a.FutexWake?
  {
    PathInv(s, acts, t);
    winner := id;
    if t.pcs[id] == Asleep {
      var r :| Responsible(t, r);
      if t.pcs[r] == Waking {
        var m := Next(t, FutexWake(r, Some(id)));
        var tail;
        tail, u := Acquire(m, id);
        more := [FutexWake(r, Some(id))] + tail;
        assert more[1..] == tail;
      } else {
        winner := r;
        more, u := Acquire(t, r);
      }
    } else {
      more, u := Acquire(t, id);
    }
  }

  // ---------------------------------------------------------------------------------------------
  // The lock as its users see it
  // ---------------------------------------------------------------------------------------------

  /** The abstract lock: who holds it. */
  ghost function Holder(s: State): Option<nat>
    requires Exclusive(s)
  {
    if s.word == 1 then
      var h :| Holds(s, h);
      Some(h)
    else None
  }

  /** Every step of the futex protocol is a step of the abstract lock: a successful exchange takes it
      when free, the store in `unlock` frees it, and nothing else changes the holder. */
  lemma RefinesAbstractLock(s: State, a: Action)
    requires Exclusive(s) && Enabled(s, a)
    ensures Exclusive(Next(s, a))
    ensures var before, after := Holder(s), Holder(Next(s, a));
            if a.Release? then before == Some(a.id) && after == None
            else if a.Exchange? && s.word == 0 then before == None && after == Some(a.id)
            else before == after
  {
    StepExclusive(s, a);
    var t := Next(s, a);
    if a.Release? {
      assert Holds(s, a.id);
    } else if a.Exchange? && s.word == 0 {
      assert Holds(t, a.id);
    } else if s.word == 1 {
      assert Holds(t, Holder(s).value);
    }
  }

  // ---------------------------------------------------------------------------------------------
  // What a call of lock, and of unlock, comes to
  // ---------------------------------------------------------------------------------------------

  /** A contender goes on contending, unless its own exchange finds 0: then it holds the lock. It sleeps only
      through its own FUTEX_WAIT, and only while the word is 1. */
  lemma LockGoesOn(s: State, a: Action, id: nat)
    requires Enabled(s, a) && Contends(s, id)
    ensures Holds(Next(s, a), id) <==> a == Exchange(id) && s.word == 0
    ensures Holds(Next(s, a), id) || Contends(Next(s, a), id)
    ensures Next(s, a).pcs[id] == Asleep && s.pcs[id] != Asleep ==> a == FutexWait(id) && s.word == 1
  {
  }

  /** A holder holds until its own store of 0, and leaves `unlock` only through its own wake-up call. */
  lemma UnlockGoesOn(s: State, a: Action, id: nat)
    requires Enabled(s, a) && id in s.pcs && (s.pcs[id] == Holding || s.pcs[id] == Waking)
    ensures id in Next(s, a).pcs
    ensures Next(s, a).pcs[id] != s.pcs[id] ==>
              || (a == Release(id) && s.pcs[id] == Holding && Next(s, a).pcs[id] == Waking && Next(s, a).word == 0)
              || (a.FutexWake? && a.id == id && s.pcs[id] == Waking && Next(s, a).pcs[id] == Outside)
  {
  }

  /** The state after the first n actions. */
  ghost function After(s: State, acts: seq<Action>, n: nat): State
    decreases n
  {
    if n == 0 || acts == [] || !Enabled(s, acts[0]) then s else After(Next(s, acts[0]), acts[1..], n - 1)
  }

  /** The exchange by which thread id gets the lock: it contended up to there, and found 0. */
  ghost predicate TakesAt(s: State, acts: seq<Action>, id: nat, p: nat) {
    && p < |acts| && acts[p] == Exchange(id) && After(s, acts, p).word == 0
    && (forall q :: 0 <= q <= p ==> Contends(After(s, acts, q), id))
    && Holds(After(s, acts, p + 1), id)
  }

  /** A call of `lock` ends with the lock held, in every run: from the call on, the thread contends until its own
      exchange finds the word 0, and that makes it the holder. */
  lemma LockEndsHeld(s: State, acts: seq<Action>, t: State, id: nat)
    requires Enabled(s, Call(id)) && Path(Next(s, Call(id)), acts, t)
    ensures Contends(t, id) || exists p: nat :: TakesAt(Next(s, Call(id)), acts, id, p)
  {
    ContendsUntil(Next(s, Call(id)), acts, t, id);
  }

  lemma {:induction false} ContendsUntil(s: State, acts: seq<Action>, t: State, id: nat)
    requires Contends(s, id) && Path(s, acts, t)
    ensures Contends(t, id) || exists p: nat :: TakesAt(s, acts, id, p)
    decreases acts
  {
    if acts != [] {
      var m := Next(s, acts[0]);
      LockGoesOn(s, acts[0], id);
      if Holds(m, id) {
        assert After(s, acts, 1) == After(m, acts[1..], 0) == m;
        assert TakesAt(s, acts, id, 0);
      } else {
        ContendsUntil(m, acts[1..], t, id);
        if !Contends(t, id) {
          var p: nat :| TakesAt(m, acts[1..], id, p);
          TakesLater(s, acts, id, p);
        }
      }
    }
  }

  lemma TakesLater(s: State, acts: seq<Action>, id: nat, p: nat)
    requires acts != [] && Enabled(s, acts[0]) && Contends(s, id) && TakesAt(Next(s, acts[0]), acts[1..], id, p)
    ensures TakesAt(s, acts, id, p + 1)
  {
    var m := Next(s, acts[0]);
    hide Enabled, Next, Contends, Holds;
    assert forall q: nat {:trigger After(m, acts[1..], q)} :: After(s, acts, q + 1) == After(m, acts[1..], q);
    forall q | 0 <= q <= p + 1
      ensures Contends(After(s, acts, q), id)
    {
      if q > 0 {
        assert After(s, acts, q - 1 + 1) == After(m, acts[1..], q - 1);
      }
    }
  }

  /** Contention does put a thread to sleep: for any two threads, from every initial state, one holds the lock
      and the other sleeps. */
  lemma OneSleepsWhileOneHolds(s: State, a: nat, b: nat) returns (acts: seq<Action>, t: State)
    requires Init(s) && a in s.pcs && b in s.pcs && a != b
    ensures Path(s, acts, t) && Holds(t, a) && b in t.pcs && t.pcs[b] == Asleep && t.word == 1
  {
    var s1 := Next(s, Call(a));
    var s2 := Next(s1, Exchange(a));
    var s3 := Next(s2, Call(b));
    var s4 := Next(s3, Exchange(b));
    var s5 := Next(s4, Exchange(b));
    t := Next(s5, FutexWait(b));
    acts := [];
    assert Path(t, acts, t);
    acts := Front(s5, FutexWait(b), acts, t);
    acts := Front(s4, Exchange(b), acts, t);
    acts := Front(s3, Exchange(b), acts, t);
    acts := Front(s2, Call(b), acts, t);
    acts := Front(s1, Exchange(a), acts, t);
    acts := Front(s, Call(a), acts, t);
  }

  lemma Front(s: State, a: Action, acts: seq<Action>, t: State) returns (all: seq<Action>)
    requires Enabled(s, a) && Path(Next(s, a), acts, t)
    ensures all == [a] + acts && Path(s, all, t)
  {
    all := [a] + acts;
    assert all[1..] == acts;
  }
}
