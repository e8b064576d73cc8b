/** Runs of the ring with their actions: what was inserted, what was published, and what each caller of
    `wait_for_write` asked and was told. */
module RingWait {
  import opened Bits
  import opened RingProtocol
  import opened RingSafety

  /** The run, and the action that leads from each state to the next. */
  ghost predicate Acted(run: seq<Ring>, acts: seq<Action>) {
    && |run| == |acts| + 1 && Init(run[0])
    && forall t :: 0 <= t < |acts| ==> Acts(run[t], acts[t], run[t + 1])
  }

  ghost predicate Acts(s: Ring, a: Action, t: Ring) {
    WellFormed(s) && Enabled(s, a) && t == Next(s, a)
  }

  lemma ActedIsRun(run: seq<Ring>, acts: seq<Action>)
    requires Acted(run, acts)
    ensures Run(run)
  {
    forall t | 0 <= t < |run| - 1
      ensures Step(run[t], run[t + 1])
    {
      assert Acts(run[t], acts[t], run[t + 1]);
    }
  }

  // ---------------------------------------------------------------------------------------------
  // Inserts
  // ---------------------------------------------------------------------------------------------

  /** The arguments of the calls of `insert`, in order. */
  function Begun(acts: seq<Action>): seq<Value> {
    if acts == [] then []
    else
      var a := acts[|acts| - 1];
      Begun(acts[..|acts| - 1]) + if a.Begin? then [a.v] else []
  }

  function Publishes(acts: seq<Action>): nat {
    if acts == [] then 0
    else Publishes(acts[..|acts| - 1]) + if acts[|acts| - 1] == Publish then 1 else 0
  }

  /** The history is what was passed to `insert`, and its published part what the writer has published. */
  lemma {:induction false} HistoryIsBegun(run: seq<Ring>, acts: seq<Action>, t: nat)
    requires Acted(run, acts) && t < |run|
    ensures run[t].started == Begun(acts[..t]) && Counted(run[t]) == Publishes(acts[..t])
  {
    if t > 0 {
      HistoryIsBegun(run, acts, t - 1);
      assert Acts(run[t - 1], acts[t - 1], run[t - 1 + 1]);
      assert acts[..t][..t - 1] == acts[..t - 1];
      CountsAction(run[t - 1], acts[t - 1]);
      hide Next, Enabled;
    }
  }

  lemma CountsAction(s: Ring, a: Action)
    requires WellFormed(s) && Enabled(s, a)
    ensures Next(s, a).started == s.started + (if a.Begin? then [a.v] else [])
    ensures Counted(Next(s, a)) == Counted(s) + if a == Publish then 1 else 0
  {
  }

  /** No torn reads, in terms of the calls: an accepted attempt on a written slot returns exactly what was
      passed to one call of `insert`, the n-th, with n congruent to the slot. */
  lemma ReadIsArgument(run: seq<Ring>, acts: seq<Action>, r: Attempt)
    requires Acted(run, acts) && Accepted(run, r) && WithinWindow(run, r) && ReadIndex(run, r) >= 0
    ensures var n := ReadIndex(run, r);
            && n < |Begun(acts[..r.after])| && r.out == Begun(acts[..r.after])[n]
            && n % Cap(run[0]) == r.slot && n <= Publishes(acts[..r.after])
  {
    NoTornRead(run, r);
    HistoryIsBegun(run, acts, r.after);
  }

  // ---------------------------------------------------------------------------------------------
  // wait_for_write
  // ---------------------------------------------------------------------------------------------

  /** The call that caller id made last before t, at u. */
  ghost predicate LastCall(acts: seq<Action>, id: nat, u: nat, t: nat) {
    && u < t <= |acts| && acts[u].WaitCall? && acts[u].id == id
    && forall j :: u < j < t && acts[j].WaitCall? ==> acts[j].id != id
  }

  /** At some moment between u and t the count was c. */
  ghost predicate WasTotal(run: seq<Ring>, c: nat, u: nat, t: nat) {
    exists v :: u < v <= t < |run| && run[v].total == c
  }

  /** Where caller id is at time t accords with what it asked at u: inside, it still has that argument; it was
      told a count other than that, which was the count at a moment of the call. */
  ghost predicate Told(run: seq<Ring>, acts: seq<Action>, id: nat, u: nat, t: nat)
    requires t < |run| && id in run[t].waiters && u < |acts| && acts[u].WaitCall?
  {
    match run[t].waiters[id]
    case Polling(last) => last == acts[u].lastSeen
    case Comparing(last, _) => last == acts[u].lastSeen
    case Asleep(last, _) => last == acts[u].lastSeen
    case Returned(c) => c != acts[u].lastSeen && WasTotal(run, c, u, t)
    case TimedOut => true
  }

  ghost predicate Accords(run: seq<Ring>, acts: seq<Action>, id: nat, t: nat)
    requires t < |run| && id in run[t].waiters
  {
    exists u: nat :: LastCall(acts, id, u, t) && Told(run, acts, id, u, t)
  }

  /** A step of somebody else, or of the kernel, leaves a caller where it was, or wakes it. */
  lemma OthersStep(s: Ring, a: Action, id: nat)
    requires WellFormed(s) && Enabled(s, a) && id in Next(s, a).waiters
    requires !((a.WaitCall? || a.WaitLoad? || a.WaitSleep? || a.WaitReturn? || a.WaitTimeout?) && a.id == id)
    ensures id in s.waiters
    ensures var was, now := s.waiters[id], Next(s, a).waiters[id];
            now == was || (a == Wake && was.Asleep? && now == Polling(was.lastSeen))
  {
  }

  lemma {:induction false} WaitersAccord(run: seq<Ring>, acts: seq<Action>, id: nat, t: nat)
    requires Acted(run, acts) && t < |run| && id in run[t].waiters
    ensures Accords(run, acts, id, t)
    decreases t
  {
    if t > 0 {
      var s, a := run[t - 1], acts[t - 1];
      assert Acts(s, a, run[t - 1 + 1]);
      if a.WaitCall? && a.id == id {
        assert LastCall(acts, id, t - 1, t) && Told(run, acts, id, t - 1, t);
      } else {
        StillThere(s, a, id);
        WaitersAccord(run, acts, id, t - 1);
        var u: nat :| LastCall(acts, id, u, t - 1) && Told(run, acts, id, u, t - 1);
        assert LastCall(acts, id, u, t);
        ToldOn(run, acts, id, u, t - 1);
      }
    }
  }

  lemma StillThere(s: Ring, a: Action, id: nat)
    requires WellFormed(s) && Enabled(s, a) && id in Next(s, a).waiters && !(a.WaitCall? && a.id == id)
    ensures id in s.waiters
  {
  }

  lemma ToldOn(run: seq<Ring>, acts: seq<Action>, id: nat, u: nat, t: nat)
    requires Acted(run, acts) && t + 1 < |run| && LastCall(acts, id, u, t) && id in run[t].waiters && id in run[t + 1].waiters
    requires Told(run, acts, id, u, t) && !(acts[t].WaitCall? && acts[t].id == id)
    ensures Told(run, acts, id, u, t + 1)
  {
    var s, a := run[t], acts[t];
    assert Acts(s, a, run[t + 1]);
    if (a.WaitLoad? || a.WaitSleep? || a.WaitReturn? || a.WaitTimeout?) && a.id == id {
      hide Acted;
      if a.WaitLoad? && s.total != acts[u].lastSeen {
        assert run[t].total == s.total;
      }
    } else {
      OthersStep(s, a, id);
      hide Acted, Acts, Next, Enabled;
    }
  }

  /** What `wait_for_write` returns: a count other than the one passed to the call, which was the count at some
      moment of that call. */
  lemma WaitReturnsNewCount(run: seq<Ring>, acts: seq<Action>, id: nat, t: nat)
    requires Acted(run, acts) && t < |run| && id in run[t].waiters && run[t].waiters[id].Returned?
    ensures exists u: nat, v: nat ::
              && LastCall(acts, id, u, t) && u < v <= t
              && run[t].waiters[id].count == run[v].total && run[t].waiters[id].count != acts[u].lastSeen
  {
    WaitersAccord(run, acts, id, t);
    var u: nat :| LastCall(acts, id, u, t) && Told(run, acts, id, u, t);
    var v: nat :| u < v <= t && run[v].total == run[t].waiters[id].count;
  }

  predicate Inside(w: Waiter) {
    w.Polling? || w.Comparing? || w.Asleep?
  }

  /** How a call goes on. A load that finds another count ends it with that count, and is the only end but a
      timeout while asleep; a load that finds the same count leads to the kernel, which puts the caller to sleep
      exactly if the low halves agree; and from sleep and from the kernel the caller goes back to the load. */
  lemma WaitStep(run: seq<Ring>, acts: seq<Action>, id: nat, t: nat)
    requires Acted(run, acts) && t < |acts| && id in run[t].waiters && Inside(run[t].waiters[id])
    ensures id in run[t + 1].waiters
    ensures var s, was, now := run[t], run[t].waiters[id], run[t + 1].waiters[id];
            && (acts[t] == WaitLoad(id) ==>
                  was.Polling? && if s.total != was.lastSeen then now == Returned(s.total) else now.Comparing? && now.lastSeen == was.lastSeen)
            && (acts[t] == WaitSleep(id) ==>
                  was.Comparing? && if s.total % U32 == was.lastSeen % U32 then now.Asleep? else now == Polling(was.lastSeen))
            && (!Inside(now) ==> acts[t] == WaitLoad(id) || (acts[t] == WaitTimeout(id) && was.Asleep? && now == TimedOut))
            && (Inside(now) ==> now.lastSeen == was.lastSeen)
            && (was.Asleep? && !now.Asleep? && Inside(now) ==> now == Polling(was.lastSeen))
  {
    assert Acts(run[t], acts[t], run[t + 1]);
    var s, a := run[t], acts[t];
    if !((a.WaitLoad? || a.WaitSleep? || a.WaitReturn? || a.WaitTimeout?) && a.id == id) && !(a.WaitCall? && a.id == id) {
      OthersStep(s, a, id);
    }
  }
}
