/** Runs of the seqlock with their actions: what was stored, and what each call of `load` and
    `load_blocking` comes to. */
module SeqlockCalls {
  import opened Bits
  import opened Seqlock
  import SeqlockSafety

  /** The run, and the action that leads from each state to the next. */
  ghost predicate Acted(run: seq<Lock>, acts: seq<Action>) {
    && |run| == |acts| + 1 && Init(run[0])
    && forall t :: 0 <= t < |acts| ==> Acts(run[t], acts[t], run[t + 1])
  }

  ghost predicate Acts(s: Lock, a: Action, t: Lock) {
    WellFormed(s) && Enabled(s, a) && t == Next(s, a)
  }

  lemma {:induction false} ActedInv(run: seq<Lock>, acts: seq<Action>, t: nat)
    requires Acted(run, acts) && t < |run|
    ensures Inv(run[t])
  {
    if t > 0 {
      ActedInv(run, acts, t - 1);
      assert Acts(run[t - 1], acts[t - 1], run[t - 1 + 1]);
      StepInv(run[t - 1], acts[t - 1]);
    }
  }

  // ---------------------------------------------------------------------------------------------
  // Stores
  // ---------------------------------------------------------------------------------------------

  /** The arguments of the calls of `store`, in order. */
  function Begun(acts: seq<Action>): seq<Value> {
    if acts == [] then []
    else
      var a := acts[|acts| - 1];
      Begun(acts[..|acts| - 1]) + if a.Begin? then [a.v] else []
  }

  /** How many of them have made the counter even again. */
  function Finished(acts: seq<Action>): nat {
    if acts == [] then 0
    else Finished(acts[..|acts| - 1]) + if acts[|acts| - 1] == MarkEven then 1 else 0
  }

  lemma {:induction false} StoresAreBegun(run: seq<Lock>, acts: seq<Action>, t: nat)
    requires Acted(run, acts) && t < |run|
    ensures run[t].stores == Begun(acts[..t]) && Sealed(run[t]) == Finished(acts[..t])
  {
    if t > 0 {
      StoresAreBegun(run, acts, t - 1);
      assert Acts(run[t - 1], acts[t - 1], run[t - 1 + 1]);
      assert acts[..t][..t - 1] == acts[..t - 1];
      StoresStep(run[t - 1], acts[t - 1]);
      hide Next, Enabled;
    }
  }

  lemma StoresStep(s: Lock, a: Action)
    requires WellFormed(s) && Enabled(s, a)
    ensures Next(s, a).stores == s.stores + (if a.Begin? then [a.v] else [])
    ensures Sealed(Next(s, a)) == Sealed(s) + if a == MarkEven then 1 else 0
    ensures Next(s, a).size == s.size
  {
  }

  /** The value after the stores of a run: the argument of the last one finished, or the initial zeros. */
  function Current(acts: seq<Action>, size: nat): Value {
    var n := Finished(acts);
    if n == 0 || n > |Begun(acts)| then Zeros(size) else Begun(acts)[n - 1]
  }

  // ---------------------------------------------------------------------------------------------
  // Calls
  // ---------------------------------------------------------------------------------------------

  predicate InCall(pc: Pc, blocking: bool) {
    match pc
    case Outside => false
    case Looping(b) => b == blocking
    case Reading(b, _, _, _) => b == blocking
    case Comparing(_) => blocking
    case Asleep(_) => blocking
  }

  /** The second counter load of reader id, which finds the first one's value. */
  predicate Accepts(s: Lock, a: Action, id: nat)
    requires WellFormed(s) && Enabled(s, a)
  {
    a == Check(id) && s.readers[id].pc.cur == s.counter
  }

  /** How a call goes on. It ends exactly with an accepted copy, or by a timeout while asleep; its result and, in
      `load_blocking`, `last_seq` change with an accepted copy only; and a woken reader goes back to its loop. */
  lemma CallGoesOn(s: Lock, a: Action, id: nat, blocking: bool)
    requires WellFormed(s) && Enabled(s, a) && id in s.readers && InCall(s.readers[id].pc, blocking)
    ensures id in Next(s, a).readers
    ensures var r, r' := s.readers[id], Next(s, a).readers[id];
            && (!InCall(r'.pc, blocking) <==> Accepts(s, a, id) || a == TimeOut(id))
            && (a == TimeOut(id) ==> r.pc.Asleep?)
            && (!InCall(r'.pc, blocking) ==> r'.pc == Outside)
            && (!Accepts(s, a, id) ==> r'.out == r.out && r'.last == r.last)
            && (Accepts(s, a, id) ==> r.pc.Reading? && r'.last == if blocking then s.counter else r.last)
            && (r.pc.Asleep? && !r'.pc.Asleep? && a != TimeOut(id) ==> r'.pc == Looping(true))
            && (r'.pc.Asleep? && !r.pc.Asleep? ==> a == Sleep(id) && r.pc == Comparing(s.counter))
  {
    if !((a.Look? || a.ReadByte? || a.Check? || a.Sleep? || a.Rouse? || a.TimeOut?) && a.id == id) {
      OthersLeave(s, a, id);
      hide Next, Enabled;
    }
  }

  /** A step of anybody else leaves a reader alone, or wakes it. */
  lemma OthersLeave(s: Lock, a: Action, id: nat)
    requires WellFormed(s) && Enabled(s, a) && id in s.readers && s.readers[id].pc != Outside
    requires !((a.Look? || a.ReadByte? || a.Check? || a.Sleep? || a.Rouse? || a.TimeOut?) && a.id == id)
    ensures id in Next(s, a).readers
    ensures var r, r' := s.readers[id], Next(s, a).readers[id];
            r' == r || (a == Wake && r.pc.Asleep? && r' == r.(pc := Looping(true)))
  {
  }

  /** What the loop does with the counter it loads. */
  lemma LoopLooks(s: Lock, id: nat)
    requires WellFormed(s) && Enabled(s, Look(id))
    ensures id in Next(s, Look(id)).readers
    ensures var r, pc := s.readers[id], Next(s, Look(id)).readers[id].pc;
            if s.counter % 2 == 0 && (r.pc.blocking ==> s.counter != r.last) then
              pc.Reading? && pc.blocking == r.pc.blocking && pc.cur == s.counter && pc.got == map[]
            else pc == if r.pc.blocking then Comparing(s.counter) else Looping(false)
  {
  }

  /** What a call returns. With fewer than 2^31 stores between its two counter loads, `load` and `load_blocking`
      return exactly what the last store finished by the second of them was called with; and `load_blocking`
      leaves in `last_seq` the counter of that moment, which is not the one it was called with. */
  lemma LoadReturnsCurrent(run: seq<Lock>, acts: seq<Action>, id: nat, t: nat)
    requires Acted(run, acts) && t < |acts| && acts[t] == Check(id)
    requires WellFormed(run[t]) && Enabled(run[t], acts[t])
    requires Accepts(run[t], acts[t], id) && SeqlockSafety.Calm(run[t], acts[t])
    ensures id in run[t].readers && id in run[t + 1].readers
    ensures run[t + 1].readers[id].pc == Outside && run[t + 1].readers[id].out == Current(acts[..t], run[t].size)
    ensures run[t].readers[id].pc.blocking ==>
              && run[t + 1].readers[id].last == run[t].counter != run[t].readers[id].last
              && run[t].counter == 2 * Finished(acts[..t]) % U32
  {
    ActedInv(run, acts, t);
    assert Acts(run[t], acts[t], run[t + 1]);
    StoresAreBegun(run, acts, t);
    AcceptReturns(run[t], id);
    hide Next, Enabled, Inv, Acted;
  }

  lemma AcceptReturns(s: Lock, id: nat)
    requires Inv(s) && Enabled(s, Check(id)) && Accepts(s, Check(id), id) && SeqlockSafety.Calm(s, Check(id))
    ensures id in Next(s, Check(id)).readers
    ensures var r, r' := s.readers[id], Next(s, Check(id)).readers[id];
            && r'.pc == Outside && r'.out == Content(s, Sealed(s))
            && (r.pc.blocking ==> r'.last == s.counter != r.last && s.counter == 2 * Sealed(s) % U32)
  {
    SeqlockSafety.AcceptedIsCurrent(s, id);
    assert ReaderInv(s, s.readers[id]);
    EvenVersion(s, s.readers[id].pc.version);
    hide Inv, SeqlockSafety.Calm, ReaderInv, CellInv;
  }

  lemma EvenVersion(s: Lock, version: nat)
    requires CellInv(s) && version == Version(s) && version % 2 == 0
    ensures version == 2 * Sealed(s) && version / 2 == Sealed(s) && s.counter == 2 * Sealed(s) % U32
  {
  }

  /** Where reader id's call began: at u, and not over since. */
  ghost predicate CallSince(run: seq<Lock>, acts: seq<Action>, id: nat, u: nat, t: nat, blocking: bool) {
    && u < t < |run| && t <= |acts| && acts[u] == Call(id, blocking)
    && forall j :: u < j <= t ==> id in run[j].readers && InCall(run[j].readers[id].pc, blocking)
  }

  /** A reader in a call made it at some u and has not left it since. */
  lemma {:induction false} InCallSince(run: seq<Lock>, acts: seq<Action>, id: nat, t: nat, blocking: bool)
    requires Acted(run, acts) && t < |run| && id in run[t].readers && InCall(run[t].readers[id].pc, blocking)
    ensures exists u: nat :: CallSince(run, acts, id, u, t, blocking)
    decreases t
  {
    if t > 0 {
      var s, a := run[t - 1], acts[t - 1];
      assert Acts(s, a, run[t - 1 + 1]);
      EntersByCall(s, a, id, blocking);
      if a == Call(id, blocking) {
        assert CallSince(run, acts, id, t - 1, t, blocking);
      } else {
        InCallSince(run, acts, id, t - 1, blocking);
        var u: nat :| CallSince(run, acts, id, u, t - 1, blocking);
        assert CallSince(run, acts, id, u, t, blocking);
      }
    }
  }

  lemma EntersByCall(s: Lock, a: Action, id: nat, blocking: bool)
    requires WellFormed(s) && Enabled(s, a) && id in Next(s, a).readers && InCall(Next(s, a).readers[id].pc, blocking)
    ensures a == Call(id, blocking) || (id in s.readers && InCall(s.readers[id].pc, blocking))
  {
  }

  /** Readers do sleep: from every initial state, one that has seen counter 0. */
  lemma SleepHappens(s: Lock) returns (run: seq<Lock>, acts: seq<Action>)
    requires Init(s)
    ensures Acted(run, acts) && run[0] == s && 0 in run[|acts|].readers && run[|acts|].readers[0].pc == Asleep(0)
  {
    var s1 := Next(s, Attach(0, 0));
    var s2 := Next(s1, Call(0, true));
    var s3 := Next(s2, Look(0));
    var s4 := Next(s3, Sleep(0));
    run, acts := [s, s1, s2, s3, s4], [Attach(0, 0), Call(0, true), Look(0), Sleep(0)];
    assert Acts(s, Attach(0, 0), s1) && Acts(s1, Call(0, true), s2) && Acts(s2, Look(0), s3) && Acts(s3, Sleep(0), s4);
  }
}
