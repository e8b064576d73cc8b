/** Runs at the edge: how far `get_latest` really goes back, and the exact width of the counter
    window. */
module RingWitness {
  import opened Bits
  import opened RingProtocol
  import opened RingSafety

  function Last(run: seq<Ring>): Ring
    requires run != []
  {
    run[|run| - 1]
  }

  /** The same layout; and the callers of `wait_for_write` where they were, unless one was asleep. */
  ghost predicate Beside(s: Ring, t: Ring) {
    && t.k == s.k && t.size == s.size
    && ((forall id :: id in s.waiters ==> !s.waiters[id].Asleep?) ==> t.waiters == s.waiters)
  }

  lemma Extend(run: seq<Ring>, a: Action) returns (more: seq<Ring>)
    requires Run(run) && WellFormed(Last(run)) && Enabled(Last(run), a)
    ensures Run(more) && run <= more && |more| == |run| + 1 && Last(more) == Next(Last(run), a) && Inv(Last(more))
  {
    more := run + [Next(Last(run), a)];
    forall t | 0 <= t < |more| - 1 ensures Step(more[t], more[t + 1]) {
      if t < |run| - 1 {
        assert Step(run[t], run[t + 1]);
      }
    }
    RunInv(more, |run|);
  }

  /** An `insert` begun by an idle writer, up to its first counter store. */
  lemma ToCopying(run: seq<Ring>, v: Value) returns (more: seq<Ring>)
    requires Run(run) && Inv(Last(run)) && Last(run).writer == Idle && |v| == Last(run).size
    ensures Run(more) && run <= more && Inv(Last(more)) && Last(more).writer.Copying? && Last(more).writer.done == {}
    ensures Last(more).started == Last(run).started + [v] && Last(more).total == Last(run).total
    ensures Beside(Last(run), Last(more))
  {
    hide Step, WriterInv, WaiterInv, SlotInv;
    more := Extend(run, Begin(v));
    more := Extend(more, LoadTotal);
    more := Extend(more, LoadCounter);
    more := Extend(more, MarkOdd);
  }

  /** From there up to the second counter store. */
  lemma CopyOn(run: seq<Ring>) returns (more: seq<Ring>)
    requires Run(run) && Inv(Last(run)) && Last(run).writer.Copying? && Last(run).writer.done == {}
    ensures Run(more) && run <= more && Inv(Last(more)) && Last(more).writer.Sealed?
    ensures Last(more).started == Last(run).started && Last(more).total == Last(run).total
    ensures Beside(Last(run), Last(more))
  {
    hide Step, WriterInv, WaiterInv, SlotInv;
    more := run;
    var n := 0;
    while n < Last(run).size
      invariant 0 <= n <= Last(run).size
      invariant Run(more) && run <= more && Inv(Last(more)) && Last(more).writer.Copying?
      invariant forall j :: j in Last(more).writer.done <==> 0 <= j < n
      invariant Last(more).started == Last(run).started && Last(more).total == Last(run).total
      invariant Beside(Last(run), Last(more))
    {
      more := Extend(more, CopyByte(n));
      n := n + 1;
    }
    more := Extend(more, MarkEven);
  }

  lemma ToSealed(run: seq<Ring>, v: Value) returns (more: seq<Ring>)
    requires Run(run) && Inv(Last(run)) && Last(run).writer == Idle && |v| == Last(run).size
    ensures Run(more) && run <= more && Inv(Last(more)) && Last(more).writer.Sealed?
    ensures Last(more).started == Last(run).started + [v] && Last(more).total == Last(run).total
    ensures Beside(Last(run), Last(more))
  {
    more := ToCopying(run, v);
    more := CopyOn(more);
  }

  lemma Finish(run: seq<Ring>) returns (more: seq<Ring>)
    requires Run(run) && Inv(Last(run)) && Last(run).writer.Sealed?
    ensures Run(more) && run <= more && Inv(Last(more)) && Last(more).writer == Idle
    ensures Last(more).started == Last(run).started
    ensures Beside(Last(run), Last(more))
  {
    more := Extend(run, Publish);
    more := Extend(more, Wake);
  }

  lemma WholeInsert(run: seq<Ring>, v: Value) returns (more: seq<Ring>)
    requires Run(run) && Inv(Last(run)) && Last(run).writer == Idle && |v| == Last(run).size
    ensures Run(more) && run <= more && Inv(Last(more)) && Last(more).writer == Idle
    ensures Last(more).started == Last(run).started + [v]
    ensures Beside(Last(run), Last(more))
  {
    more := ToSealed(run, v);
    more := Finish(more);
  }

  /** The values vs, inserted one after another. */
  lemma {:induction false} InsertAll(run: seq<Ring>, vs: seq<Value>) returns (more: seq<Ring>)
    requires Run(run) && Inv(Last(run)) && Last(run).writer == Idle
    requires forall n :: 0 <= n < |vs| ==> |vs[n]| == Last(run).size
    ensures Run(more) && run <= more && Inv(Last(more)) && Last(more).writer == Idle
    ensures Last(more).started == Last(run).started + vs && Beside(Last(run), Last(more))
    decreases vs
  {
    if vs == [] {
      more := run;
    } else {
      more := InsertAll(run, vs[..|vs| - 1]);
      more := WholeInsert(more, vs[|vs| - 1]);
      assert vs == vs[..|vs| - 1] + [vs[|vs| - 1]];
    }
  }

  lemma ManyInserts(run: seq<Ring>, v: Value, n: nat) returns (more: seq<Ring>)
    requires Run(run) && Inv(Last(run)) && Last(run).writer == Idle && |v| == Last(run).size
    ensures Run(more) && run <= more && Inv(Last(more)) && Last(more).writer == Idle
    ensures Last(more).started == Last(run).started + seq(n, _ => v) && Beside(Last(run), Last(more))
  {
    more := InsertAll(run, seq(n, _ => v));
  }

  /** The writer gets almost a lap further: every slot but one rewritten, and the last sealed. */
  lemma {:induction false} AlmostLap(run: seq<Ring>, n: nat) returns (more: seq<Ring>)
    requires Run(run) && Inv(Last(run)) && Last(run).writer == Idle
    ensures Run(more) && run <= more && Inv(Last(more)) && Last(more).writer.Sealed?
    ensures |Last(more).started| == |Last(run).started| + n + 1
    ensures Beside(Last(run), Last(more))
    decreases n
  {
    if n == 0 {
      more := ToSealed(run, Zeros(Last(run).size));
    } else {
      more := WholeInsert(run, Zeros(Last(run).size));
      more := AlmostLap(more, n - 1);
    }
  }

  /** An attempt whose loads all happen at one moment, while no slot is being written. */
  lemma AttemptAt(run: seq<Ring>, e: nat, i: nat) returns (a: Attempt)
    requires Run(run) && e < |run| && i < |run[e].slots| && !run[e].writer.Copying?
    ensures Accepted(run, a) && WithinWindow(run, a)
    ensures a.slot == i && a.before == a.after == e && a.out == run[e].slots[i].data
    ensures Inv(run[e]) && ReadIndex(run, a) == Holds(run[e], i)
  {
    RunInv(run, e);
    RunLater(run, 0, e);
    VersionParity(run[e], i);
    hide Inv;
    a := Attempt(i, e, seq(run[e].size, _ => e), e, run[e].slots[i].data);
    forall j | 0 <= j < |a.out| ensures SampledByte(run, a, j) {
    }
  }

  /** A lap ahead, the slots of the two newest published inserts hold the two newest settled ones. */
  lemma LapAhead(cap: nat, w: nat)
    requires cap >= 2 && w >= 1
    ensures (w - 1) % cap < cap && LastIndex(cap, (w - 1) % cap, w + cap) == w + cap - 1
    ensures (w + cap - 2) % cap < cap && LastIndex(cap, (w + cap - 2) % cap, w + cap) == w + cap - 2
  {
    ReverseIndex(cap, w + cap, 0);
    ReverseIndex(cap, w + cap, 1);
    DivMod(w - 1, cap);
    assert cap * ((w - 1) / cap + 1) == cap * ((w - 1) / cap) + cap;
    ModUnique(w + cap - 1, cap, (w - 1) / cap + 1, (w - 1) % cap);
  }

  /** A `get_latest` that loads the count at `load` and reads the slot at the end of the run. */
  lemma LatestNow(run: seq<Ring>, load: nat) returns (a: Attempt)
    requires Run(run) && load < |run| && Last(run).writer.Sealed?
    requires WellFormed(run[load]) && 0 < Counted(run[load]) < U64
    ensures Got(run, load, 0, a) && a.after == |run| - 1
    ensures WellFormed(Last(run)) && run[load].k == Last(run).k
    ensures var i := (Counted(run[load]) - 1) % Cap(Last(run));
            i < |Last(run).slots| && ReadIndex(run, a) == LastIndex(Cap(Last(run)), i, Settled(Last(run)))
  {
    RunInv(run, load);
    RunInv(run, |run| - 1);
    RunLater(run, load, |run| - 1);
    ModSmall(Counted(run[load]), U64);
    RequestedSlot(run[load], Last(run), 0);
    a := AttemptAt(run, |run| - 1, (Counted(run[load]) - 1) % Cap(run[load]));
  }

  /** In every capacity above one, after any run with something published and the writer idle, two
      successive `get_latest` calls can return an insert and then the one before it. */
  lemma LatestCanGoBack(run: seq<Ring>)
    returns (more: seq<Ring>, load1: nat, a1: Attempt, load2: nat, a2: Attempt)
    requires Run(run) && Last(run).writer == Idle && Last(run).started != []
    requires Last(run).k > 0 && |Last(run).started| + Pow2(Last(run).k) < U64
    ensures run <= more && Got(more, load1, 0, a1) && Got(more, load2, 0, a2) && a1.after <= load2
    ensures ReadIndex(more, a2) == ReadIndex(more, a1) - 1
  {
    hide Inv, Got, Step, ReadIndex, LastIndex, Pow2;
    RunInv(run, |run| - 1);
    TwoSlots(Last(run).k);
    var w, cap := |Last(run).started|, Cap(Last(run));
    more := AlmostLap(run, cap - 1);
    load1 := |run| - 1;
    load2 := |more| - 1;
    assert more[load1] == Last(run);
    RunInv(more, load2);
    a1 := LatestNow(more, load1);
    a2 := LatestNow(more, load2);
    LapAhead(cap, w);
  }

  lemma TwoSlots(k: nat)
    requires k > 0
    ensures Pow2(k) >= 2
  {
  }

  /** With a single slot it never does. */
  lemma SingleSlotNeverGoesBack(run: seq<Ring>, load1: nat, a1: Attempt, load2: nat, a2: Attempt)
    requires Got(run, load1, 0, a1) && Got(run, load2, 0, a2) && run[0].k == 0
    requires a1.after <= load2
    ensures ReadIndex(run, a2) >= ReadIndex(run, a1)
  {
    RunInv(run, load1);
    RunInv(run, load2);
    RunLater(run, 0, load1);
    RunLater(run, 0, load2);
    RunLater(run, load1, a1.before);
    RunLater(run, a1.before, a2.before);
    RequestedSlot(run[load1], run[a1.before], 0);
    assert a1.slot == 0;
    RunLater(run, load2, a2.before);
    RequestedSlot(run[load2], run[a2.before], 0);
    assert a2.slot == 0;
    SlotMonotone(1, 0, Settled(run[a1.before]), Settled(run[a2.before]));
  }

  // ---------------------------------------------------------------------------------------------
  // The counter window is exact
  // ---------------------------------------------------------------------------------------------

  /** After `laps` whole laps of inserting v, w inserts in all, every slot holds v and its counter is
      2 * laps. */
  lemma WholeLaps(s: Ring, i: nat, v: Value, laps: nat, w: nat)
    requires Inv(s) && s.writer == Idle && i < |s.slots|
    requires s.started == seq(w, _ => v) && w >= Cap(s) && w / Cap(s) == laps && w % Cap(s) == 0
    ensures s.slots[i].data == v && s.slots[i].counter == 2 * laps % U32
    ensures Completed(Cap(s), i, Settled(s)) == laps
  {
    assert SlotInv(s, i);
    hide Inv, Pow2;
    assert Settled(s) == w;
    assert LastIndex(Cap(s), i, w) == w + i - Cap(s);
  }

  lemma LapsOf(laps: nat, cap: nat) returns (w: nat)
    requires laps > 0 && cap > 0
    ensures w == laps * cap && w >= cap && w / cap == laps && w % cap == 0
  {
    w := laps * cap;
    MultipleBound(cap, laps);
    ModUnique(w, cap, laps, 0);
  }

  /** In every capacity, on every slot: an attempt that spans exactly 2^31 inserts into the slot is
      accepted and can return a value that no insert ever had. So the window cannot be wider. */
  lemma WindowIsTight(k: nat, i: nat) returns (run: seq<Ring>, a: Attempt)
    requires k < 64 && i < Pow2(k)
    ensures Accepted(run, a) && a.slot == i
    ensures WellFormed(run[a.before]) && WellFormed(run[a.after]) && Hits(run[a.before], run[a.after], i) == HALF
    ensures a.out != Zeros(run[0].size) && forall n :: 0 <= n < |run[a.after].started| ==> a.out != run[a.after].started[n]
  {
    var z := Ring(k, 2, 0, seq(Pow2(k), _ => Slot(0, Zeros(2))), Idle, [], map[]);
    InitInv(z);
    var v: Value := [1, 1];
    var w := LapsOf(HALF, Pow2(k));
    run := ManyInserts([z], v, w);
    var e := |run| - 1;
    assert run[0] == z;
    assert Last(run).started == seq(w, _ => v);
    WholeLaps(run[e], i, v, HALF, w);
    ModUnique(0, Pow2(k), 0, 0);
    a := Attempt(i, 0, [0, e], e, [0, 1]);
    assert SampledByte(run, a, 0) && SampledByte(run, a, 1);
    assert v[0] != a.out[0] && Zeros(2)[1] != a.out[1];
  }

  // ---------------------------------------------------------------------------------------------
  // A stale sleep
  // ---------------------------------------------------------------------------------------------

  /** In every capacity, for every payload: a caller of `wait_for_write(0)` loads the count 0, 2^32
      inserts are published, and the kernel then puts it to sleep, with nobody left to wake it. */
  lemma SleepsThroughInserts(k: nat, v: Value) returns (run: seq<Ring>)
    requires k < 64
    ensures Run(run) && Last(run).k == k && Last(run).writer == Idle
    ensures 0 in Last(run).waiters && Last(run).waiters[0].Asleep?
    ensures Last(run).waiters[0].lastSeen == 0 && Last(run).total == U32
  {
    run := InitRun(k, |v|);
    run := Extend(run, WaitCall(0, 0));
    RunInv(run, 1);
    assert Last(run).waiters == map[0 := Polling(0)] && Last(run).total == 0;
    run := Extend(run, WaitLoad(0));
    assert Last(run).waiters == map[0 := Comparing(0, 0)];
    run := ManyInserts(run, v, U32);
    ModSmall(U32, U64);
    run := Extend(run, WaitSleep(0));
  }

  lemma InitRun(k: nat, size: nat) returns (run: seq<Ring>)
    requires k < 64
    ensures Run(run) && Inv(Last(run)) && Last(run).writer == Idle && Last(run).started == []
    ensures Last(run).k == k && Last(run).size == size && |run| == 1 && Last(run).waiters == map[] && Last(run).total == 0
  {
    var z := Ring(k, size, 0, seq(Pow2(k), _ => Slot(0, Zeros(size))), Idle, [], map[]);
    InitInv(z);
    run := [z];
  }
}
