/** What holds in every run of the cyclic buffer: slot counters, what a reader can get, and
    `wait_for_write`. Readers touch nothing shared, so one reader's loads are samples of the run. */
module RingSafety {
  import opened Bits
  import opened RingProtocol

  ghost predicate Step(s: Ring, t: Ring) {
    WellFormed(s) && exists a :: Enabled(s, a) && t == Next(s, a)
  }

  ghost predicate Run(run: seq<Ring>) {
    && run != []
    && Init(run[0])
    && forall t :: 0 <= t < |run| - 1 ==> Step(run[t], run[t + 1])
  }

  lemma {:induction false} RunInv(run: seq<Ring>, t: nat)
    requires Run(run) && t < |run|
    ensures Inv(run[t])
  {
    if t == 0 {
      InitInv(run[0]);
    } else {
      RunInv(run, t - 1);
      assert Step(run[t - 1], run[t - 1 + 1]);
      var a :| Enabled(run[t - 1], a) && run[t] == Next(run[t - 1], a);
      StepInv(run[t - 1], a);
    }
  }

  /** In every reachable state, slot i's counter is twice the number of published inserts into it,
      modulo 2^32; only the slot of the next insert runs ahead, by where the writer is. */
  lemma SlotCounters(run: seq<Ring>, t: nat, i: nat)
    requires Run(run) && t < |run| && i < |run[t].slots|
    ensures WellFormed(run[t]) && run[t].total == Counted(run[t]) % U64
    ensures
      var w, cap := Counted(run[t]), Cap(run[t]);
      var ahead := if i != w % cap then 0
                   else if run[t].writer.Copying? then 1 else if run[t].writer.Sealed? then 2 else 0;
      run[t].slots[i].counter == (2 * ((w + cap - 1 - i) / cap) + ahead) % U32
  {
    RunInv(run, t);
    assert SlotInv(run[t], i);
    var w, cap := Counted(run[t]), Cap(run[t]);
    CompletedFormula(cap, i, w);
    SlotStep(cap, i, w);
  }

  // ---------------------------------------------------------------------------------------------
  // What time does to a slot
  // ---------------------------------------------------------------------------------------------

  /** Slot i has moved forward, and an even version names one content. */
  ghost predicate SlotLater(s: Ring, t: Ring, i: nat)
    requires WellFormed(s) && WellFormed(t) && i < |s.slots| && i < |t.slots|
  {
    && Version(s, i) <= Version(t, i)
    && (Version(s, i) == Version(t, i) && Version(s, i) % 2 == 0 ==> s.slots[i].data == t.slots[i].data)
  }

  /** What a reader may rely on while the writer and everyone else run. */
  ghost predicate Later(s: Ring, t: Ring) {
    && WellFormed(s) && WellFormed(t)
    && s.k == t.k && s.size == t.size
    && s.started <= t.started
    && Counted(s) <= Counted(t)
    && Settled(s) <= Settled(t)
    && forall i :: 0 <= i < |s.slots| ==> SlotLater(s, t, i)
  }

  lemma LaterRefl(s: Ring)
    requires WellFormed(s)
    ensures Later(s, s)
  {
  }

  lemma LaterTrans(s: Ring, t: Ring, u: Ring)
    requires Later(s, t) && Later(t, u)
    ensures Later(s, u)
  {
    forall i | 0 <= i < |s.slots|
      ensures SlotLater(s, u, i)
    {
      assert SlotLater(s, t, i) && SlotLater(t, u, i);
    }
  }

  lemma StepSlotLater(s: Ring, a: Action, i: nat)
    requires Inv(s) && Enabled(s, a) && i < |s.slots| && WellFormed(Next(s, a))
    ensures SlotLater(s, Next(s, a), i)
  {
    if a.MarkEven? {
      MarkEvenLater(s, i);
    } else {
      hide Inv, Enabled, Next, Settled, Completed, UnderCopy, WellFormed;
      SettledStays(s, a, i);
      StepKeepsContent(s, a, i);
      VersionStays(s, Next(s, a), i);
      hide Version;
    }
  }

  lemma VersionStays(s: Ring, t: Ring, i: nat)
    requires WellFormed(s) && WellFormed(t) && i < |s.slots| && i < |t.slots|
    requires Settled(t) == Settled(s) && Cap(t) == Cap(s) && (UnderCopy(s, i) ==> UnderCopy(t, i))
    ensures Version(s, i) <= Version(t, i)
    ensures Version(s, i) == Version(t, i) && Version(s, i) % 2 == 0 ==> !UnderCopy(s, i)
  {
    hide Completed, UnderCopy, Settled;
  }

  lemma SettledStays(s: Ring, a: Action, i: nat)
    requires Inv(s) && Enabled(s, a) && !a.MarkEven? && WellFormed(Next(s, a))
    ensures Settled(Next(s, a)) == Settled(s) && Cap(Next(s, a)) == Cap(s) && |Next(s, a).slots| == |s.slots|
    ensures UnderCopy(s, i) ==> UnderCopy(Next(s, a), i)
  {
  }

  lemma MarkEvenLater(s: Ring, i: nat)
    requires Inv(s) && Enabled(s, MarkEven) && i < |s.slots| && WellFormed(Next(s, MarkEven))
    ensures SlotLater(s, Next(s, MarkEven), i)
  {
    WriterSlot(s);
    SlotStep(Cap(s), i, Settled(s));
    assert Settled(Next(s, MarkEven)) == Settled(s) + 1;
    hide Inv, Completed, LastIndex;
  }

  /** Only a slot with an odd counter has its bytes changed. */
  lemma StepKeepsContent(s: Ring, a: Action, i: nat)
    requires Inv(s) && Enabled(s, a) && i < |s.slots| && WellFormed(Next(s, a))
    ensures s.slots[i].data == Next(s, a).slots[i].data || UnderCopy(s, i)
    ensures i < |Next(s, a).slots|
  {
    if a.CopyByte? {
      WriterSlot(s);
    }
  }

  lemma StepLater(s: Ring, a: Action)
    requires Inv(s) && Enabled(s, a)
    ensures Later(s, Next(s, a))
  {
    StepInv(s, a);
    forall i | 0 <= i < |s.slots|
      ensures SlotLater(s, Next(s, a), i)
    {
      StepSlotLater(s, a, i);
    }
  }

  lemma {:induction false} RunLater(run: seq<Ring>, b: nat, e: nat)
    requires Run(run) && b <= e < |run|
    ensures Later(run[b], run[e])
    decreases e
  {
    hide Inv, Later, Enabled, Next;
    RunInv(run, b);
    if b == e {
      LaterRefl(run[b]);
    } else {
      RunLater(run, b, e - 1);
      RunInv(run, e - 1);
      assert Step(run[e - 1], run[e - 1 + 1]);
      var a :| Enabled(run[e - 1], a) && run[e] == Next(run[e - 1], a);
      StepLater(run[e - 1], a);
      LaterTrans(run[b], run[e - 1], run[e]);
    }
  }

  // ---------------------------------------------------------------------------------------------
  // Accepted reads
  // ---------------------------------------------------------------------------------------------

  /** Inserts into slot i sealed between two moments. */
  function Hits(s: Ring, t: Ring, i: nat): int
    requires WellFormed(s) && WellFormed(t)
  {
    Completed(Cap(t), i, Settled(t)) - Completed(Cap(s), i, Settled(s))
  }

  const HALF: nat := 0x8000_0000

  lemma VersionParity(s: Ring, i: nat)
    requires Inv(s) && i < |s.slots|
    ensures s.slots[i].counter % 2 == Version(s, i) % 2
  {
    assert SlotInv(s, i);
    ModMod(Version(s, i), 2, HALF);
  }

  lemma CopiedIsOdd(s: Ring, i: nat)
    requires Inv(s) && i < |s.slots| && UnderCopy(s, i)
    ensures s.slots[i].counter % 2 == 1
  {
    hide UnderCopy, Version, SlotInv;
    VersionParity(s, i);
    OddVersion(s, i);
  }

  lemma OddVersion(s: Ring, i: nat)
    requires WellFormed(s) && i < |s.slots| && UnderCopy(s, i)
    ensures Version(s, i) % 2 == 1
  {
    hide UnderCopy, Completed, Settled, WellFormed;
  }

  /** Equal even counters at both ends and fewer than 2^31 inserts in between pin the version. */
  lemma EqualCounters(s: Ring, t: Ring, i: nat)
    requires Inv(s) && Inv(t) && Later(s, t) && i < |s.slots|
    requires s.slots[i].counter % 2 == 0 && s.slots[i].counter == t.slots[i].counter
    requires Hits(s, t, i) < HALF
    ensures Version(s, i) == Version(t, i) && Version(s, i) % 2 == 0
  {
    assert SlotInv(s, i) && SlotInv(t, i) && SlotLater(s, t, i);
    SameResidue(Version(s, i), Version(t, i));
  }

  lemma SameResidue(x: nat, y: nat)
    requires x <= y && x % U32 == y % U32 && x % U32 % 2 == 0
    ensures x % 2 == 0
    ensures y - x < U32 ==> x == y
  {
    ModMod(x, 2, HALF);
    DivMod(x, U32);
    DivMod(y, U32);
    MultipleBound(U32, y / U32 - x / U32);
  }

  /** The insert whose argument an even slot holds; negative while the slot was never written. */
  function Holds(s: Ring, i: nat): int
    requires WellFormed(s) && i < |s.slots|
  {
    LastIndex(Cap(s), i, Settled(s))
  }

  /** An even slot holds the whole argument of one insert, its most recent one. */
  lemma EvenSlotContent(s: Ring, i: nat)
    requires Inv(s) && i < |s.slots| && Version(s, i) % 2 == 0
    ensures Holds(s, i) <= Counted(s)
    ensures Holds(s, i) < |s.started|
    ensures s.slots[i].data == if Holds(s, i) < 0 then Zeros(s.size) else s.started[Holds(s, i)]
    ensures Holds(s, i) >= 0 ==> Holds(s, i) % Cap(s) == i
  {
    assert SlotInv(s, i);
    SlotMonotone(Cap(s), i, Settled(s), Settled(s));
    LastIndexResidue(Cap(s), i, Settled(s));
  }

  lemma LastIndexResidue(cap: nat, i: nat, w: nat)
    requires cap > 0 && i < cap
    ensures LastIndex(cap, i, w) % cap == i
  {
    DivMod(w, cap);
    var q := w / cap;
    if i < w % cap {
      ModUnique(LastIndex(cap, i, w), cap, q, i);
    } else {
      assert cap * (q - 1) == cap * q - cap;
      ModUnique(LastIndex(cap, i, w), cap, q - 1, i);
    }
  }

  /** The times at which one attempt of `read_slot`/`try_read_slot` on slot i did its loads: the
      counter before, each byte in any order, the counter after. */
  datatype Attempt = Attempt(slot: nat, before: nat, copied: seq<nat>, after: nat, out: Value)

  ghost predicate Accepted(run: seq<Ring>, r: Attempt) {
    && Run(run)
    && r.before <= r.after < |run|
    && r.slot < |run[r.before].slots| && |run[r.after].slots| == |run[r.before].slots|
    && |r.copied| == |r.out| == run[0].size
    && run[r.before].slots[r.slot].counter % 2 == 0
    && run[r.before].slots[r.slot].counter == run[r.after].slots[r.slot].counter
    && forall j :: 0 <= j < |r.out| ==> SampledByte(run, r, j)
  }

  ghost predicate SampledByte(run: seq<Ring>, r: Attempt, j: nat)
    requires r.before <= r.after < |run| && |r.copied| == |r.out| && j < |r.out|
  {
    && r.before <= r.copied[j] <= r.after
    && r.slot < |run[r.copied[j]].slots|
    && j < |run[r.copied[j]].slots[r.slot].data|
    && r.out[j] == run[r.copied[j]].slots[r.slot].data[j]
  }

  ghost predicate WithinWindow(run: seq<Ring>, r: Attempt)
    requires Accepted(run, r)
  {
    WellFormed(run[r.before]) && WellFormed(run[r.after]) && Hits(run[r.before], run[r.after], r.slot) < HALF
  }

  /** The insert number an accepted attempt read. */
  function ReadIndex(run: seq<Ring>, r: Attempt): int
    requires r.before < |run| && WellFormed(run[r.before]) && r.slot < |run[r.before].slots|
  {
    Holds(run[r.before], r.slot)
  }

  /** No torn reads. Whatever the interleaving, an accepted attempt on a written slot returns
      exactly the argument of one insert into that slot; one it finds unwritten returns zeros. */
  lemma NoTornRead(run: seq<Ring>, r: Attempt)
    requires Accepted(run, r) && WithinWindow(run, r)
    ensures var n := ReadIndex(run, r);
            && n < |run[r.after].started|
            && n <= Counted(run[r.after])
            && r.out == (if n < 0 then Zeros(run[0].size) else run[r.after].started[n])
            && (n >= 0 ==> n % Cap(run[0]) == r.slot)
  {
    var i, s, t := r.slot, run[r.before], run[r.after];
    RunInv(run, r.before);
    RunInv(run, r.after);
    RunLater(run, 0, r.before);
    RunLater(run, r.before, r.after);
    EqualCounters(s, t, i);
    EvenSlotContent(s, i);
    forall j | 0 <= j < |r.out|
      ensures r.out[j] == s.slots[i].data[j]
    {
      assert SampledByte(run, r, j);
      RunLater(run, r.before, r.copied[j]);
      RunLater(run, r.copied[j], r.after);
      assert SlotLater(s, run[r.copied[j]], i) && SlotLater(run[r.copied[j]], t, i);
    }
    assert r.out == s.slots[i].data;
  }

  /** `try_get(r)` that loaded the count at time `load` and then accepted an attempt. */
  ghost predicate Got(run: seq<Ring>, load: nat, r: nat, a: Attempt) {
    && Accepted(run, a) && WithinWindow(run, a)
    && load <= a.before
    && r < run[load].total && r < Pow2(run[load].k)
    && a.slot == And(Sub64(Sub64(run[load].total, 1), r), Pow2(run[load].k) - 1)
    && WellFormed(run[load]) && Counted(run[load]) < U64
  }

  /** The slot `try_get(r)` picks after loading the count in state s: in it, now and later, is the
      requested insert or a newer one. */
  lemma RequestedSlot(s: Ring, t: Ring, r: nat)
    requires Inv(s) && Later(s, t) && Counted(s) < U64
    requires r < s.total && r < Cap(s)
    ensures s.total == Counted(s)
    ensures var i := And(Sub64(Sub64(s.total, 1), r), Cap(s) - 1);
            && i == (Counted(s) - 1 - r) % Cap(s) < |t.slots|
            && Counted(s) - 1 - r <= Holds(t, i)
            && (Settled(t) == Counted(s) ==> Holds(t, i) == Counted(s) - 1 - r)
  {
    var w := Counted(s);
    ModSmall(w, U64);
    SlotIndex(w, r, s.k);
    ReverseIndex(Cap(s), w, r);
    SlotMonotone(Cap(s), (w - 1 - r) % Cap(s), w, Settled(t));
  }

  /** Until a whole lap later, insert n stays the last one in its slot, and no other insert goes there. */
  lemma {:induction false} WithinLap(cap: nat, n: nat, w: nat)
    requires cap > 0 && n < w <= n + cap
    ensures n % cap < cap && LastIndex(cap, n % cap, w) == n && Completed(cap, n % cap, w) == n / cap + 1
    ensures w < n + cap ==> w % cap != n % cap
    decreases w
  {
    SlotStep(cap, n % cap, w - 1);
    if w < n + cap {
      OtherSlot(cap, n, w);
    }
    if n + 1 < w {
      WithinLap(cap, n, w - 1);
    }
  }

  lemma OtherSlot(cap: nat, n: nat, w: nat)
    requires cap > 0 && n < w < n + cap
    ensures w % cap != n % cap
  {
    DivMod(n, cap);
    DivMod(w, cap);
    var d := w / cap - n / cap;
    assert cap * d == cap * (w / cap) - cap * (n / cap);
    MultipleBound(cap, d);
  }

  /** A slot gets at most one insert per insert. */
  lemma {:induction false} CompletedGrowth(cap: nat, i: nat, w: nat, w': nat)
    requires cap > 0 && i < cap && w <= w'
    ensures Completed(cap, i, w') - Completed(cap, i, w) <= w' - w
    decreases w'
  {
    if w < w' {
      CompletedGrowth(cap, i, w, w' - 1);
      SlotStep(cap, i, w' - 1);
    }
  }

  /** Between two moments a slot gets no more inserts than were in flight or begun in between. */
  lemma HitsBound(s: Ring, t: Ring, i: nat)
    requires Later(s, t) && i < |s.slots|
    ensures 0 <= Hits(s, t, i) <= |t.started| - Counted(s)
  {
    SlotMonotone(Cap(s), i, Settled(s), Settled(t));
    CompletedGrowth(Cap(s), i, Settled(s), Settled(t));
  }

  lemma StandsStill(s: Ring, t: Ring, n: nat)
    requires WellFormed(s) && WellFormed(t) && Cap(s) == Cap(t)
    requires n < Counted(s) && Settled(s) <= Settled(t) && |s.started| <= |t.started| <= n + Cap(s)
    ensures n % Cap(s) < |s.slots| && Holds(t, n % Cap(s)) == n
    ensures Version(s, n % Cap(s)) == Version(t, n % Cap(s)) && Version(s, n % Cap(s)) % 2 == 0 && Hits(s, t, n % Cap(s)) == 0
  {
    WithinLap(Cap(s), n, Settled(s));
    WithinLap(Cap(s), n, Settled(t));
    hide LastIndex, Completed, Pow2;
  }

  lemma SettledGrows(s: Ring, t: Ring)
    requires Later(s, t)
    ensures Settled(s) <= Settled(t) && Cap(s) == Cap(t) && WellFormed(s) && WellFormed(t)
    ensures |s.started| <= |t.started|
  {
  }

  /** Insert n belongs in slot i. */
  predicate BelongsIn(s: Ring, n: int, i: int) {
    n >= 0 && i == n % Cap(s)
  }

  lemma RequestedBelongs(s: Ring, t: Ring, r: nat)
    requires Inv(s) && Later(s, t) && Counted(s) < U64
    requires r < s.total && r < Cap(s)
    ensures s.total == Counted(s)
    ensures BelongsIn(s, Counted(s) - 1 - r, And(Sub64(Sub64(s.total, 1), r), Cap(s) - 1))
  {
    hide And, Sub64, Pow2, Inv, Later;
    RequestedSlot(s, t, r);
  }

  lemma StillBelongs(s: Ring, t: Ring, n: nat, i: int)
    requires WellFormed(s) && WellFormed(t) && Cap(s) == Cap(t) && BelongsIn(s, n, i)
    requires n < Counted(s) && Settled(s) <= Settled(t) && |s.started| <= |t.started| <= n + Cap(s)
    ensures 0 <= i < |s.slots| && i < |t.slots| && Holds(t, i) == n
    ensures Version(s, i) == Version(t, i) && Version(s, i) % 2 == 0 && Hits(s, t, i) == 0
  {
    SlotCount(s);
    SlotCount(t);
    hide Version, Holds, Hits, Pow2, WellFormed;
    StandsStill(s, t, n);
  }

  lemma SlotCount(s: Ring)
    requires WellFormed(s)
    ensures |s.slots| == Cap(s)
  {
  }

  /** While the insert that would overwrite the requested one has not begun, its slot stands still. */
  lemma RoomLeft(s: Ring, t: Ring, r: nat)
    requires Inv(s) && Inv(t) && Later(s, t) && Counted(s) < U64
    requires r < s.total && r < Cap(s) && |t.started| <= s.total - 1 - r + Cap(s)
    ensures s.total == Counted(s)
    ensures var i := And(Sub64(Sub64(s.total, 1), r), Cap(s) - 1);
            && i < |s.slots| && i < |t.slots|
            && Holds(t, i) == s.total - 1 - r
            && Version(s, i) % 2 == 0 && Version(s, i) == Version(t, i) && Hits(s, t, i) == 0
  {
    SettledGrows(s, t);
    hide Inv, Later, Version, Holds, Hits, And, Pow2, Sub64, WellFormed, BelongsIn;
    RequestedBelongs(s, t, r);
    StillBelongs(s, t, s.total - 1 - r, And(Sub64(Sub64(s.total, 1), r), Cap(s) - 1));
  }

  /** With the writer idle, the slot of a readable reverse index is even and holds that insert. */
  lemma IdleSlot(s: Ring, r: nat)
    requires Inv(s) && s.writer == Idle && |s.started| < U64 && r < |s.started| && r < Cap(s)
    ensures s.total == |s.started|
    ensures var i := And(Sub64(Sub64(s.total, 1), r), Cap(s) - 1);
            && i < |s.slots| && s.slots[i].counter % 2 == 0 && Holds(s, i) == |s.started| - 1 - r
            && s.slots[i].data == s.started[|s.started| - 1 - r] && Hits(s, s, i) == 0
  {
    LaterRefl(s);
    ModSmall(Counted(s), U64);
    hide Inv, Later, Holds, Version, And, Sub64, Pow2;
    RoomLeft(s, s, r);
    var i := And(Sub64(Sub64(s.total, 1), r), Cap(s) - 1);
    EvenSlotContent(s, i);
    VersionParity(s, i);
  }

  /** Which element a reader gets: never older than the one it asked for, a whole number of laps
      ahead of it, and never newer than the insert being published when the attempt was accepted. */
  lemma GetReturnsRequestedOrNewer(run: seq<Ring>, load: nat, r: nat, a: Attempt)
    requires Got(run, load, r, a)
    ensures run[load].total == Counted(run[load])
    ensures run[load].total - 1 - r <= ReadIndex(run, a) <= Counted(run[a.after])
    ensures ReadIndex(run, a) < |run[a.after].started| && a.out == run[a.after].started[ReadIndex(run, a)]
    ensures exists laps: nat {:trigger laps * Cap(run[0])} ::
              ReadIndex(run, a) == run[load].total - 1 - r + laps * Cap(run[0])
  {
    RunInv(run, load);
    RunLater(run, 0, load);
    RunLater(run, load, a.before);
    NoTornRead(run, a);
    RequestedSlot(run[load], run[a.before], r);
    SameResidueQuotient(ReadIndex(run, a), run[load].total - 1 - r, Cap(run[0]));
  }

  lemma SameResidueQuotient(x: int, y: int, m: nat)
    requires m > 0 && y <= x && x % m == y % m
    ensures exists q: nat {:trigger q * m} :: x == y + q * m
  {
    DivMod(x, m);
    DivMod(y, m);
    var q := x / m - y / m;
    assert m * q == m * (x / m) - m * (y / m);
    MultipleBound(m, q);
    assert x == y + q * m;
  }

  /** Successive `get_latest` calls by one reader go back by at most one insert, and do not go back
      at all when the first was not lapped. */
  lemma NearMonotoneLatest(run: seq<Ring>, load1: nat, a1: Attempt, load2: nat, a2: Attempt)
    requires Got(run, load1, 0, a1) && Got(run, load2, 0, a2)
    requires a1.after <= load2
    ensures ReadIndex(run, a2) >= ReadIndex(run, a1) - 1
    ensures ReadIndex(run, a1) == run[load1].total - 1 ==> ReadIndex(run, a2) >= ReadIndex(run, a1)
    ensures ReadIndex(run, a2) < ReadIndex(run, a1) ==> ReadIndex(run, a1) == run[load2].total
  {
    GetReturnsRequestedOrNewer(run, load1, 0, a1);
    GetReturnsRequestedOrNewer(run, load2, 0, a2);
    RunLater(run, a1.after, load2);
    RunLater(run, load1, load2);
  }

  // ---------------------------------------------------------------------------------------------
  // wait_for_write
  // ---------------------------------------------------------------------------------------------

  /** Fewer than 2^32 inserts fall between a waiter's 64-bit load and the kernel's 32-bit compare. */
  ghost predicate Calm(s: Ring, a: Action)
    requires WellFormed(s) && Enabled(s, a)
  {
    a.WaitSleep? ==> Counted(s) - s.waiters[a.id].at < U32
  }

  /** A sleeper has seen every published insert, unless the writer still owes its wake-up. */
  ghost predicate NobodyOversleeps(s: Ring)
    requires WellFormed(s)
  {
    forall id :: id in s.waiters && s.waiters[id].Asleep? ==>
                   s.waiters[id].at == Counted(s) || s.writer == Published
  }

  ghost predicate CalmStep(s: Ring, t: Ring) {
    WellFormed(s) && exists a :: Enabled(s, a) && Calm(s, a) && t == Next(s, a)
  }

  ghost predicate CalmRun(run: seq<Ring>) {
    Run(run) && forall t :: 0 <= t < |run| - 1 ==> CalmStep(run[t], run[t + 1])
  }

  lemma CalmStepKeepsWatch(s: Ring, a: Action)
    requires Inv(s) && NobodyOversleeps(s) && Enabled(s, a) && Calm(s, a)
    ensures WellFormed(Next(s, a)) && NobodyOversleeps(Next(s, a))
  {
    StepInv(s, a);
    if a.WaitSleep? {
      LowHalf(s.waiters[a.id].at, Counted(s));
    }
  }

  /** The low 32 bits of two counts, each kept modulo 2^64, agree iff the counts agree modulo 2^32. */
  lemma LowHalf(x: nat, y: nat)
    requires x <= y
    ensures (x % U64 % U32 == y % U64 % U32) <==> ((y - x) % U32 == 0)
    ensures y - x < U32 && x % U64 % U32 == y % U64 % U32 ==> x == y
  {
    assert U32 * U32 == U64;
    ModMod(x, U32, U32);
    ModMod(y, U32, U32);
  }

  lemma {:induction false} WatchKept(run: seq<Ring>, t: nat)
    requires CalmRun(run) && t < |run|
    ensures Inv(run[t]) && NobodyOversleeps(run[t])
  {
    RunInv(run, t);
    if t > 0 {
      WatchKept(run, t - 1);
      assert CalmStep(run[t - 1], run[t - 1 + 1]);
      var a :| Enabled(run[t - 1], a) && Calm(run[t - 1], a) && run[t] == Next(run[t - 1], a);
      CalmStepKeepsWatch(run[t - 1], a);
    }
  }

  /** `wait_for_write` never sleeps through a write. */
  lemma NeverSleepsThroughWrite(run: seq<Ring>, t: nat, id: nat)
    requires CalmRun(run) && t < |run|
    requires id in run[t].waiters && run[t].waiters[id].Asleep?
    ensures run[t].total == run[t].waiters[id].lastSeen || run[t].writer == Published
  {
    WatchKept(run, t);
  }

  /** Without the bound, the kernel puts a waiter to sleep on a stale count exactly when a positive
      multiple of 2^32 inserts was published between its load and the compare. */
  lemma StaleSleepExactly(s: Ring, id: nat)
    requires Inv(s) && Enabled(s, WaitSleep(id)) && Counted(s) < U64
    ensures var t, at := Next(s, WaitSleep(id)), s.waiters[id].at;
            (t.waiters[id].Asleep? && t.total != t.waiters[id].lastSeen)
            <==> (Counted(s) != at && (Counted(s) - at) % U32 == 0)
  {
    LowHalf(s.waiters[id].at, Counted(s));
  }
}
