/** The cyclic buffer as a transition system: one writer inside `insert`, callers of
    `wait_for_write`, and the kernel's wait queue. Every atomic load, every atomic store, every
    byte of the copy and every system call is one step. */
module RingProtocol {
  import opened Bits

  /** `[uint32 seq | data]` */
  datatype Slot = Slot(counter: nat, data: Value)

  /** Where the writer is inside `insert`. Locals are the ones the code keeps. */
  datatype Writer =
    | Idle
    | Entered
    | HasTotal(writes: nat)
    | HasCounter(writes: nat, cur: nat)
    | Copying(writes: nat, cur: nat, done: set<nat>)
    | Sealed(writes: nat)
    | Published

  /** A caller of `wait_for_write(lastSeen)`. `at` is the unbounded number of inserts published
      when the caller last loaded the 64-bit count. */
  datatype Waiter =
    | Polling(lastSeen: nat)
    | Comparing(lastSeen: nat, at: nat)
    | Asleep(lastSeen: nat, at: nat)
    | Returned(count: nat)
    | TimedOut

  /** `started` records the argument of every `insert` ever begun, in order. */
  datatype Ring = Ring(
    k: nat,
    size: nat,
    total: nat,
    slots: seq<Slot>,
    writer: Writer,
    started: seq<Value>,
    waiters: map<nat, Waiter>)

  datatype Action =
    | Begin(v: Value)
    | LoadTotal
    | LoadCounter
    | MarkOdd
    | CopyByte(j: nat)
    | MarkEven
    | Publish
    | Wake
    | WaitCall(id: nat, lastSeen: nat)
    | WaitLoad(id: nat)
    | WaitSleep(id: nat)
    | WaitReturn(id: nat)
    | WaitTimeout(id: nat)

  /** Capacity. */
  function Cap(s: Ring): (n: nat)
    ensures n > 0
  {
    Pow2(s.k)
  }

  predicate WellFormed(s: Ring) {
    && s.k < 64
    && s.total < U64
    && |s.slots| == Pow2(s.k)
    && (forall i :: 0 <= i < |s.slots| ==> |s.slots[i].data| == s.size)
    && (forall n :: 0 <= n < |s.started| ==> |s.started[n]| == s.size)
    && (s.writer != Idle ==> s.started != [])
  }

  /** `writes & (N - 1)` */
  function SlotOf(k: nat, writes: nat): (i: nat)
    ensures i == writes % Pow2(k) && i < Pow2(k)
  {
    AndMask(writes, k);
    And(writes, Pow2(k) - 1)
  }

  /** Zeroed shared memory, nobody inside a call. */
  predicate Init(s: Ring) {
    && s.k < 64
    && s.total == 0
    && s.slots == seq(Pow2(s.k), _ => Slot(0, Zeros(s.size)))
    && s.writer == Idle
    && s.started == []
    && s.waiters == map[]
  }

  predicate Enabled(s: Ring, a: Action)
    requires WellFormed(s)
  {
    match a
    case Begin(v) => s.writer == Idle && |v| == s.size
    case LoadTotal => s.writer == Entered
    case LoadCounter => s.writer.HasTotal?
    case MarkOdd => s.writer.HasCounter?
    case CopyByte(j) => s.writer.Copying? && j < s.size && j !in s.writer.done
    case MarkEven => s.writer.Copying? && forall j :: 0 <= j < s.size ==> j in s.writer.done
    case Publish => s.writer.Sealed?
    case Wake => s.writer == Published
    case WaitCall(id, last) =>
      last < U64 && (id in s.waiters ==> s.waiters[id].Returned? || s.waiters[id].TimedOut?)
    case WaitLoad(id) => id in s.waiters && s.waiters[id].Polling?
    case WaitSleep(id) => id in s.waiters && s.waiters[id].Comparing?
    case WaitReturn(id) => id in s.waiters && s.waiters[id].Asleep?
    case WaitTimeout(id) => id in s.waiters && s.waiters[id].Asleep?
  }

  function Next(s: Ring, a: Action): Ring
    requires WellFormed(s) && Enabled(s, a)
  {
    match a
    case Begin(v) => s.(writer := Entered, started := s.started + [v])
    case LoadTotal => s.(writer := HasTotal(s.total))
    case LoadCounter =>
      var w := s.writer.writes;
      s.(writer := HasCounter(w, s.slots[SlotOf(s.k, w)].counter))
    case MarkOdd =>
      var i := SlotOf(s.k, s.writer.writes);
      s.(slots := s.slots[i := s.slots[i].(counter := (s.writer.cur + 1) % U32)],
      writer := Copying(s.writer.writes, s.writer.cur, {}))
    case CopyByte(j) =>
      var i := SlotOf(s.k, s.writer.writes);
      var v := s.started[|s.started| - 1];
      s.(slots := s.slots[i := s.slots[i].(data := s.slots[i].data[j := v[j]])],
      writer := s.writer.(done := s.writer.done + {j}))
    case MarkEven =>
      var i := SlotOf(s.k, s.writer.writes);
      s.(slots := s.slots[i := s.slots[i].(counter := (s.writer.cur + 2) % U32)],
      writer := Sealed(s.writer.writes))
    case Publish => s.(total := (s.writer.writes + 1) % U64, writer := Published)
    case Wake => s.(writer := Idle, waiters := WakeAll(s.waiters))
    case WaitCall(id, last) => s.(waiters := s.waiters[id := Polling(last)])
    case WaitLoad(id) =>
      var last := s.waiters[id].lastSeen;
      s.(waiters := s.waiters[id :=
      if s.total != last then Returned(s.total) else Comparing(last, Counted(s))])
    case WaitSleep(id) =>
      // the kernel compares 32 bits: the low half of the count with the low half of lastSeen
      var w := s.waiters[id];
      s.(waiters := s.waiters[id :=
      if s.total % U32 == w.lastSeen % U32 then Asleep(w.lastSeen, w.at) else Polling(w.lastSeen)])
    case WaitReturn(id) => s.(waiters := s.waiters[id := Polling(s.waiters[id].lastSeen)])
    case WaitTimeout(id) => s.(waiters := s.waiters[id := TimedOut])
  }

  /** FUTEX_WAKE with no limit: every sleeper goes back to its loop. */
  function WakeAll(ws: map<nat, Waiter>): (r: map<nat, Waiter>)
    ensures r.Keys == ws.Keys
    ensures forall id :: id in ws ==> !r[id].Asleep?
    ensures forall id :: id in ws && !ws[id].Asleep? ==> r[id] == ws[id]
  {
    map id | id in ws :: if ws[id].Asleep? then Polling(ws[id].lastSeen) else ws[id]
  }

  // ---------------------------------------------------------------------------------------------
  // The unbounded view: how many inserts, and which insert each slot holds
  // ---------------------------------------------------------------------------------------------

  /** Inserts whose count has been published in `total_writes`. */
  function Counted(s: Ring): (n: nat)
    ensures n <= |s.started|
  {
    if s.writer == Idle || s.writer == Published || s.started == [] then |s.started| else |s.started| - 1
  }

  /** Inserts whose slot counter is even again. It runs ahead of `Counted` by one while sealed. */
  function Settled(s: Ring): (n: nat)
    ensures n <= |s.started|
  {
    if s.writer.Sealed? then |s.started| else Counted(s)
  }

  predicate InFlight(s: Ring) {
    s.writer != Idle && s.writer != Published
  }

  /** Number of n < w with n congruent to i modulo cap. */
  function Completed(cap: nat, i: nat, w: nat): nat
    requires cap > 0
  {
    w / cap + if i < w % cap then 1 else 0
  }

  /** The largest n < w with n congruent to i modulo cap, or a negative number if there is none. */
  function LastIndex(cap: nat, i: nat, w: nat): int
    requires cap > 0
  {
    w - w % cap + i - if i < w % cap then 0 else cap
  }

  /** The writer is copying into slot i. */
  predicate UnderCopy(s: Ring, i: nat) {
    s.writer.Copying? && i == Settled(s) % Cap(s)
  }

  /** The slot's counter without wrap-around. */
  function Version(s: Ring, i: nat): nat
    requires WellFormed(s) && i < |s.slots|
  {
    2 * Completed(Cap(s), i, Settled(s)) + if UnderCopy(s, i) then 1 else 0
  }

  /** What slot i holds once the first w inserts have settled. */
  function Content(s: Ring, i: nat, w: nat): (v: Value)
    requires WellFormed(s) && i < |s.slots| && w <= |s.started|
    ensures |v| == s.size
  {
    var n := LastIndex(Cap(s), i, w);
    DivMod(w, Cap(s));
    if n < 0 then Zeros(s.size) else s.started[n]
  }

  lemma CountStep(cap: nat, w: nat)
    requires cap > 0
    ensures w % cap + 1 < cap ==> (w + 1) % cap == w % cap + 1 && (w + 1) / cap == w / cap
    ensures w % cap + 1 == cap ==> (w + 1) % cap == 0 && (w + 1) / cap == w / cap + 1
  {
    DivMod(w, cap);
    var q, r := w / cap, w % cap;
    if r + 1 < cap {
      ModUnique(w + 1, cap, q, r + 1);
    } else {
      assert w + 1 == cap * (q + 1) by {
        assert cap * (q + 1) == cap * q + cap;
      }
      ModUnique(w + 1, cap, q + 1, 0);
    }
  }

  /** One more insert bumps its own slot and no other. */
  lemma SlotStep(cap: nat, i: nat, w: nat)
    requires cap > 0 && i < cap
    ensures Completed(cap, i, w + 1) == Completed(cap, i, w) + if i == w % cap then 1 else 0
    ensures LastIndex(cap, i, w + 1) == if i == w % cap then w else LastIndex(cap, i, w)
  {
    CountStep(cap, w);
  }

  lemma {:induction false} SlotMonotone(cap: nat, i: nat, w: nat, w': nat)
    requires cap > 0 && i < cap && w <= w'
    ensures Completed(cap, i, w) <= Completed(cap, i, w')
    ensures LastIndex(cap, i, w) <= LastIndex(cap, i, w') < w'
    decreases w'
  {
    if w < w' {
      SlotMonotone(cap, i, w, w' - 1);
      SlotStep(cap, i, w' - 1);
    }
    DivMod(w', cap);
  }

  /** `Completed` is the closed form floor((w + cap - 1 - i) / cap). */
  lemma CompletedFormula(cap: nat, i: nat, w: nat)
    requires cap > 0 && i < cap
    ensures Completed(cap, i, w) == (w + cap - 1 - i) / cap
  {
    DivMod(w, cap);
    var q, r := w / cap, w % cap;
    if i < r {
      assert w + cap - 1 - i == cap * (q + 1) + (r - 1 - i) by {
        assert cap * (q + 1) == cap * q + cap;
      }
      ModUnique(w + cap - 1 - i, cap, q + 1, r - 1 - i);
    } else {
      ModUnique(w + cap - 1 - i, cap, q, r + cap - 1 - i);
    }
  }

  /** Reverse index r out of w inserts lives in slot (w-1-r) mod cap, and is the last insert there. */
  lemma ReverseIndex(cap: nat, w: nat, r: nat)
    requires cap > 0 && r < cap && r < w
    ensures 0 <= (w - 1 - r) % cap < cap
    ensures LastIndex(cap, (w - 1 - r) % cap, w) == w - 1 - r
  {
    DivMod(w, cap);
    var q, m := w / cap, w % cap;
    if r < m {
      ModUnique(w - 1 - r, cap, q, m - 1 - r);
    } else {
      assert w - 1 - r == cap * (q - 1) + (m - 1 - r + cap) by {
        assert cap * (q - 1) == cap * q - cap;
      }
      ModUnique(w - 1 - r, cap, q - 1, m - 1 - r + cap);
    }
  }

  // ---------------------------------------------------------------------------------------------
  // Invariant
  // ---------------------------------------------------------------------------------------------

  /** A slot under copy holds the new byte where the copy has been and the old byte elsewhere. */
  function MixedByte(s: Ring, i: nat, j: nat): byte
    requires WellFormed(s) && i < |s.slots| && j < s.size && s.writer.Copying?
  {
    if j in s.writer.done then s.started[|s.started| - 1][j] else Content(s, i, Settled(s))[j]
  }

  ghost predicate SlotInv(s: Ring, i: nat)
    requires WellFormed(s) && i < |s.slots|
  {
    && s.slots[i].counter == Version(s, i) % U32
    && if UnderCopy(s, i) then
         forall j :: 0 <= j < s.size ==> s.slots[i].data[j] == MixedByte(s, i, j)
       else
         s.slots[i].data == Content(s, i, Settled(s))
  }

  ghost predicate WriterInv(s: Ring)
    requires WellFormed(s)
  {
    && s.total == Counted(s) % U64
    && (InFlight(s) && s.writer != Entered ==> s.writer.writes == s.total)
    && (s.writer.HasCounter? || s.writer.Copying? ==>
          s.writer.cur == 2 * Completed(Cap(s), Counted(s) % Cap(s), Counted(s)) % U32)
  }

  ghost predicate WaiterInv(s: Ring)
    requires WellFormed(s)
  {
    forall id :: id in s.waiters && (s.waiters[id].Comparing? || s.waiters[id].Asleep?) ==>
                   s.waiters[id].at <= Counted(s) && s.waiters[id].lastSeen == s.waiters[id].at % U64
  }

  ghost predicate Inv(s: Ring) {
    && WellFormed(s)
    && WriterInv(s)
    && WaiterInv(s)
    && forall i :: 0 <= i < |s.slots| ==> SlotInv(s, i)
  }

  lemma InitInv(s: Ring)
    requires Init(s)
    ensures Inv(s)
  {
    forall i | 0 <= i < |s.slots|
      ensures SlotInv(s, i)
    {
      assert 0 % Cap(s) == 0 && 0 / Cap(s) == 0;
    }
  }

  /** The 64-bit count selects the slot of the next insert even after it wraps. */
  lemma WriterSlot(s: Ring)
    requires Inv(s) && InFlight(s) && s.writer != Entered
    ensures SlotOf(s.k, s.writer.writes) == Counted(s) % Cap(s)
  {
    Mod64(Counted(s), s.k);
  }

  lemma StepWaiters(s: Ring, a: Action)
    requires Inv(s) && Enabled(s, a)
    ensures WellFormed(Next(s, a)) && WaiterInv(Next(s, a))
  {
  }

  /** The writer's own count never disagrees with the published one. */
  lemma StepWriter(s: Ring, a: Action)
    requires Inv(s) && Enabled(s, a)
    ensures WellFormed(Next(s, a)) && WriterInv(Next(s, a))
  {
    var c := Counted(s);
    var t := Next(s, a);
    if a.LoadCounter? {
      WriterSlot(s);
      assert SlotInv(s, c % Cap(s));
      assert Version(s, c % Cap(s)) == 2 * Completed(Cap(s), c % Cap(s), c);
    } else if a.Publish? {
      assert Counted(t) == c + 1;
      AddMod(c, 1, U64);
    } else {
      assert Counted(t) == c;
    }
  }

  /** Steps that leave the slots alone and settle nothing leave every slot's meaning alone. */
  lemma SlotFrame(s: Ring, t: Ring, i: nat)
    requires Inv(s) && WellFormed(t) && i < |s.slots|
    requires t.k == s.k && t.size == s.size && t.slots == s.slots && s.started <= t.started
    requires Settled(s) == Settled(t) && !s.writer.Copying? && !t.writer.Copying?
    ensures SlotInv(t, i)
  {
    assert SlotInv(s, i);
    SlotMonotone(Cap(s), i, Settled(s), Settled(s));
  }

  lemma StepMarkOdd(s: Ring, i: nat)
    requires Inv(s) && s.writer.HasCounter? && i < |s.slots| && WellFormed(Next(s, MarkOdd))
    ensures SlotInv(Next(s, MarkOdd), i)
  {
    assert SlotInv(s, i);
    WriterSlot(s);
    var t := Next(s, MarkOdd);
    var w := Settled(s);
    assert Settled(t) == w && Content(t, i, w) == Content(s, i, w);
    AddMod(2 * Completed(Cap(s), i, w), 1, U32);
  }

  lemma StepCopyByte(s: Ring, j: nat, i: nat)
    requires Inv(s) && Enabled(s, CopyByte(j)) && i < |s.slots| && WellFormed(Next(s, CopyByte(j)))
    ensures SlotInv(Next(s, CopyByte(j)), i)
  {
    assert SlotInv(s, i);
    WriterSlot(s);
    var t := Next(s, CopyByte(j));
    var w := Settled(s);
    assert Settled(t) == w && Content(t, i, w) == Content(s, i, w);
  }

  lemma StepMarkEven(s: Ring, i: nat)
    requires Inv(s) && Enabled(s, MarkEven) && i < |s.slots| && WellFormed(Next(s, MarkEven))
    ensures SlotInv(Next(s, MarkEven), i)
  {
    assert SlotInv(s, i);
    WriterSlot(s);
    var t := Next(s, MarkEven);
    var w := Settled(s);
    assert Settled(t) == w + 1 == |s.started|;
    SlotStep(Cap(s), i, w);
    AddMod(2 * Completed(Cap(s), i, w), 2, U32);
    if i == w % Cap(s) {
      assert t.slots[i].data == s.started[w];
    }
  }

  lemma StepInv(s: Ring, a: Action)
    requires Inv(s) && Enabled(s, a)
    ensures Inv(Next(s, a))
  {
    StepWaiters(s, a);
    StepWriter(s, a);
    var t := Next(s, a);
    forall i | 0 <= i < |t.slots|
      ensures SlotInv(t, i)
    {
      match a
      case MarkOdd => StepMarkOdd(s, i);
      case CopyByte(j) => StepCopyByte(s, j, i);
      case MarkEven => StepMarkEven(s, i);
      case _ => StepOther(s, a, i);
    }
  }

  lemma StepOther(s: Ring, a: Action, i: nat)
    requires Inv(s) && Enabled(s, a) && i < |s.slots| && WellFormed(Next(s, a))
    requires !a.MarkOdd? && !a.CopyByte? && !a.MarkEven?
    ensures SlotInv(Next(s, a), i)
  {
    assert SlotInv(s, i);
    var t := Next(s, a);
    if s.writer.Copying? {
      assert t.slots == s.slots && t.writer == s.writer && t.started == s.started;
    } else {
      SlotFrame(s, t, i);
    }
  }
}
