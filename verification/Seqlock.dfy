/** The single-value seqlock: one writer in `store`, any number of readers in `load` and
    `load_blocking`, and the kernel's wait queue. Every atomic access, copied byte and system call is
    one step. */
module Seqlock {
  import opened Bits

  /** Where the writer is inside `store`. */
  datatype Writer =
    | Idle
    | Entered
    | HasCounter(cur: nat)
    | Copying(cur: nat, done: set<nat>)
    | WakeOwed

  /** Where a reader is. `version` is the counter it loaded without wrap-around; `got` the bytes it
      has copied so far. */
  datatype Pc =
    | Outside
    | Looping(blocking: bool)
    | Reading(blocking: bool, cur: nat, version: nat, got: map<nat, byte>)
    | Comparing(cur: nat)
    | Asleep(cur: nat)

  /** `last` is the caller's `last_seq`. Records: the value last returned and its version, the version
      of the last return of `load_blocking`, and whether there was one. */
  datatype Reader = Reader(pc: Pc, last: nat, out: Value, seen: nat, blocked: nat, resumed: bool)

  /** `stores` records the argument of every `store` begun. */
  datatype Lock = Lock(
    size: nat,
    counter: nat,
    data: Value,
    writer: Writer,
    stores: seq<Value>,
    readers: map<nat, Reader>)

  datatype Action =
    | Begin(v: Value)
    | LoadCounter
    | MarkOdd
    | CopyByte(j: nat)
    | MarkEven
    | Wake
    | Attach(id: nat, last: nat)
    | Call(id: nat, blocking: bool)
    | Look(id: nat)
    | ReadByte(id: nat, j: nat)
    | Check(id: nat)
    | Sleep(id: nat)
    | Rouse(id: nat)
    | TimeOut(id: nat)

  predicate WellFormed(s: Lock) {
    && s.counter < U32
    && |s.data| == s.size
    && (forall n :: 0 <= n < |s.stores| ==> |s.stores[n]| == s.size)
    && (s.writer != Idle ==> s.stores != [])
  }

  predicate Init(s: Lock) {
    s.counter == 0 && s.data == Zeros(s.size) && s.writer == Idle && s.stores == [] && s.readers == map[]
  }

  predicate Enabled(s: Lock, a: Action)
    requires WellFormed(s)
  {
    match a
    case Begin(v) => s.writer == Idle && |v| == s.size
    case LoadCounter => s.writer == Entered
    case MarkOdd => s.writer.HasCounter?
    case CopyByte(j) => s.writer.Copying? && j < s.size && j !in s.writer.done
    case MarkEven => s.writer.Copying? && forall j :: 0 <= j < s.size ==> j in s.writer.done
    case Wake => s.writer == WakeOwed
    case Attach(id, last) => id !in s.readers && last < U32
    case Call(id, _) => id in s.readers && s.readers[id].pc == Outside
    case Look(id) => id in s.readers && s.readers[id].pc.Looping?
    case ReadByte(id, j) =>
      id in s.readers && s.readers[id].pc.Reading? && j < s.size && j !in s.readers[id].pc.got
    case Check(id) =>
      id in s.readers && s.readers[id].pc.Reading? && forall j :: 0 <= j < s.size ==> j in s.readers[id].pc.got
    case Sleep(id) => id in s.readers && s.readers[id].pc.Comparing?
    case Rouse(id) => id in s.readers && s.readers[id].pc.Asleep?
    case TimeOut(id) => id in s.readers && s.readers[id].pc.Asleep?
  }

  /** Stores whose counter is even again. */
  function Sealed(s: Lock): (n: nat)
    ensures n <= |s.stores|
  {
    if s.writer == Idle || s.writer == WakeOwed || s.stores == [] then |s.stores| else |s.stores| - 1
  }

  /** The counter without wrap-around: twice the number of finished stores, plus one inside a copy. */
  function Version(s: Lock): nat {
    2 * Sealed(s) + if s.writer.Copying? then 1 else 0
  }

  /** The value after the first n stores. */
  function Content(s: Lock, n: nat): (v: Value)
    requires n <= |s.stores|
  {
    if n == 0 then Zeros(s.size) else s.stores[n - 1]
  }

  /** The counter load at the top of the loop, with the branch the code takes on it. */
  function Looked(s: Lock, r: Reader): Pc
    requires r.pc.Looping?
  {
    if r.pc.blocking then
      if s.counter != r.last && s.counter % 2 == 0 then Reading(true, s.counter, Version(s), map[])
      else Comparing(s.counter)
    else
    if s.counter % 2 == 0 then Reading(false, s.counter, Version(s), map[]) else Looping(false)
  }

  function Bytes(got: map<nat, byte>, size: nat): (v: Value)
    requires forall j :: 0 <= j < size ==> j in got
    ensures |v| == size && forall j :: 0 <= j < size ==> v[j] == got[j]
  {
    seq(size, j requires 0 <= j < size => got[j])
  }

  /** The second counter load: accept the copy if it equals the first, otherwise loop. */
  function Checked(s: Lock, r: Reader): Reader
    requires r.pc.Reading? && forall j :: 0 <= j < s.size ==> j in r.pc.got
  {
    if s.counter != r.pc.cur then r.(pc := Looping(r.pc.blocking))
    else
      var taken := r.(pc := Outside, out := Bytes(r.pc.got, s.size), seen := r.pc.version);
      if r.pc.blocking then taken.(last := r.pc.cur, blocked := r.pc.version, resumed := true) else taken
  }

  function Next(s: Lock, a: Action): Lock
    requires WellFormed(s) && Enabled(s, a)
  {
    match a
    case Begin(v) => s.(writer := Entered, stores := s.stores + [v])
    case LoadCounter => s.(writer := HasCounter(s.counter))
    case MarkOdd => s.(counter := (s.writer.cur + 1) % U32, writer := Copying(s.writer.cur, {}))
    case CopyByte(j) =>
      s.(data := s.data[j := s.stores[|s.stores| - 1][j]], writer := s.writer.(done := s.writer.done + {j}))
    case MarkEven => s.(counter := (s.writer.cur + 2) % U32, writer := WakeOwed)
    case Wake => s.(writer := Idle, readers := map id | id in s.readers :: Awake(s.readers[id]))
    case Attach(id, last) => s.(readers := s.readers[id := Reader(Outside, last, Zeros(s.size), 0, 0, false)])
    case Call(id, blocking) => s.(readers := s.readers[id := s.readers[id].(pc := Looping(blocking))])
    case Look(id) => s.(readers := s.readers[id := s.readers[id].(pc := Looked(s, s.readers[id]))])
    case ReadByte(id, j) =>
      var pc := s.readers[id].pc;
      s.(readers := s.readers[id := s.readers[id].(pc := pc.(got := pc.got[j := s.data[j]]))])
    case Check(id) => s.(readers := s.readers[id := Checked(s, s.readers[id])])
    case Sleep(id) =>
      var cur := s.readers[id].pc.cur;
      s.(readers := s.readers[id := s.readers[id].(pc :=
      if s.counter == cur then Asleep(cur) else Looping(true))])
    case Rouse(id) => s.(readers := s.readers[id := s.readers[id].(pc := Looping(true))])
    case TimeOut(id) => s.(readers := s.readers[id := s.readers[id].(pc := Outside)])
  }

  function Awake(r: Reader): Reader {
    if r.pc.Asleep? then r.(pc := Looping(true)) else r
  }

  // ---------------------------------------------------------------------------------------------
  // Invariants
  // ---------------------------------------------------------------------------------------------

  /** The counter and the payload, by where the writer is. */
  ghost predicate CellInv(s: Lock) {
    && WellFormed(s)
    && s.counter == Version(s) % U32
    && (s.writer.HasCounter? || s.writer.Copying? ==> s.writer.cur == 2 * Sealed(s) % U32)
    && if s.writer.Copying? then
         forall j :: 0 <= j < s.size ==> s.data[j] == MixedByte(s, j)
       else
         s.data == Content(s, Sealed(s))
  }

  function MixedByte(s: Lock, j: nat): byte
    requires WellFormed(s) && j < s.size && s.writer.Copying?
  {
    if j in s.writer.done then s.stores[|s.stores| - 1][j] else Content(s, Sealed(s))[j]
  }

  /** A reader has seen nothing from the future, and what it is copying is current until it ages. */
  ghost predicate ReaderInv(s: Lock, r: Reader)
    requires WellFormed(s)
  {
    && r.blocked <= r.seen <= Version(s) && r.seen % 2 == 0
    && (r.resumed ==> r.last == r.blocked % U32)
    && (r.pc.Reading? ==>
          && r.seen <= r.pc.version <= Version(s) && r.pc.version % 2 == 0
          && r.pc.cur == r.pc.version % U32
          && (r.pc.blocking ==> r.pc.cur != r.last)
          && (r.pc.version == Version(s) ==>
                forall j :: j in r.pc.got && j < s.size ==> r.pc.got[j] == s.data[j]))
    && (r.pc.Comparing? || r.pc.Asleep? ==> r.pc.cur == r.last || r.pc.cur % 2 == 1)
    && (r.pc.Asleep? ==> SleepsSoundly(s, r))
  }

  /** A sleeper's counter still equals its `last_seq`, or the writer has not reached its wake-up. */
  ghost predicate SleepsSoundly(s: Lock, r: Reader) {
    s.counter == r.last || s.writer.Copying? || s.writer == WakeOwed
  }

  ghost predicate Inv(s: Lock) {
    CellInv(s) && forall id :: id in s.readers ==> ReaderInv(s, s.readers[id])
  }

  lemma StepCell(s: Lock, a: Action)
    requires CellInv(s) && Enabled(s, a)
    ensures CellInv(Next(s, a))
    ensures Version(s) <= Version(Next(s, a))
    ensures Version(s) == Version(Next(s, a)) && Version(s) % 2 == 0 ==> Next(s, a).data == s.data
  {
    match a
    case MarkOdd => MarkOddCell(s);
    case MarkEven => MarkEvenCell(s);
    case CopyByte(j) => CopyCell(s, j);
    case _ => OtherCell(s, a);
  }

  lemma MarkOddCell(s: Lock)
    requires CellInv(s) && Enabled(s, MarkOdd)
    ensures CellInv(Next(s, MarkOdd)) && Version(s) < Version(Next(s, MarkOdd))
  {
    AddMod(2 * Sealed(s), 1, U32);
  }

  lemma MarkEvenCell(s: Lock)
    requires CellInv(s) && Enabled(s, MarkEven)
    ensures CellInv(Next(s, MarkEven)) && Version(s) < Version(Next(s, MarkEven))
  {
    AddMod(2 * Sealed(s), 2, U32);
    assert s.data == s.stores[|s.stores| - 1];
  }

  lemma CopyCell(s: Lock, j: nat)
    requires CellInv(s) && Enabled(s, CopyByte(j))
    ensures CellInv(Next(s, CopyByte(j))) && Version(s) == Version(Next(s, CopyByte(j))) && Version(s) % 2 == 1
  {
    var t := Next(s, CopyByte(j));
    assert Content(t, Sealed(t)) == Content(s, Sealed(s));
  }

  lemma OtherCell(s: Lock, a: Action)
    requires CellInv(s) && Enabled(s, a) && a != MarkOdd && a != MarkEven && !a.CopyByte?
    ensures CellInv(Next(s, a)) && Version(s) == Version(Next(s, a)) && Next(s, a).data == s.data
  {
    var t := Next(s, a);
    assert Sealed(t) == Sealed(s) && Content(t, Sealed(t)) == Content(s, Sealed(s));
  }

  /** A writer step leaves every reader's invariant alone. */
  lemma WriterStepReader(s: Lock, a: Action, r: Reader)
    requires CellInv(s) && Enabled(s, a) && ReaderInv(s, r)
    requires a.Begin? || a.LoadCounter? || a.MarkOdd? || a.CopyByte? || a.MarkEven?
    ensures WellFormed(Next(s, a)) && ReaderInv(Next(s, a), r)
  {
    StepCell(s, a);
    CounterParity(s);
  }

  lemma WakeReader(s: Lock, r: Reader)
    requires CellInv(s) && Enabled(s, Wake) && ReaderInv(s, r)
    ensures WellFormed(Next(s, Wake)) && ReaderInv(Next(s, Wake), Awake(r))
  {
  }

  lemma CounterParity(s: Lock)
    requires CellInv(s)
    ensures s.counter % 2 == Version(s) % 2
  {
    ModMod(Version(s), 2, 0x8000_0000);
  }

  /** A step of reader `id` itself. */
  lemma ReaderStepReader(s: Lock, a: Action, id: nat)
    requires Inv(s) && Enabled(s, a) && id in Next(s, a).readers
    requires a.Attach? || a.Call? || a.Look? || a.ReadByte? || a.Check? || a.Sleep? || a.Rouse? || a.TimeOut?
    requires a.id == id
    ensures ReaderInv(s, Next(s, a).readers[id])
  {
    CounterParity(s);
  }

  lemma StepInv(s: Lock, a: Action)
    requires Inv(s) && Enabled(s, a)
    ensures Inv(Next(s, a))
  {
    var t := Next(s, a);
    StepCell(s, a);
    forall id | id in t.readers
      ensures ReaderInv(t, t.readers[id])
    {
      if a.Begin? || a.LoadCounter? || a.MarkOdd? || a.CopyByte? || a.MarkEven? {
        WriterStepReader(s, a, s.readers[id]);
      } else if a.Wake? {
        WakeReader(s, s.readers[id]);
      } else if a.id == id {
        ReaderStepReader(s, a, id);
        SameCell(s, t, t.readers[id]);
      } else {
        SameCell(s, t, s.readers[id]);
      }
    }
  }

  lemma SameCell(s: Lock, t: Lock, r: Reader)
    requires WellFormed(s) && t == s.(readers := t.readers) && ReaderInv(s, r)
    ensures WellFormed(t) && ReaderInv(t, r)
  {
  }
}
