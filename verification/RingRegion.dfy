/** The combined reader/writer over the raw bytes of the region, with nobody else at work. Every
    store is one step of the protocol: `ring` is the protocol state the bytes stand for. */
module RingRegion {
  import opened Bits
  import opened Options
  import opened RingProtocol
  import opened RingSafety
  import opened Region

  function Slice(b: seq<byte>, o: nat, n: nat): (s: seq<byte>)
    ensures o + n <= |b| ==> s == b[o..o + n]
  {
    if o + n <= |b| then b[o..o + n] else []
  }

  /** The bytes after a store of w at offset o. */
  function Patch(b: seq<byte>, o: nat, w: seq<byte>): (r: seq<byte>)
    requires o + |w| <= |b|
    ensures |r| == |b|
  {
    b[..o] + w + b[o + |w|..]
  }

  lemma PatchHit(b: seq<byte>, o: nat, w: seq<byte>)
    requires o + |w| <= |b|
    ensures Slice(Patch(b, o, w), o, |w|) == w
  {
  }

  lemma PatchMiss(b: seq<byte>, o: nat, w: seq<byte>, x: nat, n: nat)
    requires o + |w| <= |b| && (o + |w| <= x || x + n <= o)
    ensures Slice(Patch(b, o, w), x, n) == Slice(b, x, n)
  {
    if x + n <= |b| {
      var p := Patch(b, o, w);
      assert forall q :: x <= q < x + n ==> p[q] == b[q];
      assert p[x..x + n] == b[x..x + n];
    }
  }

  ghost predicate SlotMirrors(b: seq<byte>, l: Layout, slot: Slot, i: nat) {
    Get(Slice(b, l.Seq(i), 4)) == slot.counter && Slice(b, l.Data(i), l.size) == slot.data
  }

  /** The bytes spell out the count and the slots of the protocol state. */
  ghost predicate Mirrors(b: seq<byte>, l: Layout, total: nat, slots: seq<Slot>) {
    && |b| == l.TotalSize()
    && |slots| == Pow2(l.k)
    && Get(Slice(b, 0, 8)) == total
    && forall i :: 0 <= i < |slots| ==> SlotMirrors(b, l, slots[i], i)
  }

  lemma StoreCounter(b: seq<byte>, l: Layout, total: nat, slots: seq<Slot>, idx: nat, c: nat)
    requires l.Sane() && Mirrors(b, l, total, slots) && idx < |slots| && c < U32
    ensures l.Seq(idx) + 4 <= |b|
    ensures Mirrors(Patch(b, l.Seq(idx), Put(c, 4)), l, total, slots[idx := slots[idx].(counter := c)])
  {
    SlotsApart(l, idx, idx);
    var w := Put(c, 4);
    var p := Patch(b, l.Seq(idx), w);
    GetPut(c, 4);
    Widths();
    ModSmall(c, U32);
    PatchHit(b, l.Seq(idx), w);
    PatchMiss(b, l.Seq(idx), w, 0, 8);
    PatchMiss(b, l.Seq(idx), w, l.Data(idx), l.size);
    var slots' := slots[idx := slots[idx].(counter := c)];
    forall i | 0 <= i < |slots'|
      ensures SlotMirrors(p, l, slots'[i], i)
    {
      assert SlotMirrors(b, l, slots[i], i);
      if i != idx {
        SlotsApart(l, i, idx);
        SlotsApart(l, idx, i);
        PatchMiss(b, l.Seq(idx), w, l.Seq(i), 4);
        PatchMiss(b, l.Seq(idx), w, l.Data(i), l.size);
      }
    }
  }

  lemma StoreByte(b: seq<byte>, l: Layout, total: nat, slots: seq<Slot>, idx: nat, j: nat, x: byte)
    requires l.Sane() && Mirrors(b, l, total, slots) && idx < |slots| && j < l.size
    ensures l.Data(idx) + l.size <= |b| && |slots[idx].data| == l.size
    ensures Mirrors(Patch(b, l.Data(idx) + j, [x]), l, total,
                    slots[idx := slots[idx].(data := slots[idx].data[j := x])])
  {
    SlotsApart(l, idx, idx);
    assert SlotMirrors(b, l, slots[idx], idx);
    var o := l.Data(idx) + j;
    var p := Patch(b, o, [x]);
    PatchMiss(b, o, [x], 0, 8);
    PatchMiss(b, o, [x], l.Seq(idx), 4);
    assert Slice(p, l.Data(idx), l.size) == slots[idx].data[j := x];
    var slots' := slots[idx := slots[idx].(data := slots[idx].data[j := x])];
    forall i | 0 <= i < |slots'|
      ensures SlotMirrors(p, l, slots'[i], i)
    {
      assert SlotMirrors(b, l, slots[i], i);
      if i != idx {
        SlotsApart(l, i, idx);
        SlotsApart(l, idx, i);
        PatchMiss(b, o, [x], l.Seq(i), 4);
        PatchMiss(b, o, [x], l.Data(i), l.size);
      }
    }
  }

  lemma StoreTotal(b: seq<byte>, l: Layout, total: nat, slots: seq<Slot>, t: nat)
    requires l.Sane() && Mirrors(b, l, total, slots) && t < U64
    ensures 8 <= |b|
    ensures Mirrors(Patch(b, 0, Put(t, 8)), l, t, slots)
  {
    SlotsApart(l, 0, 0);
    var w := Put(t, 8);
    GetPut(t, 8);
    Widths();
    ModSmall(t, U64);
    PatchHit(b, 0, w);
    forall i | 0 <= i < |slots|
      ensures SlotMirrors(Patch(b, 0, w), l, slots[i], i)
    {
      assert SlotMirrors(b, l, slots[i], i);
      SlotsApart(l, i, i);
      PatchMiss(b, 0, w, l.Seq(i), 4);
      PatchMiss(b, 0, w, l.Data(i), l.size);
    }
  }

  lemma {:induction false} GetZeros(n: nat)
    ensures Get(Zeros(n)) == 0
  {
    if n > 0 {
      GetZeros(n - 1);
      assert Zeros(n)[1..] == Zeros(n - 1);
    }
  }

  /** A zeroed region stands for the protocol's initial state. */
  lemma ZeroRegion(l: Layout, r: Ring)
    requires l.Sane() && Init(r) && r.k == l.k && r.size == l.size
    ensures Mirrors(Zeros(l.TotalSize()), l, r.total, r.slots)
  {
    var b := Zeros(l.TotalSize());
    GetZeros(8);
    GetZeros(4);
    SlotsApart(l, 0, 0);
    assert Slice(b, 0, 8) == Zeros(8);
    forall i | 0 <= i < |r.slots|
      ensures SlotMirrors(b, l, r.slots[i], i)
    {
      SlotsApart(l, i, i);
      assert Slice(b, l.Seq(i), 4) == Zeros(4);
      assert Slice(b, l.Data(i), l.size) == Zeros(l.size);
    }
  }

  class CyclicBuffer {
    const l: Layout
    const shm: array<byte>
    ghost var ring: Ring

    ghost predicate Mirrored()
      reads this, shm
    {
      l.Sane() && ring.k == l.k && ring.size == l.size && Inv(ring) && Mirrors(shm[..], l, ring.total, ring.slots)
    }

    ghost predicate Valid()
      reads this, shm
    {
      Mirrored() && ring.writer == Idle && |ring.started| < U64
    }

    /** All values ever inserted, oldest first. */
    ghost function History(): seq<Value>
      reads this
    {
      ring.started
    }

    constructor (l: Layout)
      requires l.Sane()
      ensures Valid() && fresh(shm) && this.l == l && History() == []
    {
      this.l := l;
      shm := new byte[l.TotalSize()](_ => 0);
      ring := Ring(l.k, l.size, 0, seq(Pow2(l.k), _ => Slot(0, Zeros(l.size))), Idle, [], map[]);
      new;
      InitInv(ring);
      ZeroRegion(l, ring);
      assert shm[..] == Zeros(l.TotalSize());
    }

    method Store(o: nat, w: seq<byte>)
      requires o + |w| <= shm.Length
      modifies shm
      ensures shm[..] == Patch(old(shm[..]), o, w)
    {
      for j := 0 to |w|
        invariant shm[..o] == old(shm[..o]) && shm[o + j..] == old(shm[o + j..])
        invariant shm[o..o + j] == w[..j]
      {
        shm[o + j] := w[j];
      }
      assert shm[..] == shm[..o] + shm[o..o + |w|] + shm[o + |w|..];
    }

    method Load(o: nat, width: nat) returns (x: nat)
      requires o + width <= shm.Length
      ensures x == Get(Slice(shm[..], o, width))
    {
      x := Get(shm[o..o + width]);
      assert shm[..][o..o + width] == shm[o..o + width];
    }

    /** A protocol step that stores nothing. */
    ghost method Step(a: Action)
      requires Inv(ring) && Enabled(ring, a)
      modifies this`ring
      ensures ring == Next(old(ring), a) && Inv(ring)
    {
      StepInv(ring, a);
      ring := Next(ring, a);
    }

    /** An atomic store to a slot counter, as the protocol step a. */
    method StoreSlotCounter(idx: nat, c: nat, ghost a: Action)
      requires Mirrored() && (a == MarkOdd || a == MarkEven) && Enabled(ring, a)
      requires idx == SlotOf(ring.k, ring.writer.writes)
      requires c == (ring.writer.cur + if a == MarkOdd then 1 else 2) % U32
      modifies shm, this`ring
      ensures Mirrored() && ring == Next(old(ring), a)
    {
      StoreCounter(shm[..], l, ring.total, ring.slots, idx, c);
      Store(l.Seq(idx), Put(c, 4));
      Step(a);
    }

    /** One byte of the copy, as one protocol step. */
    method StoreSlotByte(idx: nat, j: nat, x: byte)
      requires Mirrored() && Enabled(ring, CopyByte(j))
      requires idx == SlotOf(ring.k, ring.writer.writes) && x == ring.started[|ring.started| - 1][j]
      modifies shm, this`ring
      ensures Mirrored() && ring == Next(old(ring), CopyByte(j))
    {
      StoreByte(shm[..], l, ring.total, ring.slots, idx, j, x);
      Store(l.Data(idx) + j, [x]);
      Step(CopyByte(j));
    }

    /** `memcpy` into the slot. */
    method CopyIn(idx: nat, data: Value)
      requires Mirrored() && ring.writer.Copying? && ring.writer.done == {}
      requires idx == SlotOf(ring.k, ring.writer.writes) && data == ring.started[|ring.started| - 1]
      modifies shm, this`ring
      ensures Mirrored() && Enabled(ring, MarkEven)
      ensures ring.started == old(ring.started) && ring.writer == old(ring.writer).(done := ring.writer.done)
    {
      hide Mirrors, SlotInv, WriterInv, WaiterInv;
      ghost var was := ring;
      for j := 0 to l.size
        invariant Mirrored() && ring.writer.Copying? && ring.started == was.started && |data| == l.size
        invariant ring.writer == was.writer.(done := ring.writer.done)
        invariant forall q :: q in ring.writer.done <==> 0 <= q < j
      {
        StoreSlotByte(idx, j, data[j]);
      }
    }

    /** The loads at the start of `insert`: the count, which picks the slot, and its counter. */
    method Enter(data: Value) returns (writes: nat, idx: nat, cur: nat)
      requires Valid() && |data| == l.size
      modifies this`ring
      ensures Mirrored() && ring.writer == HasCounter(writes, cur) && ring.started == old(ring.started) + [data]
      ensures idx == SlotOf(ring.k, writes)
    {
      SlotsApart(l, 0, 0);
      Step(Begin(data));
      writes := Load(0, 8);
      Step(LoadTotal);
      idx := And(writes, Pow2(l.k) - 1);
      AndMask(writes, l.k);
      SlotsApart(l, idx, idx);
      cur := Load(l.Seq(idx), 4);
      assert SlotMirrors(shm[..], l, ring.slots[idx], idx);
      Step(LoadCounter);
    }

    /** The store of the new count. */
    method PublishCount(t: nat)
      requires Mirrored() && ring.writer.Sealed? && t == (ring.writer.writes + 1) % U64
      modifies shm, this`ring
      ensures Mirrored() && ring == Next(old(ring), Publish)
    {
      StoreTotal(shm[..], l, ring.total, ring.slots, t);
      Store(0, Put(t, 8));
      Step(Publish);
    }

    /** `insert` */
    method Insert(data: Value)
      requires Valid() && |data| == l.size && |ring.started| + 1 < U64
      modifies shm, this`ring
      ensures Valid() && History() == old(History()) + [data]
    {
      hide Mirrors, SlotInv, WriterInv, WaiterInv;
      var writes, idx, cur := Enter(data);
      StoreSlotCounter(idx, (cur + 1) % U32, MarkOdd);
      CopyIn(idx, data);
      StoreSlotCounter(idx, (cur + 2) % U32, MarkEven);
      PublishCount((writes + 1) % U64);
      Step(Wake);
    }

    /** `available()` */
    method Available() returns (n: nat)
      requires Valid()
      ensures n == if |History()| < Pow2(l.k) then |History()| else Pow2(l.k)
    {
      SlotsApart(l, 0, 0);
      ModSmall(Counted(ring), U64);
      var writes := Load(0, 8);
      n := if writes < Pow2(l.k) then writes else Pow2(l.k);
    }

    /** `try_read_slot` with nobody writing: an even slot is read, an odd one never is. */
    method TryReadSlot(idx: nat, maxRetries: nat) returns (out: Option<Value>)
      requires Mirrored() && idx < |ring.slots|
      ensures out == if ring.slots[idx].counter % 2 == 0 then Some(ring.slots[idx].data) else None
    {
      SlotsApart(l, idx, idx);
      assert SlotMirrors(shm[..], l, ring.slots[idx], idx);
      hide Mirrors, SlotMirrors, SlotInv, WriterInv, WaiterInv;
      out := None;
      for attempt := 0 to maxRetries + 1
        invariant attempt > 0 ==> ring.slots[idx].counter % 2 == 1
      {
        var before := Load(l.Seq(idx), 4);
        if before % 2 == 1 {
          continue;
        }
        var result := shm[l.Data(idx)..l.Data(idx) + l.size];
        assert result == Slice(shm[..], l.Data(idx), l.size);
        var after := Load(l.Seq(idx), 4);
        if before == after {
          return Some(result);
        }
      }
    }

    /** `get_latest()`. The spinning `read_slot` accepts its first attempt. */
    method GetLatest() returns (v: Value)
      requires Valid()
      ensures v == if History() == [] then Zeros(l.size) else History()[|History()| - 1]
    {
      SlotsApart(l, 0, 0);
      ModSmall(Counted(ring), U64);
      var writes := Load(0, 8);
      if writes == 0 {
        return Zeros(l.size);
      }
      v := GetAt(0);
    }

    /** `get(r)`, for readable r. */
    method GetAt(r: nat) returns (v: Value)
      requires Valid() && r < |History()| && r < Pow2(l.k)
      ensures v == History()[|History()| - 1 - r]
    {
      SlotsApart(l, 0, 0);
      IdleSlot(ring, r);
      hide SlotInv, WriterInv, WaiterInv, SlotMirrors;
      var writes := Load(0, 8);
      var got := TryReadSlot(And(Sub64(Sub64(writes, 1), r), Pow2(l.k) - 1), 0);
      v := got.value;
    }

    /** `try_get(r)`: succeeds exactly for the readable r. */
    method TryGet(r: nat, maxRetries: nat := 4) returns (v: Option<Value>)
      requires Valid()
      ensures v == if r < |History()| && r < Pow2(l.k) then Some(History()[|History()| - 1 - r]) else None
    {
      SlotsApart(l, 0, 0);
      ModSmall(Counted(ring), U64);
      hide SlotInv, WaiterInv, SlotMirrors;
      var writes := Load(0, 8);
      if r >= writes || r >= Pow2(l.k) {
        return None;
      }
      IdleSlot(ring, r);
      v := TryReadSlot(And(Sub64(Sub64(writes, 1), r), Pow2(l.k) - 1), maxRetries);
    }
  }
}
