/** The byte layout of the cyclic buffer's shared region:
    `[uint64 total_writes] [padding] [slot 0] ... [slot N-1]`, each slot
    `[uint32 seq] [padding] [T data]`, in little-endian words. */
module Region {
  import opened Bits

  /** `CyclicSlot<T>` and `CyclicRegion<T, N>` for N = 2^k, sizeof(T) = size, alignof(T) = 2^p. */
  datatype Layout = Layout(k: nat, size: nat, p: nat) {
    /** `(n + alignof(T) - 1) & ~(alignof(T) - 1)` in 64-bit words. */
    function AlignUp(n: nat): nat {
      And(n + Pow2(p) - 1, Sub64(-1, Pow2(p) - 1))
    }

    function DataOffset(): nat {
      AlignUp(4)
    }

    function SlotSize(): nat {
      DataOffset() + size
    }

    function SlotsOffset(): nat {
      AlignUp(8)
    }

    function TotalSize(): nat {
      SlotsOffset() + SlotSize() * Pow2(k)
    }

    function Seq(i: nat): nat {
      SlotsOffset() + i * SlotSize()
    }

    function Data(i: nat): nat {
      Seq(i) + DataOffset()
    }

    predicate Sane() {
      k < 64 && p < 60
    }
  }

  /** Rounding up: the least multiple of the alignment that is not below n. */
  lemma AlignUpIsCeiling(l: Layout, n: nat)
    requires l.Sane() && n <= 8
    ensures n <= l.AlignUp(n) < n + Pow2(l.p)
    ensures l.AlignUp(n) % Pow2(l.p) == 0
  {
    var a := Pow2(l.p);
    Pow2Order(l.p, 60);
    Pow2Sixty();
    ComplementMask(a);
    Pow2Of64();
    AndClear(n + a - 1, l.p, 64);
    DivMod(n + a - 1, a);
    ModUnique(l.AlignUp(n), a, (n + a - 1) / a, 0);
  }

  /** `~(a - 1)` in 64-bit words. */
  lemma ComplementMask(a: nat)
    requires 0 < a < U64
    ensures Sub64(-1, a - 1) == U64 - a
  {
    ModUnique(-1 - (a as int - 1), U64, -1, U64 - a);
  }

  lemma Pow2Sixty()
    ensures Pow2(60) + 8 < U64
  {
    Pow2Of64();
    PowAdd(60, 4);
    Pow2Four();
  }

  /** Header, counters and payloads follow one another without overlap and fill the region. */
  lemma SlotsApart(l: Layout, i: nat, j: nat)
    requires l.Sane() && i < Pow2(l.k) && j < Pow2(l.k)
    ensures 8 <= l.Seq(i) && l.Seq(i) + 4 <= l.Data(i) && l.Data(i) + l.size == l.Seq(i) + l.SlotSize() <= l.TotalSize()
    ensures i < j ==> l.Data(i) + l.size <= l.Seq(j)
  {
    AlignUpIsCeiling(l, 4);
    AlignUpIsCeiling(l, 8);
    Strides(i, j, Pow2(l.k), l.SlotSize());
  }

  lemma Strides(i: nat, j: nat, n: nat, stride: nat)
    requires i < n && j < n
    ensures 0 <= i * stride && i * stride + stride <= stride * n
    ensures i < j ==> i * stride + stride <= j * stride
  {
    MulMonotone(i + 1, n, stride);
    if i < j {
      MulMonotone(i + 1, j, stride);
    }
  }

  lemma MulMonotone(a: nat, b: nat, c: nat)
    requires a <= b
    ensures a * c <= b * c
  {
  }

  /** Every payload is aligned for T, because sizeof(T) is a multiple of alignof(T). */
  lemma PayloadAligned(l: Layout, i: nat)
    requires l.Sane() && l.size % Pow2(l.p) == 0
    ensures l.Data(i) % Pow2(l.p) == 0
  {
    var a := Pow2(l.p);
    AlignUpIsCeiling(l, 4);
    AlignUpIsCeiling(l, 8);
    MultiplesAdd(l.DataOffset(), l.size, a);
    MultipleTimes(l.SlotSize(), i, a);
    MultiplesAdd(l.SlotsOffset(), i * l.SlotSize(), a);
    MultiplesAdd(l.Seq(i), l.DataOffset(), a);
  }

  lemma MultiplesAdd(x: nat, y: nat, m: nat)
    requires m > 0 && x % m == 0
    ensures (x + y) % m == y % m
  {
    DivMod(x, m);
    DivMod(y, m);
    assert x + y == m * (x / m + y / m) + y % m by {
      assert m * (x / m + y / m) == m * (x / m) + m * (y / m);
    }
    ModUnique(x + y, m, x / m + y / m, y % m);
  }

  lemma MultipleTimes(x: nat, i: nat, m: nat)
    requires m > 0 && x % m == 0
    ensures (i * x) % m == 0
  {
    DivMod(x, m);
    assert i * x == m * (i * (x / m)) by {
      assert i * (m * (x / m)) == m * (i * (x / m));
    }
    ModUnique(i * x, m, i * (x / m), 0);
  }

  lemma AlignUpMultipleOf4(l: Layout, n: nat)
    requires l.Sane() && (n == 4 || n == 8)
    ensures l.AlignUp(n) % 4 == 0
  {
    AlignUpIsCeiling(l, n);
    if l.p >= 2 {
      PowAdd(2, l.p - 2);
      assert Pow2(2) == 4;
      ModMod(l.AlignUp(n), 4, Pow2(l.p - 2));
    } else {
      assert Pow2(l.p) == 1 || Pow2(l.p) == 2;
    }
  }

  /** The 32-bit counters are all aligned exactly when sizeof(T) is a multiple of 4 or there is only
      one slot: the per-slot stride adds no padding after the payload. */
  lemma CountersAlignedExactly(l: Layout)
    requires l.Sane()
    ensures (forall i :: 0 <= i < Pow2(l.k) ==> l.Seq(i) % 4 == 0) <==> (l.size % 4 == 0 || l.k == 0)
  {
    AlignUpMultipleOf4(l, 4);
    AlignUpMultipleOf4(l, 8);
    MultiplesAdd(l.DataOffset(), l.size, 4);
    if l.size % 4 == 0 {
      forall i | 0 <= i < Pow2(l.k)
        ensures l.Seq(i) % 4 == 0
      {
        MultipleTimes(l.SlotSize(), i, 4);
        MultiplesAdd(l.SlotsOffset(), i * l.SlotSize(), 4);
      }
    } else if l.k > 0 {
      assert 1 < Pow2(l.k);
      MultiplesAdd(l.SlotsOffset(), 1 * l.SlotSize(), 4);
      assert l.Seq(1) % 4 != 0;
    } else {
      assert forall i :: 0 <= i < Pow2(l.k) ==> l.Seq(i) == l.SlotsOffset();
    }
  }

  // ---------------------------------------------------------------------------------------------
  // Little-endian words
  // ---------------------------------------------------------------------------------------------

  function Get(b: seq<byte>): nat {
    if b == [] then 0 else b[0] + 256 * Get(b[1..])
  }

  function Put(x: nat, width: nat): (b: seq<byte>)
    ensures |b| == width
  {
    if width == 0 then [] else [x % 256] + Put(x / 256, width - 1)
  }

  lemma Pow2Byte(n: nat)
    requires n > 0
    ensures Pow2(8 * n) == 256 * Pow2(8 * n - 8)
  {
    Pow2Four();
    PowAdd(4, 4);
    PowAdd(8, 8 * n - 8);
  }

  lemma Pow2Four()
    ensures Pow2(4) == 16
  {
  }

  lemma {:induction false} GetPut(x: nat, width: nat)
    ensures Get(Put(x, width)) == x % Pow2(8 * width)
  {
    if width > 0 {
      GetPut(x / 256, width - 1);
      assert Put(x, width)[1..] == Put(x / 256, width - 1);
      Pow2Byte(width);
      LowByteMod(x, Pow2(8 * width - 8));
    }
  }

  lemma LowByteMod(x: nat, m: nat)
    requires m > 0
    ensures x % (256 * m) == x % 256 + 256 * ((x / 256) % m)
  {
    DivMod(x / 256, m);
    var r := x % 256 + 256 * ((x / 256) % m);
    assert x == (256 * m) * (x / 256 / m) + r by {
      assert (256 * m) * (x / 256 / m) == 256 * (m * (x / 256 / m));
    }
    ModUnique(x, 256 * m, x / 256 / m, r);
  }

  lemma Widths()
    ensures Pow2(8 * 4) == U32 && Pow2(8 * 8) == U64
  {
    Pow2Of64();
    Pow2Four();
    PowAdd(4, 4);
    PowAdd(8, 8);
    PowAdd(16, 16);
  }

  lemma {:induction false} GetSplit(b: seq<byte>, n: nat)
    requires n <= |b|
    ensures Get(b) == Get(b[..n]) + Pow2(8 * n) * Get(b[n..])
    ensures Get(b[..n]) < Pow2(8 * n)
  {
    if n > 0 {
      GetSplit(b[1..], n - 1);
      assert b[1..][..n - 1] == b[..n][1..] && b[1..][n - 1..] == b[n..];
      Pow2Byte(n);
      var p := Pow2(8 * n - 8);
      hide Pow2;
      SplitStep(b[0], Get(b[..n][1..]), p, Get(b[n..]));
      assert Get(b[..n]) == b[0] + 256 * Get(b[..n][1..]);
    } else {
      assert b[0..] == b;
    }
  }

  lemma SplitStep(x: nat, g: nat, p: nat, r: nat)
    ensures x + 256 * (g + p * r) == (x + 256 * g) + (256 * p) * r
  {
  }

  /** The futex word of `wait_for_write`, the region's first four bytes, is the low half of the count. */
  lemma FutexWordIsLowHalf(b: seq<byte>)
    requires |b| == 8
    ensures Get(b[..4]) == Get(b) % U32
  {
    GetSplit(b, 4);
    Widths();
    ModUnique(Get(b), U32, Get(b[4..]), Get(b[..4]));
  }
}
