/** Machine words: bytes, powers of two, bitwise `and`, and wrapping 64-bit subtraction. */
module Bits {
  const U32: nat := 0x1_0000_0000
  const U64: nat := 0x1_0000_0000_0000_0000

  type byte = x: int | 0 <= x < 256

  type Value = seq<byte>

  function Zeros(size: nat): (v: Value)
    ensures |v| == size && forall j :: 0 <= j < size ==> v[j] == 0
  {
    seq(size, _ => 0)
  }

  function Pow2(k: nat): (p: nat)
    ensures p > 0
  {
    if k == 0 then 1 else 2 * Pow2(k - 1)
  }

  /** Bitwise `and` on unsigned words of any width. */
  function And(x: nat, y: nat): nat {
    if x == 0 || y == 0 then 0
    else (if x % 2 == 1 && y % 2 == 1 then 1 else 0) + 2 * And(x / 2, y / 2)
  }

  lemma HalfMod(x: nat, m: nat)
    requires m > 0
    ensures x % (2 * m) == x % 2 + 2 * ((x / 2) % m)
  {
    var h := x / 2;
    DivMod(h, m);
    var c := x % 2 + 2 * (h % m);
    assert x == 2 * h + x % 2;
    assert x == (2 * m) * (h / m) + c by {
      assert 2 * (m * (h / m)) == (2 * m) * (h / m);
    }
    ModUnique(x, 2 * m, h / m, c);
  }

  lemma DivMod(x: int, m: nat)
    requires m > 0
    ensures x == m * (x / m) + x % m && 0 <= x % m < m
  {
  }

  /** Euclid: a quotient and an in-range remainder are the only ones. */
  lemma ModUnique(x: int, m: nat, q: int, r: int)
    requires m > 0 && x == m * q + r && 0 <= r < m
    ensures x / m == q && x % m == r
  {
    DivMod(x, m);
    var d := q - x / m;
    assert m * d == x % m - r by {
      assert m * d == m * q - m * (x / m);
    }
    MultipleBound(m, d);
  }

  lemma MultipleBound(m: nat, d: int)
    ensures d >= 1 ==> m * d >= m
    ensures d <= -1 ==> m * d <= -(m as int)
  {
  }

  /** `x & (2^k - 1)` is the residue of `x` modulo `2^k`. */
  lemma {:induction false} AndMask(x: nat, k: nat)
    ensures And(x, Pow2(k) - 1) == x % Pow2(k)
    decreases k
  {
    if k > 0 {
      AndMask(x / 2, k - 1);
      HalfMod(x, Pow2(k - 1));
      OddMask(Pow2(k - 1));
      hide Pow2;
    }
  }

  lemma OddMask(p: nat)
    requires p > 0
    ensures (2 * p - 1) / 2 == p - 1 && (2 * p - 1) % 2 == 1
  {
  }

  /** `x & ~(2^k - 1)` in `w`-bit words clears the low `k` bits of `x`. */
  lemma {:induction false} AndClear(x: nat, k: nat, w: nat)
    requires k <= w && x < Pow2(w)
    ensures Pow2(k) <= Pow2(w)
    ensures And(x, Pow2(w) - Pow2(k)) == x - x % Pow2(k)
    decreases w
  {
    if k == 0 {
      AndMask(x, w);
      Pow2Small();
      ModSmall(x, Pow2(w));
    } else {
      AndClear(x / 2, k - 1, w - 1);
      HalfMod(x, Pow2(k - 1));
      AndEven(x, Pow2(w - 1) - Pow2(k - 1));
    }
  }

  lemma Pow2Small()
    ensures Pow2(0) == 1
  {
  }

  lemma ModSmall(x: nat, m: nat)
    requires x < m
    ensures x % m == x
  {
  }

  lemma AndEven(x: nat, h: nat)
    ensures And(x, 2 * h) == 2 * And(x / 2, h)
  {
  }

  /** 64-bit unsigned subtraction. */
  function Sub64(a: int, b: int): (d: nat)
    ensures d < U64
  {
    (a - b) % U64
  }

  lemma PowAdd(a: nat, b: nat)
    ensures Pow2(a + b) == Pow2(a) * Pow2(b)
  {
    if a > 0 {
      PowAdd(a - 1, b);
    }
  }

  lemma Pow2Order(a: nat, b: nat)
    requires a <= b
    ensures Pow2(a) <= Pow2(b)
  {
    PowAdd(a, b - a);
    assert Pow2(a) * Pow2(b - a) >= Pow2(a);
  }

  lemma Pow2Of64()
    ensures Pow2(64) == U64
  {
    assert Pow2(2) == 4;
    hide Pow2;
    PowAdd(2, 2);
    PowAdd(4, 4);
    PowAdd(8, 8);
    PowAdd(16, 16);
    PowAdd(32, 32);
  }

  lemma AddMod(x: nat, d: nat, m: nat)
    requires m > 0
    ensures (x % m + d) % m == (x + d) % m
  {
    DivMod(x, m);
    DivMod(x % m + d, m);
    var q := x / m + (x % m + d) / m;
    assert m * q == m * (x / m) + m * ((x % m + d) / m);
    ModUnique(x + d, m, q, (x % m + d) % m);
  }

  /** Reducing modulo a multiple of `m` first does not change the residue modulo `m`. */
  lemma ModMod(x: int, m: nat, c: nat)
    requires m > 0 && c > 0
    ensures m * c > 0 && (x % (m * c)) % m == x % m
  {
    assert m * c > 0;
    DivMod(x, m * c);
    var y := x % (m * c);
    DivMod(y, m);
    var q := c * (x / (m * c)) + y / m;
    assert x == m * q + y % m by {
      assert (m * c) * (x / (m * c)) == m * (c * (x / (m * c)));
      assert m * q == m * (c * (x / (m * c))) + m * (y / m);
    }
    ModUnique(x, m, q, y % m);
  }

  lemma Mod64(x: int, k: nat)
    requires k <= 64
    ensures (x % U64) % Pow2(k) == x % Pow2(k)
  {
    Pow2Of64();
    PowAdd(k, 64 - k);
    ModMod(x, Pow2(k), Pow2(64 - k));
  }

  /** The slot index `(writes - 1 - r) & (N - 1)`, computed with 64-bit wrap-around, is the
      residue of the unbounded difference. */
  lemma SlotIndex(w: int, r: nat, k: nat)
    requires k <= 64
    ensures And(Sub64(Sub64(w % U64, 1), r), Pow2(k) - 1) == (w - 1 - r) % Pow2(k)
  {
    var d := Sub64(Sub64(w % U64, 1), r);
    AndMask(d, k);
    var a := w - 1 - r;
    assert d == a % U64 by {
      DivMod(w, U64);
      var b := w % U64 - 1;
      DivMod(b, U64);
      var c := b % U64 - r;
      DivMod(c, U64);
      ModUnique(a, U64, w / U64 + b / U64 + c / U64, d);
    }
    Mod64(a, k);
  }
}
