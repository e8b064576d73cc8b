/** What holds in every run of the seqlock, and the exact size of its counter window. */
module SeqlockSafety {
  import opened Bits
  import opened Seqlock

  /** A run from s to t taking the given steps. */
  ghost predicate Path(s: Lock, acts: seq<Action>, t: Lock)
    decreases acts
  {
    if acts == [] then s == t
    else WellFormed(s) && Enabled(s, acts[0]) && Path(Next(s, acts[0]), acts[1..], t)
  }

  /** An accepted copy had fewer than 2^31 stores between its two counter loads. */
  ghost predicate Calm(s: Lock, a: Action)
    requires WellFormed(s) && Enabled(s, a)
  {
    a.Check? && s.readers[a.id].pc.cur == s.counter ==> Version(s) - s.readers[a.id].pc.version < U32
  }

  ghost predicate CalmPath(s: Lock, acts: seq<Action>, t: Lock)
    decreases acts
  {
    if acts == [] then s == t
    else
      && WellFormed(s) && Enabled(s, acts[0]) && Calm(s, acts[0])
      && CalmPath(Next(s, acts[0]), acts[1..], t)
  }

  /** Every reader's last result is the whole argument of one store, or the initial zeros. */
  ghost predicate Faithful(s: Lock) {
    Inv(s) && forall id :: id in s.readers ==> FaithfulReader(s, s.readers[id])
  }

  ghost predicate FaithfulReader(s: Lock, r: Reader) {
    r.seen / 2 <= |s.stores| && r.out == Content(s, r.seen / 2)
  }

  /** The accepted copy is current: equal counters within the window mean an unchanged version. */
  lemma AcceptedIsCurrent(s: Lock, id: nat)
    requires Inv(s) && Enabled(s, Check(id)) && s.readers[id].pc.cur == s.counter
    requires Calm(s, Check(id))
    ensures s.readers[id].pc.version == Version(s)
    ensures Bytes(s.readers[id].pc.got, s.size) == s.data == Content(s, s.readers[id].pc.version / 2)
  {
    var r := s.readers[id];
    assert ReaderInv(s, r);
    DivMod(Version(s), U32);
    DivMod(r.pc.version, U32);
    MultipleBound(U32, Version(s) / U32 - r.pc.version / U32);
  }

  lemma StepFaithful(s: Lock, a: Action)
    requires Faithful(s) && Enabled(s, a) && Calm(s, a)
    ensures Faithful(Next(s, a))
  {
    StepInv(s, a);
    var t := Next(s, a);
    forall id | id in t.readers
      ensures FaithfulReader(t, t.readers[id])
    {
      if a == Check(id) && s.readers[id].pc.cur == s.counter {
        AcceptedIsCurrent(s, id);
      } else if id in s.readers {
        assert FaithfulReader(s, s.readers[id]);
        ResultStays(s, a, id);
        StoresGrow(s, a);
        hide Next, Inv, Faithful;
      }
    }
  }

  /** Only an accepted copy changes a reader's result. */
  lemma ResultStays(s: Lock, a: Action, id: nat)
    requires WellFormed(s) && Enabled(s, a) && id in s.readers
    requires !(a == Check(id) && s.readers[id].pc.cur == s.counter)
    ensures id in Next(s, a).readers
    ensures Next(s, a).readers[id].out == s.readers[id].out && Next(s, a).readers[id].seen == s.readers[id].seen
  {
  }

  lemma StoresGrow(s: Lock, a: Action)
    requires WellFormed(s) && Enabled(s, a)
    ensures s.stores <= Next(s, a).stores && Next(s, a).size == s.size
  {
  }

  lemma {:induction false} PathInv(s: Lock, acts: seq<Action>, t: Lock)
    requires Inv(s) && Path(s, acts, t)
    ensures Inv(t)
    decreases acts
  {
    if acts != [] {
      StepInv(s, acts[0]);
      PathInv(Next(s, acts[0]), acts[1..], t);
    }
  }

  lemma InitInv(s: Lock)
    requires Init(s)
    ensures Faithful(s)
  {
  }

  lemma {:induction false} FaithfulKept(s: Lock, acts: seq<Action>, t: Lock)
    requires Faithful(s) && CalmPath(s, acts, t)
    ensures Faithful(t)
    decreases acts
  {
    if acts != [] {
      StepFaithful(s, acts[0]);
      FaithfulKept(Next(s, acts[0]), acts[1..], t);
    }
  }

  /** No torn loads: in every run, whatever a reader got is the argument of one store, in full. */
  lemma LoadsAreWholeStores(s: Lock, acts: seq<Action>, t: Lock, id: nat)
    requires Init(s) && CalmPath(s, acts, t) && id in t.readers
    ensures var r := t.readers[id];
            && r.seen / 2 <= |t.stores|
            && r.out == if r.seen / 2 == 0 then Zeros(t.size) else t.stores[r.seen / 2 - 1]
  {
    InitInv(s);
    FaithfulKept(s, acts, t);
    assert FaithfulReader(t, t.readers[id]);
  }

  /** In every run, a reader's successive results never go back, and each return of `load_blocking`
      carries a strictly later store than its previous one. */
  lemma ReturnsMoveForward(s: Lock, acts: seq<Action>, t: Lock, id: nat)
    requires Init(s) && Path(s, acts, t) && WellFormed(t) && Enabled(t, Check(id))
    requires t.readers[id].pc.cur == t.counter
    ensures var r, r' := t.readers[id], Next(t, Check(id)).readers[id];
            && r'.pc == Outside
            && r.seen <= r'.seen <= Version(t)
            && (r.pc.blocking && r.resumed ==> r.blocked / 2 < r'.blocked / 2 == r'.seen / 2)
  {
    InitInv(s);
    PathInv(s, acts, t);
    assert ReaderInv(t, t.readers[id]);
  }

  /** In every run, a reader asleep in `load_blocking` has nothing new to see, or the writer still
      owes the wake-up. */
  lemma NoLostWakeup(s: Lock, acts: seq<Action>, t: Lock, id: nat)
    requires Init(s) && Path(s, acts, t) && id in t.readers && t.readers[id].pc.Asleep?
    ensures t.counter == t.readers[id].last || t.writer.Copying? || t.writer == WakeOwed
    ensures t.writer == Idle && t.readers[id].resumed ==> Version(t) % U32 == t.readers[id].blocked % U32
  {
    InitInv(s);
    PathInv(s, acts, t);
    assert ReaderInv(t, t.readers[id]);
  }

  // ---------------------------------------------------------------------------------------------
  // The window is exact: 2^31 stores between the two counter loads can tear a read
  // ---------------------------------------------------------------------------------------------

  lemma {:induction false} Concat(s: Lock, a: seq<Action>, t: Lock, b: seq<Action>, u: Lock)
    requires Path(s, a, t) && Path(t, b, u)
    ensures Path(s, a + b, u)
    decreases a
  {
    if a == [] {
      assert a + b == b;
    } else {
      Concat(Next(s, a[0]), a[1..], t, b, u);
      assert (a + b)[1..] == a[1..] + b;
    }
  }

  lemma One(s: Lock, a: Action)
    requires WellFormed(s) && Enabled(s, a)
    ensures Path(s, [a], Next(s, a))
  {
    assert [a][1..] == [];
  }

  /** The state n undisturbed stores of v later. */
  function Later(s: Lock, v: Value, n: nat): Lock {
    if n == 0 then s
    else s.(counter := (s.counter + 2 * n) % U32, data := v, stores := s.stores + seq(n, _ => v))
  }

  predicate Quiescent(s: Lock) {
    WellFormed(s) && s.size == 2 && s.writer == Idle && forall id :: id in s.readers ==> !s.readers[id].pc.Asleep?
  }

  lemma OneStore(s: Lock, v: Value) returns (acts: seq<Action>)
    requires Quiescent(s) && |v| == 2
    ensures Path(s, acts, Later(s, v, 1))
  {
    var s1 := Next(s, Begin(v));
    var s2 := Next(s1, LoadCounter);
    var s3 := Next(s2, MarkOdd);
    var s4 := Next(s3, CopyByte(0));
    var s5 := Next(s4, CopyByte(1));
    var s6 := Next(s5, MarkEven);
    var s7 := Next(s6, Wake);
    assert s5.data == v;
    assert s7.readers == s.readers;
    assert s7.stores == s.stores + seq(1, _ => v);
    assert s7 == Later(s, v, 1);
    One(s, Begin(v));
    One(s1, LoadCounter);
    One(s2, MarkOdd);
    One(s3, CopyByte(0));
    One(s4, CopyByte(1));
    One(s5, MarkEven);
    One(s6, Wake);
    Concat(s, [Begin(v)], s1, [LoadCounter], s2);
    Concat(s, [Begin(v)] + [LoadCounter], s2, [MarkOdd], s3);
    Concat(s, [Begin(v)] + [LoadCounter] + [MarkOdd], s3, [CopyByte(0)], s4);
    Concat(s, [Begin(v)] + [LoadCounter] + [MarkOdd] + [CopyByte(0)], s4, [CopyByte(1)], s5);
    Concat(s, [Begin(v)] + [LoadCounter] + [MarkOdd] + [CopyByte(0)] + [CopyByte(1)], s5, [MarkEven], s6);
    acts := [Begin(v)] + [LoadCounter] + [MarkOdd] + [CopyByte(0)] + [CopyByte(1)] + [MarkEven];
    Concat(s, acts, s6, [Wake], s7);
    acts := acts + [Wake];
  }

  lemma {:induction false} ManyStores(s: Lock, v: Value, n: nat) returns (acts: seq<Action>)
    requires Quiescent(s) && |v| == 2
    ensures Path(s, acts, Later(s, v, n)) && Quiescent(Later(s, v, n))
    decreases n
  {
    if n == 0 {
      acts := [];
    } else {
      var before := ManyStores(s, v, n - 1);
      var m := Later(s, v, n - 1);
      var last := OneStore(m, v);
      assert Later(m, v, 1) == Later(s, v, n) by {
        AddMod(s.counter + 2 * (n - 1), 2, U32);
        assert s.stores + seq(n - 1, _ => v) + seq(1, _ => v) == s.stores + seq(n, _ => v);
      }
      Concat(s, before, m, last, Later(m, v, 1));
      acts := before + last;
    }
  }

  lemma Two(s: Lock, a: Action, b: Action)
    requires WellFormed(s) && Enabled(s, a) && WellFormed(Next(s, a)) && Enabled(Next(s, a), b)
    ensures Path(s, [a] + [b], Next(Next(s, a), b))
  {
    One(s, a);
    One(Next(s, a), b);
    Concat(s, [a], Next(s, a), [b], Next(Next(s, a), b));
  }

  /** A reader that has copied one of two bytes of the initial zeros. */
  lemma HalfRead() returns (s: Lock, acts: seq<Action>, t: Lock)
    ensures Init(s) && Path(s, acts, t) && Quiescent(t)
    ensures t.counter == 0 && t.stores == [] && t.readers.Keys == {0}
    ensures t.readers[0].pc == Reading(false, 0, 0, map[0 := 0])
  {
    s := Lock(2, 0, Zeros(2), Idle, [], map[]);
    var r := Reader(Outside, 0, Zeros(2), 0, 0, false);
    Two(s, Attach(0, 0), Call(0, false));
    var m := s.(readers := map[0 := r.(pc := Looping(false))]);
    assert Next(Next(s, Attach(0, 0)), Call(0, false)) == m;
    t := LookAndCopy(m);
    Concat(s, [Attach(0, 0)] + [Call(0, false)], m, [Look(0)] + [ReadByte(0, 0)], t);
    acts := [Attach(0, 0)] + [Call(0, false)] + ([Look(0)] + [ReadByte(0, 0)]);
  }

  lemma LookAndCopy(m: Lock) returns (t: Lock)
    requires WellFormed(m) && m.size == 2 && m.writer == Idle && m.counter == 0 && m.stores == [] && m.data == Zeros(2)
    requires m.readers.Keys == {0} && m.readers[0].pc == Looping(false)
    ensures Path(m, [Look(0)] + [ReadByte(0, 0)], t) && Quiescent(t)
    ensures t == m.(readers := t.readers) && t.readers.Keys == {0}
    ensures t.readers[0].pc == Reading(false, 0, 0, map[0 := 0])
  {
    Two(m, Look(0), ReadByte(0, 0));
    t := Next(Next(m, Look(0)), ReadByte(0, 0));
  }

  /** A `load` returns a value that was never stored. */
  ghost predicate Torn(t: Lock) {
    && 0 in t.readers && t.readers[0].pc == Outside
    && t.readers[0].out != Zeros(t.size)
    && forall n :: 0 <= n < |t.stores| ==> t.readers[0].out != t.stores[n]
  }

  /** Exactly 2^31 stores between the two counter loads: the load returns half of one value and half
      of another. So the bound in `Calm` cannot be raised. */
  lemma WindowIsTight()
    ensures exists s, acts, t :: Init(s) && Path(s, acts, t) && |t.stores| == 0x8000_0000 && Torn(t)
  {
    var s, acts, h := HalfRead();
    var v: Value := [1, 1];
    var more := ManyStores(h, v, 0x8000_0000);
    var w := Later(h, v, 0x8000_0000);
    Concat(s, acts, h, more, w);
    var t := CopyAndCheck(w, v);
    Concat(s, acts + more, w, [ReadByte(0, 1)] + [Check(0)], t);
    assert t.stores == seq(0x8000_0000, _ => v);
    var out := t.readers[0].out;
    assert out[0] != v[0] && out[1] != Zeros(2)[1];
    assert Torn(t);
  }

  lemma CopyAndCheck(w: Lock, v: Value) returns (t: Lock)
    requires WellFormed(w) && w.size == 2 && w.counter == 0 && v == [1, 1] == w.data
    requires w.readers.Keys == {0} && w.readers[0].pc == Reading(false, 0, 0, map[0 := 0])
    ensures Path(w, [ReadByte(0, 1)] + [Check(0)], t) && t == w.(readers := t.readers)
    ensures 0 in t.readers && t.readers[0].pc == Outside && |t.readers[0].out| == 2
    ensures t.readers[0].out[0] == 0 && t.readers[0].out[1] == 1
  {
    Two(w, ReadByte(0, 1), Check(0));
    t := Next(Next(w, ReadByte(0, 1)), Check(0));
  }
}
