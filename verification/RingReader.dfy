/** The reader side of the cyclic buffer, run against a writer that may take any number of steps
    between any two of the reader's own atomic accesses. */
module RingReader {
  import opened Bits
  import opened Options
  import opened RingProtocol
  import opened RingSafety

  /** What one `try_get(r)` did: the count it loaded, its attempts, what it returned, how many inserts
      hit the slot between its two counter loads, and the insert number it read. */
  datatype Read = Read(r: nat, w: nat, attempts: nat, elem: Option<Value>, hits: int, n: int)

  /** The read succeeded and returned the very insert it asked for. */
  predicate OnTarget(rd: Read) {
    rd.elem.Some? && rd.hits < HALF && rd.n == rd.w - 1 - rd.r
  }

  /** A reachable region in its first 2^64 - 1 inserts. */
  ghost predicate Sane(s: Ring) {
    Inv(s) && |s.started| < U64
  }

  /** What a query knows of the buffer: its capacity, the arguments of all inserts begun so far, and
      how many of those are published. */
  datatype View = View(cap: nat, hist: seq<Value>, counted: nat)

  ghost function ViewOf(s: Ring): (v: View)
    ensures v.cap > 0 && v.counted <= |v.hist|
  {
    View(Cap(s), s.started, Counted(s))
  }

  /** A successful read. Unless 2^31 inserts hit its slot meanwhile, it returned the argument of one
      insert: the requested one or a newer one, but none newer than the one being published. */
  ghost predicate ReadOf(v: View, rd: Read) {
    && rd.elem.Some? && rd.r < rd.w <= v.counted
    && (rd.hits < HALF ==>
          0 <= rd.w - 1 - rd.r <= rd.n <= v.counted && rd.n < |v.hist| && rd.elem.value == v.hist[rd.n])
  }

  /** The requested insert was readable, and the one that overwrites it had not begun by now. */
  predicate Room(v: View, rd: Read) {
    rd.r < rd.w && rd.r < v.cap && |v.hist| <= rd.w - 1 - rd.r + v.cap
  }

  ghost predicate Grows(a: View, b: View) {
    a.cap == b.cap && a.hist <= b.hist && a.counted <= b.counted <= |b.hist|
  }

  lemma Standing(a: View)
    requires a.counted <= |a.hist|
    ensures Grows(a, a)
  {
  }

  lemma Onward(a: View, b: View, c: View)
    requires Grows(a, b) && Grows(b, c)
    ensures Grows(a, c)
  {
  }

  lemma LaterGrows(s: Ring, t: Ring)
    requires Sane(s) && Sane(t) && Later(s, t)
    ensures Grows(ViewOf(s), ViewOf(t))
  {
  }

  /** The byte positions of a payload. */
  function Below(n: nat): (s: set<nat>)
    ensures forall j :: j in s <==> 0 <= j < n
  {
    if n == 0 then {} else Below(n - 1) + {n - 1}
  }

  /** The moments of an attempt's two loads of the slot's counter. */
  datatype Try = Try(first: Ring, last: Ring)

  /** The counter was odd at first, or another one at the end. */
  ghost predicate Missed(tr: Try, idx: nat) {
    && idx < |tr.first.slots| && idx < |tr.last.slots|
    && (tr.first.slots[idx].counter % 2 == 1 || tr.first.slots[idx].counter != tr.last.slots[idx].counter)
  }

  /** The attempts follow one another between s and t. */
  ghost predicate Chain(s: Ring, tries: seq<Try>, t: Ring)
    decreases |tries|
  {
    if tries == [] then Later(s, t)
    else
      var tr := tries[|tries| - 1];
      Later(tr.last, t) && Later(tr.first, tr.last) && Chain(s, tries[..|tries| - 1], tr.first)
  }

  /** A chain goes on to any later moment. */
  lemma ChainOn(s: Ring, tries: seq<Try>, t: Ring, u: Ring)
    requires Chain(s, tries, t) && Later(t, u)
    ensures Chain(s, tries, u)
  {
    if tries == [] {
      LaterTrans(s, t, u);
    } else {
      LaterTrans(tries[|tries| - 1].last, t, u);
    }
  }

  /** One more attempt, made between `was` and now. */
  lemma NextTry(start: Ring, was: Ring, now: Ring, tries: seq<Try>, tr: Try, idx: nat)
    requires Chain(start, tries, was) && Later(start, was) && Later(was, tr.first) && Later(tr.first, now) && tr.last == now
    requires Inv(start) && Inv(tr.first) && Inv(now) && idx < |start.slots|
    ensures Chain(start, tries + [tr], now) && Later(start, now) && Later(start, tr.first)
    ensures idx < |now.slots| && idx < |tr.first.slots| && WellFormed(start) && WellFormed(now) && WellFormed(tr.first)
    ensures Hits(tr.first, now, idx) <= Hits(start, now, idx) && 0 <= Hits(tr.first, now, idx)
    ensures Missed(tr, idx) ==> Version(start, idx) % 2 == 1 || Version(start, idx) < Version(now, idx)
  {
    ChainOn(start, tries, was, tr.first);
    LaterTrans(start, was, tr.first);
    LaterTrans(start, tr.first, now);
    LaterRefl(now);
    assert (tries + [tr])[..|tries|] == tries;
    HitsMonotone(start, tr.first, now, idx);
    hide Later, Inv, Version, Chain, Hits, Missed;
    MissMoves(start, tr.first, now, tr, idx);
  }

  lemma MissMoves(start: Ring, first: Ring, now: Ring, tr: Try, idx: nat)
    requires Inv(start) && Inv(first) && Inv(now) && Later(start, first) && Later(first, now) && tr == Try(first, now)
    requires idx < |start.slots|
    ensures Missed(tr, idx) ==> Version(start, idx) % 2 == 1 || Version(start, idx) < Version(now, idx)
  {
    VersionParity(first, idx);
    assert SlotLater(start, first, idx) && SlotLater(first, now, idx);
    assert SlotInv(first, idx) && SlotInv(now, idx);
  }

  class CyclicBufferReader {
    var mem: Ring

    ghost predicate Valid()
      reads this
    {
      Sane(mem)
    }

    ghost function View(): (v: View)
      reads this
      ensures v.cap > 0 && v.counted <= |v.hist|
    {
      ViewOf(mem)
    }

    constructor (region: Ring)
      requires Sane(region)
      ensures Valid() && mem == region
    {
      mem := region;
    }

    /** Everybody else: the writer, other readers' waits, the kernel. */
    method Interfere()
      requires Valid()
      modifies this`mem
      ensures Valid() && Later(old(mem), mem)
    {
      LaterRefl(mem);
      var steps: nat := *;
      while steps > 0
        invariant Valid() && Later(old(mem), mem)
      {
        var a: Action := *;
        if Enabled(mem, a) && (a.Begin? ==> |mem.started| + 1 < U64) {
          StepInv(mem, a);
          StepLater(mem, a);
          LaterTrans(old(mem), mem, Next(mem, a));
          mem := Next(mem, a);
        }
        steps := steps - 1;
      }
    }

    /** `memcpy` out of a slot, byte by byte in any order. */
    method CopyOut(idx: nat) returns (result: Value)
      requires Valid() && idx < |mem.slots|
      modifies this`mem
      ensures Valid() && Later(old(mem), mem) && |result| == mem.size
      ensures Version(mem, idx) == Version(old(mem), idx) && Version(mem, idx) % 2 == 0 ==>
                result == old(mem).slots[idx].data
    {
      LaterRefl(mem);
      result := Zeros(mem.size);
      var pending := Below(mem.size);
      while pending != {}
        invariant Valid() && Later(old(mem), mem) && |result| == mem.size
        invariant forall j :: j in pending ==> 0 <= j < mem.size
        invariant Version(mem, idx) == Version(old(mem), idx) && Version(mem, idx) % 2 == 0 ==>
                    forall j :: 0 <= j < mem.size && j !in pending ==> result[j] == old(mem).slots[idx].data[j]
        decreases pending
      {
        ghost var was := mem;
        var j :| j in pending;
        Interfere();
        LaterTrans(old(mem), was, mem);
        assert SlotLater(old(mem), was, idx) && SlotLater(was, mem, idx) && SlotLater(old(mem), mem, idx);
        result := result[j := mem.slots[idx].data[j]];
        pending := pending - {j};
      }
    }

    /** One attempt: the counter, the bytes, the counter again. It succeeds exactly if the first is even and
        the second equals it. */
    method Attempt(idx: nat) returns (out: Option<Value>, ghost tr: Try, ghost hits: int)
      requires Valid() && idx < |mem.slots|
      modifies this`mem
      ensures Valid() && Inv(tr.first) && Later(old(mem), tr.first) && Later(tr.first, mem) && Later(old(mem), mem)
      ensures tr.last == mem && (out.None? <==> Missed(tr, idx))
      ensures out.Some? ==> hits == Hits(tr.first, mem, idx)
      ensures out.Some? && hits < HALF ==> Version(tr.first, idx) % 2 == 0 && out.value == tr.first.slots[idx].data
    {
      Interfere();
      ghost var first := mem;
      hits := 0;
      LaterRefl(first);
      var before := mem.slots[idx].counter;
      if before % 2 == 1 {
        return None, Try(first, first), 0;
      }
      var result := CopyOut(idx);
      ghost var copied := mem;
      Interfere();
      LaterTrans(first, copied, mem);
      LaterTrans(old(mem), first, mem);
      var after := mem.slots[idx].counter;
      assert SlotLater(first, copied, idx) && SlotLater(copied, mem, idx);
      tr := Try(first, mem);
      if before == after {
        hits := Hits(first, mem, idx);
        if hits < HALF {
          EqualCounters(first, mem, idx);
        }
        return Some(result), tr, hits;
      }
      out := None;
    }

    /** Attempts, one after another, until one succeeds or there have been `maxRetries + 1`. A success
        returns the content slot `idx` had at one moment `at` of the last attempt. */
    method TryReadSlot(idx: nat, maxRetries: nat)
      returns (out: Option<Value>, ghost tries: seq<Try>, ghost at: Ring, ghost hits: int)
      requires Valid() && idx < |mem.slots|
      modifies this`mem
      ensures Valid() && Later(old(mem), mem) && Chain(old(mem), tries, mem)
      ensures 0 < |tries| <= maxRetries + 1 && (out.None? ==> |tries| == maxRetries + 1)
      ensures forall q :: 0 <= q < |tries| - 1 ==> Missed(tries[q], idx)
      ensures out.None? <==> Missed(tries[|tries| - 1], idx)
      ensures Inv(at) && Later(old(mem), at) && Later(at, mem) && idx < |at.slots| && idx < |mem.slots|
      ensures out.Some? ==> at == tries[|tries| - 1].first && 0 <= hits <= Hits(old(mem), mem, idx)
      ensures out.Some? && hits < HALF ==>
                Version(at, idx) % 2 == 0 && out.value == at.slots[idx].data
      ensures out.None? ==> Version(old(mem), idx) % 2 == 1 || Version(old(mem), idx) < Version(mem, idx)
    {
      ghost var start := mem;
      LaterRefl(mem);
      tries, at, hits := [], mem, 0;
      out := None;
      hide Inv, Later, Version, Hits, Holds, Missed;
      for attempt := 0 to maxRetries + 1
        invariant Valid() && Later(start, mem) && Chain(start, tries, mem) && |tries| == attempt
        invariant forall q :: 0 <= q < |tries| ==> Missed(tries[q], idx)
        invariant attempt > 0 ==> Version(start, idx) % 2 == 1 || Version(start, idx) < Version(mem, idx)
        invariant idx < |start.slots| && idx < |mem.slots| && WellFormed(start) && WellFormed(mem)
        invariant out == None
      {
        ghost var was := mem;
        ghost var tr;
        out, tr, hits := Attempt(idx);
        NextTry(start, was, mem, tries, tr, idx);
        tries := tries + [tr];
        if out.Some? {
          at := tr.first;
          return;
        }
      }
      at := mem;
      LaterRefl(mem);
    }

    /** `try_get(r)`: fails, or returns the requested insert or a newer one from the same slot. It
        cannot fail, nor be lapped, before the insert that overwrites the requested one begins. */
    method TryGet(r: nat, maxRetries: nat := 4) returns (elem: Option<Value>, ghost rd: Read)
      requires Valid()
      modifies this`mem
      ensures Valid() && Grows(old(View()), View())
      ensures rd.r == r && rd.elem == elem && rd.attempts <= maxRetries + 1
      ensures old(View()).counted <= rd.w <= View().counted
      ensures elem.Some? ==> r < View().cap && ReadOf(View(), rd) && 0 <= rd.hits <= |View().hist| - old(View()).counted
      ensures Room(View(), rd) ==> OnTarget(rd)
      ensures elem.None? && r < rd.w && r < View().cap ==> rd.attempts == maxRetries + 1
    {
      hide Later, Version, Hits, Holds, ViewOf, Grows, Room, ReadOf, WaiterInv, WriterInv, SlotInv;
      Interfere();
      var writes := mem.total;
      ghost var loaded := mem;
      if r >= writes || r >= Pow2(mem.k) {
        elem, rd := None, Read(r, writes, 0, None, 0, 0);
        GotNothing(old(mem), mem, rd);
        return;
      }
      SlotInRange(mem, r);
      var idx := And(Sub64(Sub64(writes, 1), r), Pow2(mem.k) - 1);
      ghost var tries, at, hits;
      elem, tries, at, hits := TryReadSlot(idx, maxRetries);
      rd := Read(r, writes, |tries|, elem, hits, Holds(at, idx));
      GotSomething(old(mem), loaded, at, mem, rd);
    }

    /** `available()`: `min(total_writes, N)` at the moment of the load. */
    method Available() returns (avail: nat, ghost w: nat)
      requires Valid()
      modifies this`mem
      ensures Valid() && Grows(old(View()), View())
      ensures w == View().counted
      ensures avail == if w < View().cap then w else View().cap
    {
      Interfere();
      ModSmall(Counted(mem), U64);
      LaterGrows(old(mem), mem);
      w := mem.total;
      avail := if mem.total < Pow2(mem.k) then mem.total else Pow2(mem.k);
    }
  }

  /** The slot `try_get(r)` chooses. */
  function SlotFor(s: Ring, r: nat): nat {
    And(Sub64(Sub64(s.total, 1), r), Pow2(s.k) - 1)
  }

  /** Reading the slot chosen from `loaded` as it stands at a later moment `at`, before t. */
  lemma GetFacts(loaded: Ring, at: Ring, t: Ring, r: nat)
    requires Inv(loaded) && Inv(at) && Inv(t) && Later(loaded, at) && Later(at, t) && Later(loaded, t)
    requires Counted(loaded) < U64 && r < loaded.total && r < Cap(loaded)
    ensures loaded.total == Counted(loaded)
    ensures var i := SlotFor(loaded, r);
            && i < |loaded.slots| && i < |at.slots| && i < |t.slots|
            && loaded.total - 1 - r <= Holds(at, i)
            && (Version(at, i) % 2 == 0 ==>
                  && Holds(at, i) <= Counted(t) && Holds(at, i) < |t.started|
                  && at.slots[i].data == t.started[Holds(at, i)])
            && (|t.started| <= loaded.total - 1 - r + Cap(loaded) ==>
                  && Holds(at, i) == loaded.total - 1 - r && Hits(loaded, t, i) == 0
                  && Version(loaded, i) % 2 == 0 && Version(loaded, i) == Version(t, i))
  {
    RequestedSlot(loaded, at, r);
    var i := SlotFor(loaded, r);
    if Version(at, i) % 2 == 0 {
      EvenSlotContent(at, i);
    }
    if |t.started| <= loaded.total - 1 - r + Cap(loaded) {
      RoomLeft(loaded, t, r);
      RoomLeft(loaded, at, r);
    }
  }

  /** An attempt's outcome on the chosen slot, as `TryReadSlot` promises it. */
  ghost predicate Tried(loaded: Ring, at: Ring, t: Ring, i: nat, rd: Read) {
    && Sane(loaded) && Inv(at) && Sane(t) && Later(loaded, at) && Later(at, t)
    && i < |loaded.slots| && i < |at.slots| && i < |t.slots|
    && (rd.elem.Some? ==> 0 <= rd.hits <= Hits(loaded, t, i))
    && (rd.elem.Some? && rd.hits < HALF ==> Version(at, i) % 2 == 0 && rd.elem.value == at.slots[i].data)
    && (rd.elem.None? ==> Version(loaded, i) % 2 == 1 || Version(loaded, i) < Version(t, i))
  }

  lemma SlotInRange(s: Ring, r: nat)
    requires Sane(s) && r < s.total && r < Pow2(s.k)
    ensures SlotFor(s, r) < |s.slots|
  {
    LaterRefl(s);
    RequestedSlot(s, s, r);
  }

  lemma GotNothing(s: Ring, t: Ring, rd: Read)
    requires Sane(s) && Sane(t) && Later(s, t) && rd.w == t.total && rd.elem == None
    requires rd.r >= t.total || rd.r >= Pow2(t.k)
    ensures Grows(ViewOf(s), ViewOf(t)) && ViewOf(s).counted <= rd.w <= ViewOf(t).counted
    ensures !Room(ViewOf(t), rd) && !(rd.r < rd.w && rd.r < ViewOf(t).cap)
  {
    ModSmall(Counted(t), U64);
  }

  lemma GotSomething(s: Ring, loaded: Ring, at: Ring, t: Ring, rd: Read)
    requires Sane(s) && Later(s, loaded) && Tried(loaded, at, t, SlotFor(loaded, rd.r), rd)
    requires rd.w == loaded.total && rd.r < loaded.total && rd.r < Pow2(loaded.k)
    requires rd.n == Holds(at, SlotFor(loaded, rd.r))
    ensures Grows(ViewOf(s), ViewOf(t)) && ViewOf(s).counted <= rd.w <= ViewOf(t).counted
    ensures rd.elem.Some? ==>
              rd.r < ViewOf(t).cap && ReadOf(ViewOf(t), rd) && 0 <= rd.hits <= |ViewOf(t).hist| - ViewOf(s).counted
    ensures Room(ViewOf(t), rd) ==> OnTarget(rd)
  {
    hide Inv, Later, SlotFor, Holds, Hits, Version, Grows;
    LaterTrans(loaded, at, t);
    GotCounts(s, loaded, t);
    HitsBound(loaded, t, SlotFor(loaded, rd.r));
    GetFacts(loaded, at, t, rd.r);
  }

  lemma GotCounts(s: Ring, t: Ring, u: Ring)
    requires Sane(s) && Sane(t) && Sane(u) && Later(s, t) && Later(t, u)
    ensures Grows(ViewOf(s), ViewOf(t)) && Grows(ViewOf(t), ViewOf(u)) && Grows(ViewOf(s), ViewOf(u))
    ensures ViewOf(s).counted <= Counted(t) <= Counted(u)
    ensures ViewOf(u) == View(Cap(t), u.started, Counted(u)) && Cap(t) == Pow2(t.k)
  {
  }

  lemma HitsMonotone(s: Ring, t: Ring, u: Ring, i: nat)
    requires Later(s, t) && Later(t, u) && i < |s.slots|
    ensures 0 <= Hits(t, u, i) <= Hits(s, u, i)
  {
    SlotMonotone(Cap(s), i, Settled(s), Settled(t));
    SlotMonotone(Cap(s), i, Settled(t), Settled(u));
  }
}
