/** What `find_closest` returns, said of its log alone: which reads a query makes and which of their
    answers it picks, without the states it goes through. */
module SearchAnswer {
  import opened Bits
  import opened Options
  import opened RingReader
  import opened SearchSpec

  /** Reverse indices lo to hi. */
  datatype Indices = Indices(lo: int, hi: int)

  /** An element above the target rules out its index and all newer ones, one below it and all older
      ones. */
  function Without(g: Goal, left: Indices, rd: Read): Indices {
    if rd.elem.None? then left
    else if g.key(rd.elem.value) > g.target then left.(lo := rd.r + 1) else left.(hi := rd.r - 1)
  }

  /** What the given probes leave. */
  function Range(g: Goal, probes: seq<Read>): Indices {
    if probes == [] then Indices(0, g.avail - 1)
    else Without(g, Range(g, probes[..|probes| - 1]), probes[|probes| - 1])
  }

  /** Read q is a probe of the middle of a range of two or more. */
  predicate IsProbe(g: Goal, rds: seq<Read>, q: nat)
    requires q < |rds|
  {
    var left := Range(g, rds[..q]);
    0 <= left.lo < left.hi && rds[q].r == left.lo + (left.hi - left.lo) / 2
  }

  /** Read q comes after the loop, at the one reverse index left. */
  predicate IsFinal(g: Goal, rds: seq<Read>, q: nat)
    requires q < |rds|
  {
    var left := Range(g, rds[..q]);
    left.lo >= left.hi && rds[q].r == left.lo
  }

  /** The first p reads are probes that found an element, but not the target's key. */
  ghost predicate Bisecting(g: Goal, rds: seq<Read>, p: nat) {
    p <= |rds| && forall q :: 0 <= q < p ==> IsProbe(g, rds, q) && rds[q].elem.Some? && g.Diff(rds[q].elem.value) != 0
  }

  /** From `from` on, every reverse index in order. */
  predicate Sweeps(g: Goal, rds: seq<Read>, from: nat) {
    |rds| == from + g.avail && forall q :: from <= q < |rds| ==> rds[q].r == q - from
  }

  /** After read p, the newer and then the older neighbour of its reverse index, as far as there are any. */
  predicate LooksAround(g: Goal, rds: seq<Read>, p: nat)
    requires p < |rds|
  {
    var lo := rds[p].r;
    && |rds| == p + 1 + (if lo > 0 then 1 else 0) + (if lo + 1 < g.avail then 1 else 0)
    && (lo > 0 ==> rds[p + 1].r == lo - 1)
    && (lo + 1 < g.avail ==> rds[|rds| - 1].r == lo + 1)
  }

  /** The answer holds an element nearer than `cap` and within the limit. */
  predicate Eligible(g: Goal, rd: Read, cap: Option<nat>, limit: Option<nat>) {
    && rd.elem.Some?
    && (cap.Some? ==> g.Diff(rd.elem.value) < cap.value)
    && (limit.Some? ==> g.Diff(rd.elem.value) <= limit.value)
  }

  /** Element e is the first of the nearest ones read from `from` on. */
  ghost predicate FirstNearest(g: Goal, rds: seq<Read>, from: nat, e: Value) {
    && NoneNearer(g, rds, from, g.Diff(e))
    && exists q: nat :: from <= q && NewMinimum(g, rds, from, q, e)
  }

  ghost predicate NewMinimum(g: Goal, rds: seq<Read>, from: nat, q: nat, e: Value) {
    && q < |rds| && rds[q].elem == Some(e)
    && forall j :: from <= j < q && rds[j].elem.Some? ==> g.Diff(e) < g.Diff(rds[j].elem.value)
  }

  /** The result picked from the reads from `from` on: nothing exactly if none of them is eligible, and
      otherwise the first of the nearest. */
  ghost predicate Picks(g: Goal, rds: seq<Read>, from: nat, cap: Option<nat>, limit: Option<nat>, res: Option<Value>) {
    && (res.None? <==> forall q :: from <= q < |rds| ==> !Eligible(g, rds[q], cap, limit))
    && (res.Some? ==> FirstNearest(g, rds, from, res.value))
  }

  /** A query whose loop ends at read p: with a failed probe, after which all elements are scanned; with an
      exact hit; with a failed read of the one index left, after which all are scanned without the limit; or
      with that read and a look at its neighbours. */
  ghost predicate AnsweredAt(g: Goal, rds: seq<Read>, res: Option<Value>, p: nat) {
    && p < |rds| && Bisecting(g, rds, p)
    && match rds[p].elem
       case None =>
         && Sweeps(g, rds, p + 1)
         && ((IsProbe(g, rds, p) && Picks(g, rds, p + 1, Some(g.keyMax), g.limit, res))
             || (IsFinal(g, rds, p) && Picks(g, rds, p + 1, Some(g.keyMax), None, res)))
       case Some(e) =>
         || (IsProbe(g, rds, p) && g.Diff(e) == 0 && |rds| == p + 1 && res == Some(e))
         || (IsFinal(g, rds, p) && LooksAround(g, rds, p) && Picks(g, rds, p, None, g.limit, res))
  }

  ghost predicate Answered(g: Goal, rds: seq<Read>, res: Option<Value>) {
    if g.avail == 0 then rds == [] && res == None else exists p: nat :: AnsweredAt(g, rds, res, p)
  }

  // ---------------------------------------------------------------------------------------------
  // The walk answers so
  // ---------------------------------------------------------------------------------------------

  /** What the log so far must look like in each state of the walk. */
  ghost predicate Traced(g: Goal, rds: seq<Read>, st: State) {
    match st
    case Probing(lo, high, _, _) =>
      g.avail > 0 && Bisecting(g, rds, |rds|) && Range(g, rds) == Indices(lo, high) && lo < high
    case AtLo(lo, hi, _, _) =>
      g.avail > 0 && Bisecting(g, rds, |rds|) && Range(g, rds) == Indices(lo, hi) && lo >= hi
    case Newer(lo, hi, _, _, best, _, from) =>
      lo > 0 && |rds| == from + 1 && Settled(g, rds, lo, best, from)
    case Older(lo, hi, _, _, best, _, from) =>
      && lo + 1 < g.avail && |rds| == from + 1 + (if lo > 0 then 1 else 0)
      && (lo > 0 ==> rds[from + 1].r == lo - 1) && Settled(g, rds, lo, best, from)
    case Scanning(path, i, held, diff, _, from) =>
      i < g.avail && Scans(g, rds, path, i, held, diff, from)
    case Done(path, _, _, _) => Answered(g, rds, Result(g, st))
    case Off => true
  }

  /** Past the read of the one index left, holding the first of the nearest elements since. */
  ghost predicate Settled(g: Goal, rds: seq<Read>, lo: nat, best: Value, from: nat) {
    && from < |rds| && Bisecting(g, rds, from) && IsFinal(g, rds, from)
    && rds[from].r == lo && rds[from].elem.Some? && FirstNearest(g, rds, from, best)
    && g.avail > 0
  }

  /** In the scan after a failed read. */
  ghost predicate Scans(g: Goal, rds: seq<Read>, path: Path, i: nat, held: Option<Value>, diff: nat, from: nat) {
    && g.avail > 0 && 0 < from <= |rds| && Bisecting(g, rds, from - 1) && rds[from - 1].elem.None?
    && ((path == LoopFallback && IsProbe(g, rds, from - 1)) || (path == FinalFallback && IsFinal(g, rds, from - 1)))
    && |rds| == from + i && (forall q :: from <= q < |rds| ==> rds[q].r == q - from)
    && NoneNearer(g, rds, from, diff)
    && (held.None? ==> diff == g.keyMax)
    && (held.Some? ==> diff == g.Diff(held.value) < g.keyMax && FirstNearest(g, rds, from, held.value))
  }

  lemma RangeFront(g: Goal, rds: seq<Read>, rd: Read)
    ensures (rds + [rd])[..|rds|] == rds && Range(g, rds + [rd]) == Without(g, Range(g, rds), rd)
  {
    hide Without;
    assert (rds + [rd])[..|rds|] == rds;
  }

  /** What is said of the first reads stays true of a longer log. */
  lemma FrontStays(g: Goal, rds: seq<Read>, rd: Read, q: nat)
    requires q < |rds|
    ensures (rds + [rd])[..q] == rds[..q] && (rds + [rd])[q] == rds[q]
    ensures IsProbe(g, rds + [rd], q) <==> IsProbe(g, rds, q)
    ensures IsFinal(g, rds + [rd], q) <==> IsFinal(g, rds, q)
  {
    assert (rds + [rd])[..q] == rds[..q];
  }

  lemma BisectingStays(g: Goal, rds: seq<Read>, rd: Read, p: nat)
    requires Bisecting(g, rds, p)
    ensures Bisecting(g, rds + [rd], p)
  {
    forall q | 0 <= q < p
      ensures IsProbe(g, rds + [rd], q) && (rds + [rd])[q] == rds[q]
    {
      FrontStays(g, rds, rd, q);
    }
  }

  /** One more read, strictly nearer than the element held or not. */
  lemma NearestStays(g: Goal, rds: seq<Read>, rd: Read, from: nat, best: Value)
    requires FirstNearest(g, rds, from, best) && from <= |rds|
    ensures FirstNearest(g, rds + [rd], from, if Nearer(g, rd, g.Diff(best)) then rd.elem.value else best)
  {
    var q: nat :| from <= q && NewMinimum(g, rds, from, q, best);
    if Nearer(g, rd, g.Diff(best)) {
      assert NewMinimum(g, rds + [rd], from, |rds|, rd.elem.value);
    } else {
      assert NewMinimum(g, rds + [rd], from, q, best);
    }
  }

  /** The first element met. */
  lemma NearestStarts(g: Goal, rds: seq<Read>, rd: Read, from: nat, d: nat)
    requires NoneNearer(g, rds, from, d) && from <= |rds| && rd.elem.Some? && g.Diff(rd.elem.value) < d
    ensures FirstNearest(g, rds + [rd], from, rd.elem.value)
  {
    assert NewMinimum(g, rds + [rd], from, |rds|, rd.elem.value);
  }

  lemma KeyHit(g: Goal, e: Value)
    ensures g.Diff(e) == 0 <==> g.key(e) == g.target
  {
  }

  /** A fallback begins. */
  lemma ScanBegins(g: Goal, rds: seq<Read>, rd: Read, path: Path)
    requires g.avail > 0 && Bisecting(g, rds, |rds|) && rd.elem.None?
    requires (path == LoopFallback && IsProbe(g, rds + [rd], |rds|)) || (path == FinalFallback && IsFinal(g, rds + [rd], |rds|))
    ensures Traced(g, rds + [rd], Scan(g, path, 0, None, g.keyMax, 0, |rds| + 1))
  {
    BisectingStays(g, rds, rd, |rds|);
    assert Scans(g, rds + [rd], path, 0, None, g.keyMax, |rds| + 1);
  }

  lemma ProbingTraced(g: Goal, rds: seq<Read>, st: State, rd: Read)
    requires Traced(g, rds, st) && st.Probing? && Asks(st) == Some(rd.r)
    ensures Traced(g, rds + [rd], Advance(g, st, rd, |rds|))
  {
    RangeFront(g, rds, rd);
    ProbeLast(g, rds, st.lo, st.high, rd);
    hide Range, IsProbe, IsFinal, Settled, Scans;
    if rd.elem.None? {
      hide Bisecting;
      ScanBegins(g, rds, rd, LoopFallback);
    } else {
      KeyHit(g, rd.elem.value);
      BisectingStays(g, rds, rd, |rds|);
      if g.key(rd.elem.value) == g.target {
        assert AnsweredAt(g, rds + [rd], rd.elem, |rds|);
      } else {
        BisectingOn(g, rds, rd);
        hide Bisecting, Answered, Mid;
        NarrowTraced(g, rds + [rd], Without(g, Indices(st.lo, st.high), rd), if g.key(rd.elem.value) > g.target then rd.n else st.above,
                     if g.key(rd.elem.value) > g.target then st.below else rd.n);
      }
    }
  }

  lemma NarrowTraced(g: Goal, rds: seq<Read>, left: Indices, above: int, below: int)
    requires g.avail > 0 && Bisecting(g, rds, |rds|) && Range(g, rds) == left && left.lo >= 0
    ensures Traced(g, rds, Narrow(left.lo, left.hi, above, below))
  {
    hide Bisecting, Range;
  }

  lemma ProbeLast(g: Goal, rds: seq<Read>, lo: nat, high: nat, rd: Read)
    requires Range(g, rds) == Indices(lo, high) && lo < high && rd.r == Mid(lo, high)
    ensures IsProbe(g, rds + [rd], |rds|)
  {
    assert (rds + [rd])[..|rds|] == rds;
  }

  lemma BisectingOn(g: Goal, rds: seq<Read>, rd: Read)
    requires Bisecting(g, rds + [rd], |rds|) && IsProbe(g, rds + [rd], |rds|) && rd.elem.Some? && g.Diff(rd.elem.value) != 0
    ensures Bisecting(g, rds + [rd], |rds + [rd]|)
  {
  }

  lemma AtLoTraced(g: Goal, rds: seq<Read>, st: State, rd: Read)
    requires Traced(g, rds, st) && st.AtLo? && Asks(st) == Some(rd.r)
    ensures Traced(g, rds + [rd], Advance(g, st, rd, |rds|))
  {
    RangeFront(g, rds, rd);
    BisectingStays(g, rds, rd, |rds|);
    assert IsFinal(g, rds + [rd], |rds|);
    if rd.elem.None? {
      ScanBegins(g, rds, rd, FinalFallback);
    } else {
      NearestStarts(g, rds, rd, |rds|, g.Diff(rd.elem.value) + 1);
      assert Settled(g, rds + [rd], st.lo, rd.elem.value, |rds|);
      if st.lo == 0 && !(st.lo + 1 < g.avail) {
        Decides(g, rds + [rd], st.lo, rd.elem.value, |rds|);
      }
    }
  }

  /** The repair ends, and the limit is applied. */
  lemma Decides(g: Goal, rds: seq<Read>, lo: nat, best: Value, from: nat)
    requires Settled(g, rds, lo, best, from) && LooksAround(g, rds, from)
    ensures Answered(g, rds, Limited(g, g.limit, Some(best)))
  {
    var res := Limited(g, g.limit, Some(best));
    PicksBest(g, rds, from, None, best);
    assert AnsweredAt(g, rds, res, from);
  }

  lemma PicksBest(g: Goal, rds: seq<Read>, from: nat, cap: Option<nat>, best: Value)
    requires FirstNearest(g, rds, from, best) && (cap.Some? ==> g.Diff(best) < cap.value)
    ensures forall limit :: Picks(g, rds, from, cap, limit, Limited(g, limit, Some(best)))
  {
    forall limit
      ensures Picks(g, rds, from, cap, limit, Limited(g, limit, Some(best)))
    {
      var q: nat :| from <= q && NewMinimum(g, rds, from, q, best);
      if limit.None? || g.Diff(best) <= limit.value {
        assert Eligible(g, rds[q], cap, limit);
      }
    }
  }

  lemma SettledStays(g: Goal, rds: seq<Read>, rd: Read, lo: nat, best: Value, from: nat)
    requires Settled(g, rds, lo, best, from)
    ensures Settled(g, rds + [rd], lo, Better(g, rd, best), from)
  {
    BisectingStays(g, rds, rd, from);
    FrontStays(g, rds, rd, from);
    NearestStays(g, rds, rd, from, best);
  }

  /** What is held after one more read. */
  function Better(g: Goal, rd: Read, best: Value): Value {
    if Nearer(g, rd, g.Diff(best)) then rd.elem.value else best
  }

  function BetterNumber(g: Goal, rd: Read, best: Value, n: int): int {
    if Nearer(g, rd, g.Diff(best)) then rd.n else n
  }

  lemma NewerAdvances(g: Goal, st: State, rd: Read, at: nat)
    requires st.Newer? && Asks(st) == Some(rd.r)
    ensures Advance(g, st, rd, at) ==
            ToOlder(g, st.lo, st.hi, st.above, st.below, Better(g, rd, st.best), BetterNumber(g, rd, st.best, st.n), st.from)
  {
  }

  lemma OlderAdvances(g: Goal, st: State, rd: Read, at: nat)
    requires st.Older? && Asks(st) == Some(rd.r)
    ensures Advance(g, st, rd, at) ==
            Done(Fast, Some(Better(g, rd, st.best)), BetterNumber(g, rd, st.best, st.n), st.from)
  {
  }

  lemma FastTraced(g: Goal, rds: seq<Read>, best: Value, n: int, from: nat)
    requires Answered(g, rds, Limited(g, g.limit, Some(best)))
    ensures Traced(g, rds, Done(Fast, Some(best), n, from))
  {
  }

  lemma OlderNext(g: Goal, rds: seq<Read>, lo: nat, hi: int, above: int, below: int, best: Value, n: int, from: nat)
    requires Settled(g, rds, lo, best, from) && 0 < lo && lo + 1 < g.avail && |rds| == from + 2 && rds[from + 1].r == lo - 1
    ensures Traced(g, rds, Older(lo, hi, above, below, best, n, from))
  {
    hide Settled;
  }

  lemma NewerTraced(g: Goal, rds: seq<Read>, st: State, rd: Read)
    requires Traced(g, rds, st) && st.Newer? && Asks(st) == Some(rd.r) && st.lo < g.avail
    ensures Traced(g, rds + [rd], Advance(g, st, rd, |rds|))
  {
    assert st.lo > 0 && |rds| == st.from + 1 && Settled(g, rds, st.lo, st.best, st.from);
    assert rd.r == st.lo - 1;
    NewerAdvances(g, st, rd, |rds|);
    hide Settled, Answered, Nearer, Traced, Advance, Better, BetterNumber;
    var best, n := Better(g, rd, st.best), BetterNumber(g, rd, st.best, st.n);
    SettledStays(g, rds, rd, st.lo, st.best, st.from);
    RepairLast(rds, rd);
    if st.lo + 1 < g.avail {
      OlderNext(g, rds + [rd], st.lo, st.hi, st.above, st.below, best, n, st.from);
    } else {
      SettledAt(g, rds + [rd], st.lo, best, st.from);
      Decides(g, rds + [rd], st.lo, best, st.from);
      FastTraced(g, rds + [rd], best, n, st.from);
    }
  }

  lemma OlderTraced(g: Goal, rds: seq<Read>, st: State, rd: Read)
    requires Traced(g, rds, st) && st.Older? && Asks(st) == Some(rd.r) && st.lo < g.avail
    ensures Traced(g, rds + [rd], Advance(g, st, rd, |rds|))
  {
    assert st.lo + 1 < g.avail && |rds| == st.from + 1 + (if st.lo > 0 then 1 else 0) && Settled(g, rds, st.lo, st.best, st.from);
    assert rd.r == st.lo + 1 && (st.lo > 0 ==> rds[st.from + 1].r == st.lo - 1);
    OlderAdvances(g, st, rd, |rds|);
    hide Settled, Answered, Nearer, Traced, Advance, Better, BetterNumber;
    var best, n := Better(g, rd, st.best), BetterNumber(g, rd, st.best, st.n);
    SettledStays(g, rds, rd, st.lo, st.best, st.from);
    SettledAt(g, rds + [rd], st.lo, best, st.from);
    RepairLast(rds, rd);
    Decides(g, rds + [rd], st.lo, best, st.from);
    FastTraced(g, rds + [rd], best, n, st.from);
  }

  lemma SettledAt(g: Goal, rds: seq<Read>, lo: nat, best: Value, from: nat)
    requires Settled(g, rds, lo, best, from)
    ensures from < |rds| && rds[from].r == lo
  {
  }

  lemma ScanTraced(g: Goal, rds: seq<Read>, st: State, rd: Read)
    requires Traced(g, rds, st) && st.Scanning? && Asks(st) == Some(rd.r)
    ensures Traced(g, rds + [rd], Advance(g, st, rd, |rds|))
  {
    var all := rds + [rd];
    var closer := Nearer(g, rd, st.diff);
    var held, diff := if closer then rd.elem else st.held, if closer then g.Diff(rd.elem.value) else st.diff;
    ScansOn(g, rds, rd, st.path, st.i, st.held, st.diff, st.from);
    if st.i + 1 == g.avail {
      ScanDecides(g, all, st.path, held, diff, st.from);
    }
  }

  lemma ScansOn(g: Goal, rds: seq<Read>, rd: Read, path: Path, i: nat, held: Option<Value>, diff: nat, from: nat)
    requires Scans(g, rds, path, i, held, diff, from) && rd.r == i
    ensures var closer := Nearer(g, rd, diff);
            Scans(g, rds + [rd], path, i + 1, if closer then rd.elem else held,
                  if closer then g.Diff(rd.elem.value) else diff, from)
  {
    BisectingStays(g, rds, rd, from - 1);
    FrontStays(g, rds, rd, from - 1);
    if held.Some? {
      NearestStays(g, rds, rd, from, held.value);
    } else if Nearer(g, rd, diff) {
      NearestStarts(g, rds, rd, from, diff);
    }
  }

  /** The scan ends, and the limit is applied or not. */
  lemma ScanDecides(g: Goal, rds: seq<Read>, path: Path, held: Option<Value>, diff: nat, from: nat)
    requires Scans(g, rds, path, g.avail, held, diff, from)
    ensures Answered(g, rds, Limited(g, if path == FinalFallback then None else g.limit, held))
  {
    var limit := if path == FinalFallback then None else g.limit;
    var res := Limited(g, limit, held);
    if held.Some? {
      PicksBest(g, rds, from, Some(g.keyMax), held.value);
    }
    assert Picks(g, rds, from, Some(g.keyMax), limit, res);
    assert AnsweredAt(g, rds, res, from - 1);
  }

  lemma StepTraced(g: Goal, rds: seq<Read>, st: State, rd: Read)
    requires Traced(g, rds, st) && InBounds(g, st)
    ensures Traced(g, rds + [rd], Advance(g, st, rd, |rds|))
  {
    if Asks(st) == Some(rd.r) {
      match st
      case Probing(_, _, _, _) => ProbingTraced(g, rds, st, rd);
      case AtLo(_, _, _, _) => AtLoTraced(g, rds, st, rd);
      case Newer(_, _, _, _, _, _, _) => NewerTraced(g, rds, st, rd);
      case Older(_, _, _, _, _, _, _) => OlderTraced(g, rds, st, rd);
      case Scanning(_, _, _, _, _, _) => ScanTraced(g, rds, st, rd);
    }
  }

  lemma {:induction false} WalkTraced(g: Goal, rds: seq<Read>)
    ensures Traced(g, rds, Walk(g, Start(g), rds))
    decreases rds
  {
    if rds != [] {
      var front, rd := rds[..|rds| - 1], rds[|rds| - 1];
      assert rds == front + [rd];
      WalkTraced(g, front);
      var st := Walk(g, Start(g), front);
      hide Traced, Advance;
      if !st.Off? {
        WalkInBounds(g, front);
        StepTraced(g, front, st, rd);
      } else {
        OffTraced(g, rds, rd, |front|);
      }
    }
  }

  lemma OffTraced(g: Goal, rds: seq<Read>, rd: Read, at: nat)
    ensures Advance(g, Off, rd, at) == Off && Traced(g, rds, Off)
  {
  }

  /** What a query returns, for every log: its reads are those of a bisection, with the repair or the scan that
      follow, and its result is the one picked from them. */
  lemma QueryAnswered(g: Goal, rds: seq<Read>)
    requires Walk(g, Start(g), rds).Done?
    ensures Answered(g, rds, Result(g, Walk(g, Start(g), rds)))
  {
    WalkTraced(g, rds);
  }

  // ---------------------------------------------------------------------------------------------
  // The log decides
  // ---------------------------------------------------------------------------------------------

  /** A log has one result. */
  lemma AnswerUnique(g: Goal, rds: seq<Read>, res: Option<Value>, res': Option<Value>)
    requires Answered(g, rds, res) && Answered(g, rds, res')
    ensures res == res'
  {
    if g.avail > 0 {
      var p: nat :| AnsweredAt(g, rds, res, p);
      var p': nat :| AnsweredAt(g, rds, res', p');
      OneEnd(g, rds, res, p, res', p');
      OneEnd(g, rds, res', p', res, p);
      SameAnswer(g, rds, res, res', p);
    }
  }

  lemma OneEnd(g: Goal, rds: seq<Read>, res: Option<Value>, p: nat, res': Option<Value>, p': nat)
    requires AnsweredAt(g, rds, res, p) && AnsweredAt(g, rds, res', p')
    ensures p' <= p
  {
  }

  lemma SameAnswer(g: Goal, rds: seq<Read>, res: Option<Value>, res': Option<Value>, p: nat)
    requires AnsweredAt(g, rds, res, p) && AnsweredAt(g, rds, res', p)
    ensures res == res'
  {
    assert !(IsProbe(g, rds, p) && IsFinal(g, rds, p));
    if res.Some? && res'.Some? && !(rds[p].elem.Some? && IsProbe(g, rds, p)) {
      var from := if rds[p].elem.None? then p + 1 else p;
      SameNearest(g, rds, from, res.value, res'.value);
    }
  }

  lemma SameNearest(g: Goal, rds: seq<Read>, from: nat, e: Value, e': Value)
    requires FirstNearest(g, rds, from, e) && FirstNearest(g, rds, from, e')
    ensures e == e'
  {
    var q: nat :| from <= q && NewMinimum(g, rds, from, q, e);
    var q': nat :| from <= q' && NewMinimum(g, rds, from, q', e');
    assert g.Diff(e) <= g.Diff(e') <= g.Diff(e);
  }
}
