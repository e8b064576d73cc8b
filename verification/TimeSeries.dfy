/** Key-based search over a cyclic buffer that a writer keeps filling. Each method follows the walk of
    `SearchSpec` or `InterpolationSpec`, read by read, and returns the log of its reads. */
module TimeSeries {
  import opened Bits
  import opened Options
  import opened RingSafety
  import opened RingReader
  import opened SearchSpec
  import opened InterpolationSpec
  import opened SearchAnswer
  import opened PairAnswer

  /** How the loop of `find_closest` ends. */
  datatype Outcome = Exact(elem: Value) | ProbeFailed | At(lo: nat)

  class TimeSeries {
    const reader: CyclicBufferReader
    const key: Value -> nat
    const keyMax: nat

    ghost predicate Valid()
      reads this, reader
    {
      reader.Valid()
    }

    constructor (reader: CyclicBufferReader, key: Value -> nat, keyMax: nat)
      requires reader.Valid()
      ensures Valid() && this.reader == reader && this.key == key && this.keyMax == keyMax
    {
      this.reader := reader;
      this.key := key;
      this.keyMax := keyMax;
    }

    /** The goal g is a query of this series. */
    ghost predicate Aims(g: Goal, target: nat, avail: nat) {
      g.key == key && g.keyMax == keyMax && g.target == target && g.avail == avail
    }

    /** One `try_get` of a query. */
    method Get(r: nat, avail: nat, ghost w0: nat, ghost rds0: seq<Read>)
      returns (elem: Option<Value>, ghost rd: Read)
      requires Valid() && Logged(reader.View(), w0, avail, rds0) && r < avail
      modifies reader`mem
      ensures Valid() && Grows(old(reader.View()), reader.View())
      ensures rd.r == r && rd.elem == elem && Logged(reader.View(), w0, avail, rds0 + [rd])
    {
      hide Sane, ViewOf, ReadOf, Room, OnTarget;
      ghost var was := reader.View();
      elem, rd := reader.TryGet(r);
      LogOn(was, reader.View(), w0, avail, rds0, rd);
    }

    /** The bisection over reverse indices. */
    method Bisect(target: nat, avail: nat, ghost w0: nat, ghost g: Goal)
      returns (out: Outcome, ghost rds: seq<Read>)
      requires Valid() && Logged(reader.View(), w0, avail, []) && avail > 0 && Aims(g, target, avail)
      modifies reader`mem
      ensures Valid() && Grows(old(reader.View()), reader.View()) && Logged(reader.View(), w0, avail, rds)
      ensures var st := Walk(g, Start(g), rds);
              match out
              case Exact(elem) => st.Done? && st.path == Fast && st.found == Some(elem) && key(elem) == target
              case ProbeFailed => st == Scan(g, LoopFallback, 0, None, keyMax, 0, |rds|)
              case At(lo) => st.AtLo? && st.lo == lo < avail
    {
      ghost var start := reader.View();
      Standing(start);
      var lo: nat, high: nat := 0, avail - 1;
      rds := [];
      ghost var st := Start(g);
      hide Sane, ViewOf, Logged, Grows, Walk, Mid;
      while lo < high
        invariant Valid() && Grows(start, reader.View()) && Logged(reader.View(), w0, avail, rds)
        invariant lo < avail && high < avail && st == Walk(g, Start(g), rds)
        invariant if lo < high then st.Probing? && st.lo == lo && st.high == high else st.AtLo? && st.lo == lo
      {
        var mid: nat := Mid(lo, high);
        MidIn(lo, high);
        ghost var was := reader.View();
        var elem;
        ghost var rd;
        elem, rd := Get(mid, avail, w0, rds);
        Onward(start, was, reader.View());
        WalkOn(g, Start(g), rds, rd);
        st := Advance(g, st, rd, |rds|);
        rds := rds + [rd];
        if elem.None? {
          return ProbeFailed, rds;
        }
        var midKey := key(elem.value);
        if midKey > target {
          lo := mid + 1;
        } else if midKey < target {
          if mid == 0 {
            break;
          }
          high := mid - 1;
        } else {
          return Exact(elem.value), rds;
        }
      }
      out := At(lo);
    }

    /** The fallback scan. Its running distance starts at the key maximum, so an element that far
        away is never taken. */
    method FindClosestLinear(target: nat, avail: nat, maxDistance: Option<nat>,
                             ghost w0: nat, ghost g: Goal, ghost st0: State, ghost path: Path, ghost rds0: seq<Read>)
      returns (res: Option<Value>, ghost rds: seq<Read>)
      requires Valid() && Logged(reader.View(), w0, avail, rds0) && Aims(g, target, avail)
      requires Walk(g, st0, rds0) == Scan(g, path, 0, None, keyMax, 0, |rds0|)
      modifies reader`mem
      ensures Valid() && Grows(old(reader.View()), reader.View()) && Logged(reader.View(), w0, avail, rds)
      ensures var st := Walk(g, st0, rds); st.Done? && st.path == path && res == Limited(g, maxDistance, st.found)
    {
      ghost var start := reader.View();
      Standing(start);
      hide Sane, ViewOf, Logged, Grows, Walk, Scan;
      var best: Option<Value>, bestDiff: nat := None, keyMax;
      rds := rds0;
      ghost var n := 0;
      for i := 0 to avail
        invariant Valid() && Grows(start, reader.View()) && Logged(reader.View(), w0, avail, rds)
        invariant Walk(g, st0, rds) == Scan(g, path, i, best, bestDiff, n, |rds0|)
        invariant best.Some? ==> bestDiff == g.Diff(best.value)
      {
        ghost var was := reader.View();
        var elem;
        ghost var rd;
        elem, rd := Get(i, avail, w0, rds);
        Onward(start, was, reader.View());
        WalkOn(g, st0, rds, rd);
        ScanOn(g, path, i, best, bestDiff, n, |rds0|, rd, |rds|);
        rds := rds + [rd];
        if elem.Some? {
          var d := KeyDiff(key(elem.value), target);
          if d < bestDiff {
            best, bestDiff, n := elem, d, rd.n;
          }
        }
      }
      EndScan(g, path, best, bestDiff, n, |rds0|);
      res := best;
      if best.Some? && maxDistance.Some? && bestDiff > maxDistance.value {
        res := None;
      }
    }

    /** The element at reverse index r, if it is closer than the one at hand. */
    method Improve(target: nat, r: nat, avail: nat, elem: Value, ghost w0: nat, ghost g: Goal, ghost rds0: seq<Read>)
      returns (best: Value, ghost rd: Read)
      requires Valid() && Logged(reader.View(), w0, avail, rds0) && r < avail && Aims(g, target, avail)
      modifies reader`mem
      ensures Valid() && Grows(old(reader.View()), reader.View()) && Logged(reader.View(), w0, avail, rds0 + [rd])
      ensures rd.r == r && best == if Nearer(g, rd, g.Diff(elem)) then rd.elem.value else elem
    {
      var near;
      near, rd := Get(r, avail, w0, rds0);
      best := elem;
      if near.Some? {
        var d := KeyDiff(key(near.value), target);
        if d < KeyDiff(key(elem), target) {
          best := near.value;
        }
      }
    }

    /** From the end of the bisection on: read `lo`, repair, and apply the distance limit. */
    method CheckAround(target: nat, avail: nat, maxDistance: Option<nat>, lo: nat, ghost w0: nat, ghost g: Goal, ghost rds0: seq<Read>)
      returns (res: Option<Value>, ghost rds: seq<Read>)
      requires Valid() && Logged(reader.View(), w0, avail, rds0) && Aims(g, target, avail) && g.limit == maxDistance
      requires Walk(g, Start(g), rds0).AtLo? && Walk(g, Start(g), rds0).lo == lo < avail
      modifies reader`mem
      ensures Valid() && Grows(old(reader.View()), reader.View()) && Logged(reader.View(), w0, avail, rds)
      ensures Walk(g, Start(g), rds).Done? && res == Result(g, Walk(g, Start(g), rds))
    {
      hide Sane, ViewOf, Logged, Grows, Walk;
      ghost var start := reader.View();
      var elem;
      ghost var rd;
      elem, rd := Get(lo, avail, w0, rds0);
      WalkOn(g, Start(g), rds0, rd);
      rds := rds0 + [rd];
      ghost var was := reader.View();
      if elem.None? {
        res, rds := FindClosestLinear(target, avail, None, w0, g, Start(g), FinalFallback, rds);
        Onward(start, was, reader.View());
        return;
      }
      var best := elem.value;
      if lo > 0 {
        best, rd := Improve(target, lo - 1, avail, best, w0, g, rds);
        Onward(start, was, reader.View());
        WalkOn(g, Start(g), rds, rd);
        rds := rds + [rd];
        was := reader.View();
      }
      if lo + 1 < avail {
        best, rd := Improve(target, lo + 1, avail, best, w0, g, rds);
        Onward(start, was, reader.View());
        WalkOn(g, Start(g), rds, rd);
        rds := rds + [rd];
      }
      res := Some(best);
      if maxDistance.Some? && KeyDiff(key(best), target) > maxDistance.value {
        res := None;
      }
    }

    /** `find_closest` once the number of available elements is known. */
    method Search(target: nat, avail: nat, maxDistance: Option<nat>, ghost w0: nat, ghost g: Goal)
      returns (res: Option<Value>, ghost rds: seq<Read>)
      requires Valid() && Logged(reader.View(), w0, avail, []) && Aims(g, target, avail) && g.limit == maxDistance
      modifies reader`mem
      ensures Valid() && Grows(old(reader.View()), reader.View()) && Logged(reader.View(), w0, avail, rds)
      ensures Walk(g, Start(g), rds).Done? && res == Result(g, Walk(g, Start(g), rds))
    {
      ghost var start := reader.View();
      Standing(start);
      if avail == 0 {
        return None, [];
      }
      hide Sane, ViewOf, Logged, Grows, Walk;
      var out;
      out, rds := Bisect(target, avail, w0, g);
      ghost var was := reader.View();
      match out {
        case Exact(elem) =>
          res := Some(elem);
        case ProbeFailed =>
          res, rds := FindClosestLinear(target, avail, maxDistance, w0, g, Start(g), LoopFallback, rds);
          Onward(start, was, reader.View());
        case At(lo) =>
          res, rds := CheckAround(target, avail, maxDistance, lo, w0, g, rds);
          Onward(start, was, reader.View());
      }
    }

    /** The query that `find_closest(target, maxDistance)` becomes once `avail` is known. */
    ghost function Aim(target: nat, maxDistance: Option<nat>, avail: nat): Goal {
      Goal(key, target, keyMax, maxDistance, avail)
    }

    /** `find_closest`, with the count and the number of elements it began with and the log of its reads. */
    method FindClosest(target: nat, maxDistance: Option<nat>)
      returns (res: Option<Value>, ghost w0: nat, ghost avail: nat, ghost rds: seq<Read>)
      requires Valid()
      modifies reader`mem
      ensures Valid() && Grows(old(reader.View()), reader.View())
      ensures old(reader.View()).counted <= w0 <= reader.View().counted
      ensures avail == if w0 < reader.View().cap then w0 else reader.View().cap
      // the reads are those of the walk, and the result is the walk's
      ensures Query(reader.View(), Aim(target, maxDistance, avail), w0, rds)
      ensures res == Result(Aim(target, maxDistance, avail), WalkOf(Aim(target, maxDistance, avail), rds))
      // what is returned, said of the reads alone
      ensures Answered(Aim(target, maxDistance, avail), rds, res)
      // cost, whatever the writer does
      ensures forall q :: 0 <= q < |rds| ==> rds[q].attempts <= 5
      ensures |rds| <= Log2(avail) + if WalkOf(Aim(target, maxDistance, avail), rds).path == Fast then 3 else 1 + avail
      // while fewer than 2^31 inserts begin: a genuine element no older than the starting window
      ensures |reader.View().hist| - old(reader.View()).counted < HALF && res.Some? ==>
                Genuine(reader.View(), w0, avail, WalkOf(Aim(target, maxDistance, avail), rds).n, res.value)
      // while the starting window stays in the buffer: nothing fails, nothing is lapped
      ensures |reader.View().hist| <= w0 - avail + reader.View().cap ==> Unlapped(rds)
      // and while nothing is lapped: the error is bounded
      ensures Unlapped(rds) ==> WalkOf(Aim(target, maxDistance, avail), rds).path == Fast
      ensures Unlapped(rds) && res.Some? ==>
                var n := WalkOf(Aim(target, maxDistance, avail), rds).n;
                && Genuine(reader.View(), w0, avail, n, res.value)
                && BoundedError(reader.View(), Aim(target, maxDistance, avail), w0, n)
      // on a sorted window with nothing published meanwhile: optimal
      ensures Unlapped(rds) && reader.View().counted == old(reader.View()).counted && Sorted(reader.View().hist, key, w0 - avail, w0) ==>
                match res
                case Some(e) =>
                  var n := WalkOf(Aim(target, maxDistance, avail), rds).n;
                  && Closest(reader.View(), Aim(target, maxDistance, avail), w0 - avail, w0, n) && e == reader.View().hist[n]
                  && (maxDistance.Some? ==> KeyDiff(key(e), target) <= maxDistance.value)
                case None =>
                  w0 == 0 || (maxDistance.Some? && forall j :: w0 - avail <= j < w0 ==>
                                                                 Distance(reader.View(), Aim(target, maxDistance, avail), j) > maxDistance.value)
    {
      hide Sane, ViewOf, Logged, Grows, Walk, Sorted, Unlapped, Genuine, BoundedError, Closest, Log2, Answered;
      ghost var begin := reader.View();
      var available;
      available, w0 := reader.Available();
      avail := available;
      ghost var g := Aim(target, maxDistance, avail);
      ghost var v0 := reader.View();
      Fresh(v0, w0, avail);
      res, rds := Search(target, available, maxDistance, w0, g);
      Onward(begin, v0, reader.View());
      Conclude(begin, v0, reader.View(), g, w0, rds);
      QueryAnswered(g, rds);
    }

    /** One element of the scan: it may be the nearest so far on either side of the target, or on both. */
    method Consider(target: nat, elem: Value, before0: Option<Value>, beforeDiff0: nat, ghost b0: int,
                    after0: Option<Value>, afterDiff0: nat, ghost a0: int, ghost g: Goal, ghost rd: Read)
      returns (beforeElem: Option<Value>, beforeDiff: nat, ghost b: int, afterElem: Option<Value>, afterDiff: nat, ghost a: int)
      requires g.key == key && g.target == target && rd.elem == Some(elem)
      ensures Side(beforeElem, beforeDiff, b) == Take(g, true, Side(before0, beforeDiff0, b0), rd)
      ensures Side(afterElem, afterDiff, a) == Take(g, false, Side(after0, afterDiff0, a0), rd)
    {
      beforeElem, beforeDiff, b := before0, beforeDiff0, b0;
      afterElem, afterDiff, a := after0, afterDiff0, a0;
      var k := key(elem);
      if k <= target {
        var d := target - k;
        if d < beforeDiff {
          beforeElem, beforeDiff, b := Some(elem), d, rd.n;
        }
      }
      if k >= target {
        var d := k - target;
        if d < afterDiff {
          afterElem, afterDiff, a := Some(elem), d, rd.n;
        }
      }
    }

    /** The fallback scan for a pair: the nearest element on either side of the target. */
    method FindInterpolationPairLinear(target: nat, avail: nat, ghost w0: nat, ghost g: Goal, ghost st0: PairState, ghost rds0: seq<Read>)
      returns (res: Option<InterpPair>, ghost rds: seq<Read>)
      requires Valid() && Logged(reader.View(), w0, avail, rds0) && Aims(g, target, avail)
      requires PairWalk(g, st0, rds0) == Fall(g, |rds0|)
      modifies reader`mem
      ensures Valid() && Grows(old(reader.View()), reader.View()) && Logged(reader.View(), w0, avail, rds)
      ensures var st := PairWalk(g, st0, rds); st.Fallen? && res == PairResult(g, st)
    {
      ghost var start := reader.View();
      Standing(start);
      hide Sane, ViewOf, Logged, Grows, PairWalk, Sweep, Take, Alpha;
      var beforeElem: Option<Value>, beforeDiff: nat := None, keyMax;
      var afterElem: Option<Value>, afterDiff: nat := None, keyMax;
      ghost var b, a := 0, 0;
      rds := rds0;
      for i := 0 to avail
        invariant Valid() && Grows(start, reader.View()) && Logged(reader.View(), w0, avail, rds)
        invariant PairWalk(g, st0, rds) == Sweep(g, i, Side(beforeElem, beforeDiff, b), Side(afterElem, afterDiff, a), |rds0|)
      {
        ghost var was := reader.View();
        var elem;
        ghost var rd;
        elem, rd := Get(i, avail, w0, rds);
        Onward(start, was, reader.View());
        PairWalkOn(g, st0, rds, rd);
        SweepOn(g, i, Side(beforeElem, beforeDiff, b), Side(afterElem, afterDiff, a), |rds0|, rd, |rds|);
        rds := rds + [rd];
        if elem.None? {
          Takes(g, Side(beforeElem, beforeDiff, b), Side(afterElem, afterDiff, a), rd);
          continue;
        }
        beforeElem, beforeDiff, b, afterElem, afterDiff, a :=
          Consider(target, elem.value, beforeElem, beforeDiff, b, afterElem, afterDiff, a, g, rd);
      }
      EndSweep(g, Side(beforeElem, beforeDiff, b), Side(afterElem, afterDiff, a), |rds0|);
      if beforeElem.None? || afterElem.None? {
        return None, rds;
      }
      res := Some(InterpPair(beforeElem.value, afterElem.value, Alpha(target, key(beforeElem.value), key(afterElem.value), keyMax)));
    }

    /** The bisection for a bracketing pair: stops at two neighbouring reverse indices, or at a
        failed probe. */
    method BisectPair(target: nat, avail: nat, ghost w0: nat, ghost g: Goal, ghost rds0: seq<Read>)
      returns (ok: bool, lo: nat, hi: nat, ghost rds: seq<Read>)
      requires Valid() && Logged(reader.View(), w0, avail, rds0) && Aims(g, target, avail) && avail >= 2
      requires var st := PairWalk(g, PairStart(g), rds0);
               (st.Halving? || st.AtAfter?) && st == Halve(0, avail - 1, st.above, st.below)
      modifies reader`mem
      ensures Valid() && Grows(old(reader.View()), reader.View()) && Logged(reader.View(), w0, avail, rds)
      ensures var st := PairWalk(g, PairStart(g), rds);
              if ok then st.AtAfter? && st.lo == lo && st.hi == hi && lo < hi < avail else st == Fall(g, |rds|)
    {
      ghost var start := reader.View();
      Standing(start);
      lo, hi, rds := 0, avail - 1, rds0;
      ghost var st := PairWalk(g, PairStart(g), rds0);
      hide Sane, ViewOf, Logged, Grows, PairWalk, Mid, Fall;
      while lo + 1 < hi
        invariant Valid() && Grows(start, reader.View()) && Logged(reader.View(), w0, avail, rds)
        invariant lo < hi < avail && st == PairWalk(g, PairStart(g), rds)
        invariant (st.Halving? || st.AtAfter?) && st == Halve(lo, hi, st.above, st.below)
        decreases hi - lo
      {
        var mid := Mid(lo, hi);
        StepsHalve(lo, hi);
        ghost var was := reader.View();
        var elem;
        ghost var rd;
        elem, rd := Get(mid, avail, w0, rds);
        Onward(start, was, reader.View());
        PairWalkOn(g, PairStart(g), rds, rd);
        st := PairAdvance(g, st, rd, |rds|);
        rds := rds + [rd];
        if elem.None? {
          return false, lo, hi, rds;
        }
        var midKey := key(elem.value);
        if midKey > target {
          lo := mid;
        } else {
          hi := mid;
        }
      }
      ok := true;
    }

    /** `find_interpolation_pair` once at least two elements are available. */
    method SearchPair(target: nat, avail: nat, ghost w0: nat, ghost g: Goal)
      returns (res: Option<InterpPair>, ghost rds: seq<Read>)
      requires Valid() && Logged(reader.View(), w0, avail, []) && Aims(g, target, avail) && avail >= 2
      modifies reader`mem
      ensures Valid() && Grows(old(reader.View()), reader.View()) && Logged(reader.View(), w0, avail, rds)
      ensures var st := PairWalk(g, PairStart(g), rds); Finished(st) && res == PairResult(g, st)
    {
      hide Sane, ViewOf, Logged, Grows, PairWalk;
      ghost var start := reader.View();
      PairWalkNone(g);
      var newest;
      ghost var rd;
      newest, rd := Get(0, avail, w0, []);
      rds := [] + [rd];
      PairWalkOn(g, PairStart(g), [], rd);
      ghost var was := reader.View();
      var oldest;
      oldest, rd := Get(avail - 1, avail, w0, rds);
      Onward(start, was, reader.View());
      PairWalkOn(g, PairStart(g), rds, rd);
      rds := rds + [rd];
      if newest.None? || oldest.None? {
        return None, rds;
      }
      var newestKey, oldestKey := key(newest.value), key(oldest.value);
      if target > newestKey || target < oldestKey {
        return None, rds;
      }
      if target == newestKey {
        return Some(InterpPair(newest.value, newest.value, 0.0)), rds;
      }
      if target == oldestKey {
        return Some(InterpPair(oldest.value, oldest.value, 0.0)), rds;
      }
      was := reader.View();
      res, rds := BetweenEnds(target, avail, w0, g, rds);
      Onward(start, was, reader.View());
    }

    /** The interior case: bisect, then read the two neighbours again. */
    method BetweenEnds(target: nat, avail: nat, ghost w0: nat, ghost g: Goal, ghost rds0: seq<Read>)
      returns (res: Option<InterpPair>, ghost rds: seq<Read>)
      requires Valid() && Logged(reader.View(), w0, avail, rds0) && Aims(g, target, avail) && avail >= 2
      requires var st := PairWalk(g, PairStart(g), rds0);
               (st.Halving? || st.AtAfter?) && st == Halve(0, avail - 1, st.above, st.below)
      modifies reader`mem
      ensures Valid() && Grows(old(reader.View()), reader.View()) && Logged(reader.View(), w0, avail, rds)
      ensures var st := PairWalk(g, PairStart(g), rds); Finished(st) && res == PairResult(g, st)
    {
      hide Sane, ViewOf, Logged, Grows, PairWalk, Fall;
      ghost var start := reader.View();
      var ok, lo, hi;
      ok, lo, hi, rds := BisectPair(target, avail, w0, g, rds0);
      ghost var was := reader.View();
      if !ok {
        res, rds := FindInterpolationPairLinear(target, avail, w0, g, PairStart(g), rds);
        Onward(start, was, reader.View());
        return;
      }
      var afterElem, beforeElem;
      ghost var rd;
      afterElem, rd := Get(lo, avail, w0, rds);
      Onward(start, was, reader.View());
      PairWalkOn(g, PairStart(g), rds, rd);
      rds := rds + [rd];
      was := reader.View();
      beforeElem, rd := Get(hi, avail, w0, rds);
      Onward(start, was, reader.View());
      PairWalkOn(g, PairStart(g), rds, rd);
      rds := rds + [rd];
      if afterElem.None? || beforeElem.None? {
        return None, rds;
      }
      var afterKey, beforeKey := key(afterElem.value), key(beforeElem.value);
      if afterKey == beforeKey {
        return Some(InterpPair(beforeElem.value, afterElem.value, 0.0)), rds;
      }
      res := Some(InterpPair(beforeElem.value, afterElem.value, Alpha(target, beforeKey, afterKey, keyMax)));
    }

    /** `find_interpolation_pair`, with the count and the number of elements it began with and the log of
        its reads. */
    method FindInterpolationPair(target: nat)
      returns (res: Option<InterpPair>, ghost w0: nat, ghost avail: nat, ghost rds: seq<Read>)
      requires Valid()
      modifies reader`mem
      ensures Valid() && Grows(old(reader.View()), reader.View())
      ensures old(reader.View()).counted <= w0 <= reader.View().counted
      ensures avail == if w0 < reader.View().cap then w0 else reader.View().cap
      // the reads are those of the walk, and the result is the walk's
      ensures PairQuery(reader.View(), Aim(target, None, avail), w0, rds)
      ensures res == PairResult(Aim(target, None, avail), PairWalkOf(Aim(target, None, avail), rds))
      // what is returned, said of the reads alone
      ensures PairAnswered(Aim(target, None, avail), rds, res)
      // cost, whatever the writer does
      ensures forall q :: 0 <= q < |rds| ==> rds[q].attempts <= 5
      ensures |rds| <= Log2(avail) + if PairWalkOf(Aim(target, None, avail), rds).Ended? then 5 else 3 + avail
      // while fewer than 2^31 inserts begin: genuine elements no older than the starting window
      ensures |reader.View().hist| - old(reader.View()).counted < HALF && res.Some? ==>
                var n := Numbers(PairWalkOf(Aim(target, None, avail), rds));
                && Genuine(reader.View(), w0, avail, n.0, res.value.before)
                && Genuine(reader.View(), w0, avail, n.1, res.value.after)
      // while the starting window stays in the buffer: nothing fails, nothing is lapped
      ensures |reader.View().hist| <= w0 - avail + reader.View().cap ==> Unlapped(rds)
      // and while nothing is lapped: both elements lie near the first one above the target
      ensures Unlapped(rds) && res.Some? ==>
                var n := Numbers(PairWalkOf(Aim(target, None, avail), rds));
                Drift(reader.View(), Aim(target, None, avail), w0, res.value, n.0, n.1)
      // on strictly increasing keys with nothing published meanwhile: a bracketing pair,
      // exactly when there is one
      ensures Unlapped(rds) && reader.View().counted == old(reader.View()).counted && KeysFit(Aim(target, None, avail))
              && Increasing(reader.View().hist, key, w0 - avail, w0) ==>
                && (res.Some? <==> avail >= 2 && InRange(reader.View(), Aim(target, None, avail), w0 - avail, w0))
                && (res.Some? ==>
                      var n := Numbers(PairWalkOf(Aim(target, None, avail), rds));
                      Bracket(reader.View(), Aim(target, None, avail), w0 - avail, w0, n.0, n.1, res.value))
    {
      hide Sane, ViewOf, Logged, Grows, PairWalk, Increasing, Unlapped, Genuine, Drift, Bracket, InRange, Log2, KeysFit, PairAnswered;
      ghost var begin := reader.View();
      var available;
      available, w0 := reader.Available();
      avail := available;
      ghost var g := Aim(target, None, avail);
      ghost var v0 := reader.View();
      Fresh(v0, w0, avail);
      PairWalkNone(g);
      if available < 2 {
        res, rds := None, [];
        Standing(v0);
      } else {
        res, rds := SearchPair(target, available, w0, g);
      }
      Onward(begin, v0, reader.View());
      ConcludePair(begin, v0, reader.View(), g, w0, rds);
      PairQueryAnswered(g, rds);
    }
  }

  ghost function WalkOf(g: Goal, rds: seq<Read>): State {
    Walk(g, Start(g), rds)
  }

  lemma Fresh(v: View, w0: nat, avail: nat)
    requires w0 == v.counted <= |v.hist| && avail <= w0 && avail <= v.cap
    ensures Logged(v, w0, avail, [])
  {
  }

  /** All that `SearchSpec` says of a query. */
  lemma Conclude(begin: View, v0: View, v: View, g: Goal, w0: nat, rds: seq<Read>)
    requires Query(v, g, w0, rds) && Grows(begin, v0) && Grows(v0, v) && w0 == v0.counted
    requires g.avail == if w0 < v.cap then w0 else v.cap
    ensures begin.counted <= w0 <= v.counted && g.avail <= w0
    ensures forall q :: 0 <= q < |rds| ==> rds[q].attempts <= 5
    ensures |rds| <= Log2(g.avail) + if WalkOf(g, rds).path == Fast then 3 else 1 + g.avail
    ensures |v.hist| - begin.counted < HALF && Result(g, WalkOf(g, rds)).Some? ==>
              Genuine(v, w0, g.avail, WalkOf(g, rds).n, Result(g, WalkOf(g, rds)).value)
    ensures |v.hist| <= w0 - g.avail + v.cap ==> Unlapped(rds)
    ensures Unlapped(rds) ==> WalkOf(g, rds).path == Fast
    ensures Unlapped(rds) && Result(g, WalkOf(g, rds)).Some? ==>
              && Genuine(v, w0, g.avail, WalkOf(g, rds).n, Result(g, WalkOf(g, rds)).value)
              && BoundedError(v, g, w0, WalkOf(g, rds).n)
    ensures v.counted == begin.counted ==> w0 == v.counted
    ensures Unlapped(rds) && v.counted == begin.counted && Sorted(v.hist, g.key, w0 - g.avail, w0) ==>
              match Result(g, WalkOf(g, rds))
              case Some(e) =>
                var n := WalkOf(g, rds).n;
                && Closest(v, g, w0 - g.avail, w0, n) && e == v.hist[n]
                && (g.limit.Some? ==> g.Diff(e) <= g.limit.value)
              case None =>
                g.avail == 0 || (g.limit.Some? && forall j :: w0 - g.avail <= j < w0 ==> Distance(v, g, j) > g.limit.value)
  {
    hide Walk, Sorted, Unlapped, Genuine, BoundedError, Closest, Log2;
    QueryCost(v, g, w0, rds);
    if |v.hist| - begin.counted < HALF {
      QueryGenuine(v, g, w0, rds);
    }
    if |v.hist| <= w0 - g.avail + v.cap {
      WindowIsUnlapped(v, w0, g.avail, rds);
    }
    if Unlapped(rds) {
      QueryBounded(v, g, w0, rds);
    }
    if Unlapped(rds) && v.counted == begin.counted && Sorted(v.hist, g.key, w0 - g.avail, w0) {
      QueryOptimal(v, g, w0, rds);
    }
  }

  ghost function PairWalkOf(g: Goal, rds: seq<Read>): PairState {
    PairWalk(g, PairStart(g), rds)
  }

  lemma PairWalkNone(g: Goal)
    ensures PairWalk(g, PairStart(g), []) == PairStart(g)
  {
  }

  /** All that `InterpolationSpec` says of a query. */
  lemma ConcludePair(begin: View, v0: View, v: View, g: Goal, w0: nat, rds: seq<Read>)
    requires PairQuery(v, g, w0, rds) && Grows(begin, v0) && Grows(v0, v) && w0 == v0.counted
    ensures begin.counted <= w0 <= v.counted && g.avail <= w0
    ensures forall q :: 0 <= q < |rds| ==> rds[q].attempts <= 5
    ensures |rds| <= Log2(g.avail) + if PairWalkOf(g, rds).Ended? then 5 else 3 + g.avail
    ensures var res, n := PairResult(g, PairWalkOf(g, rds)), Numbers(PairWalkOf(g, rds));
            && (|v.hist| - begin.counted < HALF && res.Some? ==>
                  Genuine(v, w0, g.avail, n.0, res.value.before) && Genuine(v, w0, g.avail, n.1, res.value.after))
            && (|v.hist| <= w0 - g.avail + v.cap ==> Unlapped(rds))
            && (Unlapped(rds) && res.Some? ==> Drift(v, g, w0, res.value, n.0, n.1))
            && (Unlapped(rds) && v.counted == begin.counted && KeysFit(g) && Increasing(v.hist, g.key, w0 - g.avail, w0) ==>
                  && (res.Some? <==> g.avail >= 2 && InRange(v, g, w0 - g.avail, w0))
                  && (res.Some? ==> Bracket(v, g, w0 - g.avail, w0, n.0, n.1, res.value)))
  {
    hide PairWalk, Increasing, Unlapped, Genuine, Drift, Bracket, InRange, Log2, KeysFit;
    PairCost(v, g, w0, rds);
    if |v.hist| - begin.counted < HALF {
      PairGenuine(v, g, w0, rds);
    }
    if |v.hist| <= w0 - g.avail + v.cap {
      WindowIsUnlapped(v, w0, g.avail, rds);
    }
    if Unlapped(rds) {
      PairDrift(v, g, w0, rds);
    }
    if Unlapped(rds) && v.counted == begin.counted && KeysFit(g) && Increasing(v.hist, g.key, w0 - g.avail, w0) {
      PairOptimal(v, g, w0, rds);
    }
  }
}
