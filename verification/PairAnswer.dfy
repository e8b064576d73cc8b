/** What `find_interpolation_pair` returns, said of its log alone: which reads a query makes, and which of
    their answers it pairs. */
module PairAnswer {
  import opened Bits
  import opened Options
  import opened RingReader
  import opened SearchSpec
  import opened InterpolationSpec
  import opened SearchAnswer

  /** A probe moves the end of the range on its side of the target. */
  function Moved(g: Goal, left: Indices, rd: Read): Indices {
    if rd.elem.None? then left
    else if g.key(rd.elem.value) > g.target then left.(lo := rd.r) else left.(hi := rd.r)
  }

  /** What the reads after the first two, those of the two ends, leave. */
  function PairRange(g: Goal, rds: seq<Read>): Indices {
    if |rds| <= 2 then Indices(0, g.avail - 1)
    else Moved(g, PairRange(g, rds[..|rds| - 1]), rds[|rds| - 1])
  }

  predicate IsPairProbe(g: Goal, rds: seq<Read>, q: nat)
    requires q < |rds|
  {
    var left := PairRange(g, rds[..q]);
    0 <= left.lo && left.lo + 1 < left.hi && rds[q].r == left.lo + (left.hi - left.lo) / 2
  }

  /** The first two reads are those of the newest and of the oldest element. */
  predicate ReadsEnds(g: Goal, rds: seq<Read>) {
    |rds| >= 2 && rds[0].r == 0 && rds[1].r == g.avail - 1
  }

  /** Both succeeded, and the target lies strictly between them. */
  predicate EndsEnclose(g: Goal, rds: seq<Read>) {
    && ReadsEnds(g, rds) && rds[0].elem.Some? && rds[1].elem.Some?
    && g.key(rds[1].elem.value) < g.target < g.key(rds[0].elem.value)
  }

  /** After the ends, the reads up to p are probes that found an element. */
  ghost predicate PairBisecting(g: Goal, rds: seq<Read>, p: nat) {
    && 2 <= p <= |rds| && EndsEnclose(g, rds)
    && forall q :: 2 <= q < p ==> IsPairProbe(g, rds, q) && rds[q].elem.Some?
  }

  /** The answer is an element on the given side of the target, nearer than the key maximum. */
  predicate Candidate(g: Goal, below: bool, rd: Read) {
    rd.elem.Some? && OnSide(below, g.key(rd.elem.value), g.target) && g.Diff(rd.elem.value) < g.keyMax
  }

  /** Read q is the first candidate from `from` on, or strictly nearer than all before it. */
  ghost predicate SideMinimum(g: Goal, below: bool, rds: seq<Read>, from: nat, q: nat, e: Value) {
    && q < |rds| && rds[q].elem == Some(e) && Candidate(g, below, rds[q])
    && forall j :: from <= j < q && Candidate(g, below, rds[j]) ==> g.Diff(e) < g.Diff(rds[j].elem.value)
  }

  /** Nothing exactly if no read from `from` on is a candidate, and otherwise the first of the nearest. */
  ghost predicate SidePicks(g: Goal, below: bool, rds: seq<Read>, from: nat, e: Option<Value>) {
    && (e.None? <==> forall q :: from <= q < |rds| ==> !Candidate(g, below, rds[q]))
    && (e.Some? ==>
          && (forall q :: from <= q < |rds| && Candidate(g, below, rds[q]) ==> g.Diff(e.value) <= g.Diff(rds[q].elem.value))
          && exists q: nat :: from <= q && SideMinimum(g, below, rds, from, q, e.value))
  }

  ghost predicate SweptPair(g: Goal, rds: seq<Read>, from: nat, before: Option<Value>, after: Option<Value>) {
    Sweeps(g, rds, from) && SidePicks(g, true, rds, from, before) && SidePicks(g, false, rds, from, after)
  }

  /** The loop ends at read p: with a failed probe, after which all elements are scanned, and the nearest on
      either side are paired; or with two neighbouring indices, which are read, newer first, and paired. */
  ghost predicate PairedAt(g: Goal, rds: seq<Read>, res: Option<InterpPair>, p: nat) {
    && PairBisecting(g, rds, p) && p < |rds|
    && if IsPairProbe(g, rds, p) then
         && rds[p].elem.None?
         && exists before, after :: SweptPair(g, rds, p + 1, before, after) && res == Joined(g, before, after)
       else
         var left := PairRange(g, rds[..p]);
         && left.lo + 1 >= left.hi && |rds| == p + 2 && rds[p].r == left.lo && rds[p + 1].r == left.hi
         && res == Joined(g, rds[p + 1].elem, rds[p].elem)
  }

  /** Either end read failed, the target is outside, or it is the key of an end. */
  ghost predicate EndsDecide(g: Goal, rds: seq<Read>, res: Option<InterpPair>) {
    && ReadsEnds(g, rds) && |rds| == 2
    && var newest, oldest := rds[0].elem, rds[1].elem;
    if newest.None? || oldest.None? || g.target > g.key(newest.value) || g.target < g.key(oldest.value) then res == None
    else if g.target == g.key(newest.value) then res == Some(InterpPair(newest.value, newest.value, 0.0))
    else g.target == g.key(oldest.value) && res == Some(InterpPair(oldest.value, oldest.value, 0.0))
  }

  ghost predicate PairAnswered(g: Goal, rds: seq<Read>, res: Option<InterpPair>) {
    if g.avail < 2 then rds == [] && res == None
    else EndsDecide(g, rds, res) || exists p: nat :: PairedAt(g, rds, res, p)
  }

  // ---------------------------------------------------------------------------------------------
  // The walk answers so
  // ---------------------------------------------------------------------------------------------

  ghost predicate SideHeld(g: Goal, below: bool, rds: seq<Read>, from: nat, side: Side) {
    && side.diff <= g.keyMax
    && (forall q :: from <= q < |rds| && Candidate(g, below, rds[q]) ==> side.diff <= g.Diff(rds[q].elem.value))
    && (side.elem.None? ==> side.diff == g.keyMax)
    && (side.elem.Some? ==>
          && side.diff == g.Diff(side.elem.value)
          && exists q: nat :: from <= q && SideMinimum(g, below, rds, from, q, side.elem.value))
  }

  ghost predicate SweepsOn(g: Goal, rds: seq<Read>, i: nat, before: Side, after: Side, from: nat) {
    && 0 < from <= |rds| && PairBisecting(g, rds, from - 1) && rds[from - 1].elem.None? && IsPairProbe(g, rds, from - 1)
    && |rds| == from + i && (forall q :: from <= q < |rds| ==> rds[q].r == q - from)
    && SideHeld(g, true, rds, from, before) && SideHeld(g, false, rds, from, after)
  }

  ghost predicate PairTraced(g: Goal, rds: seq<Read>, st: PairState) {
    match st
    case Opening => rds == []
    case Closing(newest, _) => |rds| == 1 && rds[0].r == 0 && rds[0].elem == newest && g.avail >= 2
    case Halving(lo, hi, _, _) =>
      g.avail >= 2 && lo + 1 < hi && PairBisecting(g, rds, |rds|) && PairRange(g, rds) == Indices(lo, hi)
    case AtAfter(lo, hi, _, _) =>
      g.avail >= 2 && lo + 1 >= hi && PairBisecting(g, rds, |rds|) && PairRange(g, rds) == Indices(lo, hi)
    case AtBefore(lo, hi, _, _, newer, _) =>
      && g.avail >= 2 && lo + 1 >= hi && |rds| > 2 && PairBisecting(g, rds, |rds| - 1)
      && PairRange(g, rds[..|rds| - 1]) == Indices(lo, hi)
      && rds[|rds| - 1].r == lo && rds[|rds| - 1].elem == newer
    case Sweeping(i, before, after, from) => g.avail >= 2 && i < g.avail && SweepsOn(g, rds, i, before, after, from)
    case Ended(res, _, _) => PairAnswered(g, rds, res)
    case Fallen(before, after, _) => PairAnswered(g, rds, Joined(g, before.elem, after.elem))
    case Astray => true
  }

  lemma PairFront(g: Goal, rds: seq<Read>, rd: Read)
    requires |rds| >= 2
    ensures (rds + [rd])[..|rds|] == rds && PairRange(g, rds + [rd]) == Moved(g, PairRange(g, rds), rd)
  {
    hide Moved;
    assert (rds + [rd])[..|rds|] == rds;
  }

  lemma PairStays(g: Goal, rds: seq<Read>, rd: Read, p: nat)
    requires PairBisecting(g, rds, p)
    ensures PairBisecting(g, rds + [rd], p)
    ensures p < |rds| ==> (IsPairProbe(g, rds + [rd], p) <==> IsPairProbe(g, rds, p))
    ensures (rds + [rd])[..p] == rds[..p]
  {
    assert (rds + [rd])[..p] == rds[..p];
    forall q | 2 <= q < p
      ensures IsPairProbe(g, rds + [rd], q)
    {
      assert IsPairProbe(g, rds, q);
      assert (rds + [rd])[..q] == rds[..q];
    }
  }

  lemma SideOnward(g: Goal, below: bool, rds: seq<Read>, rd: Read, from: nat, side: Side)
    requires SideHeld(g, below, rds, from, side) && from <= |rds|
    ensures SideHeld(g, below, rds + [rd], from, Take(g, below, side, rd))
  {
    if Take(g, below, side, rd) != side {
      assert SideMinimum(g, below, rds + [rd], from, |rds|, rd.elem.value);
    } else if side.elem.Some? {
      var q: nat :| from <= q && SideMinimum(g, below, rds, from, q, side.elem.value);
      assert SideMinimum(g, below, rds + [rd], from, q, side.elem.value);
    }
  }

  lemma HeldPicks(g: Goal, below: bool, rds: seq<Read>, from: nat, side: Side)
    requires SideHeld(g, below, rds, from, side)
    ensures SidePicks(g, below, rds, from, side.elem)
  {
  }

  lemma EndsTraced(g: Goal, rds: seq<Read>, n: int, n': int)
    requires |rds| == 2 && ReadsEnds(g, rds) && g.avail >= 2
    ensures PairTraced(g, rds, AtEnds(g, rds[0].elem, n, rds[1].elem, n'))
  {
    var st := AtEnds(g, rds[0].elem, n, rds[1].elem, n');
    if st.Ended? {
      assert EndsDecide(g, rds, st.res);
    }
  }

  lemma HalvingTraced(g: Goal, rds: seq<Read>, st: PairState, rd: Read)
    requires PairTraced(g, rds, st) && st.Halving? && PairAsks(g, st) == Some(rd.r)
    ensures PairTraced(g, rds + [rd], PairAdvance(g, st, rd, |rds|))
  {
    PairFront(g, rds, rd);
    PairStays(g, rds, rd, |rds|);
    assert IsPairProbe(g, rds + [rd], |rds|);
    if rd.elem.None? {
      hide PairRange, IsPairProbe;
      SweepBegins(g, rds, rd);
    } else {
      hide IsPairProbe, EndsEnclose;
      assert PairBisecting(g, rds + [rd], |rds + [rd]|);
      hide PairBisecting, Mid, PairRange;
      HalveTraced(g, rds + [rd], Moved(g, Indices(st.lo, st.hi), rd), if g.key(rd.elem.value) > g.target then rd.n else st.above,
                  if g.key(rd.elem.value) > g.target then st.below else rd.n);
    }
  }

  lemma HalveTraced(g: Goal, rds: seq<Read>, left: Indices, above: int, below: int)
    requires g.avail >= 2 && PairBisecting(g, rds, |rds|) && PairRange(g, rds) == left && left.lo >= 0 && left.hi >= 0
    ensures PairTraced(g, rds, Halve(left.lo, left.hi, above, below))
  {
    hide PairBisecting, PairRange;
  }

  lemma SweepBegins(g: Goal, rds: seq<Read>, rd: Read)
    requires g.avail >= 2 && PairBisecting(g, rds + [rd], |rds|) && rd.elem.None? && IsPairProbe(g, rds + [rd], |rds|)
    ensures PairTraced(g, rds + [rd], Fall(g, |rds| + 1))
  {
  }

  lemma AfterTraced(g: Goal, rds: seq<Read>, st: PairState, rd: Read)
    requires PairTraced(g, rds, st) && st.AtAfter? && PairAsks(g, st) == Some(rd.r)
    ensures PairTraced(g, rds + [rd], PairAdvance(g, st, rd, |rds|))
  {
    PairStays(g, rds, rd, |rds|);
    RepairLast(rds, rd);
    assert (rds + [rd])[..|rds|] == rds;
    hide PairBisecting, PairRange;
  }

  lemma BeforeTraced(g: Goal, rds: seq<Read>, st: PairState, rd: Read)
    requires PairTraced(g, rds, st) && st.AtBefore? && PairAsks(g, st) == Some(rd.r)
    ensures PairTraced(g, rds + [rd], PairAdvance(g, st, rd, |rds|))
  {
    PairStays(g, rds, rd, |rds| - 1);
    var all := rds + [rd];
    assert all[..|rds| - 1] == rds[..|rds| - 1];
    assert !IsPairProbe(g, all, |rds| - 1);
    assert PairedAt(g, all, Joined(g, rd.elem, st.newer), |rds| - 1);
  }

  lemma SweepAdvances(g: Goal, st: PairState, rd: Read, at: nat)
    requires st.Sweeping? && PairAsks(g, st) == Some(rd.r)
    ensures rd.r == st.i
    ensures PairAdvance(g, st, rd, at) ==
            Sweep(g, st.i + 1, Take(g, true, st.before, rd), Take(g, false, st.after, rd), st.from)
  {
  }

  lemma SweepIsTraced(g: Goal, rds: seq<Read>, i: nat, before: Side, after: Side, from: nat)
    requires g.avail >= 2 && i <= g.avail && SweepsOn(g, rds, i, before, after, from)
    ensures PairTraced(g, rds, Sweep(g, i, before, after, from))
  {
    hide SweepsOn, PairAnswered;
    if i == g.avail {
      SweepDecides(g, rds, before, after, from);
    }
  }

  lemma SweepTraced(g: Goal, rds: seq<Read>, st: PairState, rd: Read)
    requires PairTraced(g, rds, st) && st.Sweeping? && PairAsks(g, st) == Some(rd.r)
    ensures PairTraced(g, rds + [rd], PairAdvance(g, st, rd, |rds|))
  {
    assert g.avail >= 2 && st.i < g.avail && SweepsOn(g, rds, st.i, st.before, st.after, st.from);
    SweepAdvances(g, st, rd, |rds|);
    hide SweepsOn, Take, PairTraced, PairAdvance, Sweep;
    SweepOnward(g, rds, rd, st.i, st.before, st.after, st.from);
    SweepIsTraced(g, rds + [rd], st.i + 1, Take(g, true, st.before, rd), Take(g, false, st.after, rd), st.from);
  }

  lemma SweepOnward(g: Goal, rds: seq<Read>, rd: Read, i: nat, before: Side, after: Side, from: nat)
    requires SweepsOn(g, rds, i, before, after, from) && rd.r == i
    ensures SweepsOn(g, rds + [rd], i + 1, Take(g, true, before, rd), Take(g, false, after, rd), from)
  {
    hide PairBisecting, IsPairProbe, SideHeld, Take;
    PairStays(g, rds, rd, from - 1);
    SideOnward(g, true, rds, rd, from, before);
    SideOnward(g, false, rds, rd, from, after);
  }

  lemma SweepDecides(g: Goal, rds: seq<Read>, before: Side, after: Side, from: nat)
    requires g.avail >= 2 && SweepsOn(g, rds, g.avail, before, after, from)
    ensures PairAnswered(g, rds, Joined(g, before.elem, after.elem))
  {
    HeldPicks(g, true, rds, from, before);
    HeldPicks(g, false, rds, from, after);
    assert SweptPair(g, rds, from, before.elem, after.elem);
    assert PairedAt(g, rds, Joined(g, before.elem, after.elem), from - 1);
  }

  lemma PairStepTraced(g: Goal, rds: seq<Read>, st: PairState, rd: Read)
    requires PairTraced(g, rds, st) && PairInBounds(g, st)
    ensures PairTraced(g, rds + [rd], PairAdvance(g, st, rd, |rds|))
  {
    if PairAsks(g, st) == Some(rd.r) {
      match st
      case Opening => assert rds + [rd] == [rd];
      case Closing(_, n) => EndsTraced(g, rds + [rd], n, rd.n);
      case Halving(_, _, _, _) => HalvingTraced(g, rds, st, rd);
      case AtAfter(_, _, _, _) => AfterTraced(g, rds, st, rd);
      case AtBefore(_, _, _, _, _, _) => BeforeTraced(g, rds, st, rd);
      case Sweeping(_, _, _, _) => SweepTraced(g, rds, st, rd);
    }
  }

  lemma {:induction false} PairWalkTraced(g: Goal, rds: seq<Read>)
    ensures PairTraced(g, rds, PairWalk(g, PairStart(g), rds))
    decreases rds
  {
    if rds != [] {
      var front, rd := rds[..|rds| - 1], rds[|rds| - 1];
      assert rds == front + [rd];
      PairWalkTraced(g, front);
      var st := PairWalk(g, PairStart(g), front);
      hide PairTraced, PairAdvance;
      if !st.Astray? {
        PairWalkInBounds(g, front);
        PairStepTraced(g, front, st, rd);
      } else {
        AstrayStays(g, rds, rd, |front|);
      }
    }
  }

  lemma AstrayStays(g: Goal, rds: seq<Read>, rd: Read, at: nat)
    ensures PairAdvance(g, Astray, rd, at) == Astray && PairTraced(g, rds, Astray)
  {
  }

  /** What a query returns, for every log: its reads are those of the ends and of a bisection, with the two
      neighbours or the scan that follow, and its result is made of the answers to them. */
  lemma PairQueryAnswered(g: Goal, rds: seq<Read>)
    requires Finished(PairWalk(g, PairStart(g), rds))
    ensures PairAnswered(g, rds, PairResult(g, PairWalk(g, PairStart(g), rds)))
  {
    PairWalkTraced(g, rds);
  }

  // ---------------------------------------------------------------------------------------------
  // What that means
  // ---------------------------------------------------------------------------------------------

  /** A pair of one end element with itself. */
  ghost predicate AtAnEnd(g: Goal, rds: seq<Read>, p: InterpPair) {
    && p.before == p.after && p.alpha == 0.0 && g.key(p.before) == g.target
    && |rds| >= 2 && (rds[0].elem == Some(p.before) || rds[1].elem == Some(p.before))
  }

  /** The answers of the last two reads, at neighbouring indices, after reads that all succeeded. */
  ghost predicate LastTwo(rds: seq<Read>, p: InterpPair) {
    && |rds| > 2 && (forall q :: 0 <= q < |rds| ==> rds[q].elem.Some?)
    && rds[|rds| - 1].r == rds[|rds| - 2].r + 1
    && rds[|rds| - 1].elem == Some(p.before) && rds[|rds| - 2].elem == Some(p.after)
  }

  /** A pair is never returned unless both end reads succeeded and enclose the target. It is one end element
      with itself, that has the target's key; or two neighbours just read, after no read failed; or the nearest
      on either side in a scan. */
  lemma PairIsGrounded(g: Goal, rds: seq<Read>, p: InterpPair)
    requires PairAnswered(g, rds, Some(p))
    ensures ReadsEnds(g, rds) && rds[0].elem.Some? && rds[1].elem.Some?
    ensures g.key(rds[1].elem.value) <= g.target <= g.key(rds[0].elem.value)
    ensures if |rds| == 2 then AtAnEnd(g, rds, p)
            else
              && p.alpha == Alpha(g.target, g.key(p.before), g.key(p.after), g.keyMax)
              && (LastTwo(rds, p) || exists from :: SweptPair(g, rds, from, Some(p.before), Some(p.after)))
  {
    hide AtAnEnd, LastTwo, SweptPair, Alpha;
    if EndsDecide(g, rds, Some(p)) {
      GroundedAtEnds(g, rds, p);
    } else {
      var q: nat :| PairedAt(g, rds, Some(p), q);
      GroundedAt(g, rds, p, q);
    }
  }

  lemma GroundedAtEnds(g: Goal, rds: seq<Read>, p: InterpPair)
    requires g.avail >= 2 && EndsDecide(g, rds, Some(p))
    ensures |rds| == 2 && ReadsEnds(g, rds) && rds[0].elem.Some? && rds[1].elem.Some? && AtAnEnd(g, rds, p)
    ensures g.key(rds[1].elem.value) <= g.target <= g.key(rds[0].elem.value)
  {
  }

  lemma GroundedAt(g: Goal, rds: seq<Read>, p: InterpPair, q: nat)
    requires g.avail >= 2 && PairedAt(g, rds, Some(p), q)
    ensures |rds| > 2 && EndsEnclose(g, rds) && p.alpha == Alpha(g.target, g.key(p.before), g.key(p.after), g.keyMax)
    ensures LastTwo(rds, p) || exists from :: SweptPair(g, rds, from, Some(p.before), Some(p.after))
  {
    hide SidePicks, Alpha, IsPairProbe, PairRange;
    if IsPairProbe(g, rds, q) {
      var b, a :| SweptPair(g, rds, q + 1, b, a) && Some(p) == Joined(g, b, a);
    } else {
      NeighboursLeft(g, rds, q);
    }
  }

  /** The loop stops at two neighbours. */
  lemma {:induction false} NeighboursLeft(g: Goal, rds: seq<Read>, p: nat)
    requires PairBisecting(g, rds, p) && g.avail >= 2
    ensures var left := PairRange(g, rds[..p]); 0 <= left.lo < left.hi
    decreases p
  {
    if p > 2 {
      assert IsPairProbe(g, rds, p - 1);
      assert rds[..p][..p - 1] == rds[..p - 1];
      NeighboursLeft(g, rds, p - 1);
      hide PairBisecting;
      KeepsApart(g, PairRange(g, rds[..p - 1]), rds[p - 1]);
    }
  }

  lemma KeepsApart(g: Goal, left: Indices, rd: Read)
    requires 0 <= left.lo && left.lo + 1 < left.hi && rd.r == left.lo + (left.hi - left.lo) / 2
    ensures 0 <= Moved(g, left, rd).lo < Moved(g, left, rd).hi
  {
  }

  /** A log has one result. */
  lemma PairUnique(g: Goal, rds: seq<Read>, res: Option<InterpPair>, res': Option<InterpPair>)
    requires PairAnswered(g, rds, res) && PairAnswered(g, rds, res')
    ensures res == res'
  {
    hide PairedAt, EndsDecide;
    if g.avail >= 2 {
      if EndsDecide(g, rds, res) {
        NotBoth(g, rds, res, res');
      } else if EndsDecide(g, rds, res') {
        NotBoth(g, rds, res', res);
      } else {
        var p: nat :| PairedAt(g, rds, res, p);
        var p': nat :| PairedAt(g, rds, res', p');
        PairEndsOnce(g, rds, res, p, res', p');
        PairEndsOnce(g, rds, res', p', res, p);
        SamePair(g, rds, res, res', p);
      }
    }
  }

  /** What the ends decide, no loop does. */
  lemma NotBoth(g: Goal, rds: seq<Read>, res: Option<InterpPair>, res': Option<InterpPair>)
    requires g.avail >= 2 && EndsDecide(g, rds, res) && PairAnswered(g, rds, res')
    ensures res == res'
  {
    assert !EndsEnclose(g, rds);
  }

  lemma SamePair(g: Goal, rds: seq<Read>, res: Option<InterpPair>, res': Option<InterpPair>, p: nat)
    requires PairedAt(g, rds, res, p) && PairedAt(g, rds, res', p)
    ensures res == res'
  {
    hide IsPairProbe, PairBisecting, PairRange, Joined, SidePicks;
    if IsPairProbe(g, rds, p) {
      var b, a :| SweptPair(g, rds, p + 1, b, a) && res == Joined(g, b, a);
      var b', a' :| SweptPair(g, rds, p + 1, b', a') && res' == Joined(g, b', a');
      SameSide(g, true, rds, p + 1, b, b');
      SameSide(g, false, rds, p + 1, a, a');
    }
  }

  lemma PairEndsOnce(g: Goal, rds: seq<Read>, res: Option<InterpPair>, p: nat, res': Option<InterpPair>, p': nat)
    requires PairedAt(g, rds, res, p) && PairedAt(g, rds, res', p')
    ensures p' <= p
  {
  }

  lemma SameSide(g: Goal, below: bool, rds: seq<Read>, from: nat, e: Option<Value>, e': Option<Value>)
    requires SidePicks(g, below, rds, from, e) && SidePicks(g, below, rds, from, e')
    ensures e == e'
  {
    if e.Some? && e'.Some? {
      var q: nat :| from <= q && SideMinimum(g, below, rds, from, q, e.value);
      var q': nat :| from <= q' && SideMinimum(g, below, rds, from, q', e'.value);
      assert g.Diff(e.value) <= g.Diff(e'.value) <= g.Diff(e.value);
    }
  }
}
