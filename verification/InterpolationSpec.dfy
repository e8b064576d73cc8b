/** What `find_interpolation_pair` does with the answers it gets, what a bracketing pair is, and how
    far the pair can be from one when inserts land. */
module InterpolationSpec {
  import opened Bits
  import opened Options
  import opened RingSafety
  import opened RingReader
  import opened SearchSpec

  /** `InterpPair`, with the factor as an exact number. */
  datatype InterpPair = InterpPair(before: Value, after: Value, alpha: real)

  /** Unsigned subtraction of keys that range over 0..keyMax. */
  function KeySub(a: nat, b: nat, keyMax: nat): (d: nat)
    ensures d <= keyMax
  {
    (a - b) % (keyMax + 1)
  }

  lemma KeySubExact(a: nat, b: nat, keyMax: nat)
    requires b <= a <= keyMax
    ensures KeySub(a, b, keyMax) == a - b
  {
  }

  /** The factor as the code computes it, as an exact quotient. */
  function Alpha(target: nat, before: nat, after: nat, keyMax: nat): real {
    var d := KeySub(after, before, keyMax);
    if after == before || d == 0 then 0.0 else KeySub(target, before, keyMax) as real / d as real
  }

  /** For bracketed targets the factor interpolates exactly. */
  lemma AlphaInterpolates(target: nat, before: nat, after: nat, keyMax: nat)
    requires before <= target < after <= keyMax
    ensures var alpha := Alpha(target, before, after, keyMax);
            0.0 <= alpha < 1.0 && before as real + alpha * (after as real - before as real) == target as real
    ensures target == before ==> Alpha(target, before, after, keyMax) == 0.0
  {
    KeySubExact(after, before, keyMax);
    KeySubExact(target, before, keyMax);
    var n, d := (target - before) as real, (after - before) as real;
    assert d == after as real - before as real && n == target as real - before as real;
    Quotient(n, d);
  }

  lemma Quotient(n: real, d: real)
    requires 0.0 <= n < d
    ensures 0.0 <= n / d < 1.0 && (n / d) * d == n
  {
  }

  /** In general the pair is read again after the search and not compared with the target again. The
      factor lands in [0, 1) exactly when the target lies between the two keys, going up from `before`
      and around the key range. */
  lemma AlphaInUnitInterval(target: nat, before: nat, after: nat, keyMax: nat)
    requires target <= keyMax && before <= keyMax && after <= keyMax && before != after
    ensures 0.0 <= Alpha(target, before, after, keyMax) < 1.0 <==>
            if before < after then before <= target < after else before <= target || target < after
  {
    KeySubValue(after, before, keyMax);
    KeySubValue(target, before, keyMax);
    QuotientBelowOne(KeySub(target, before, keyMax) as real, KeySub(after, before, keyMax) as real);
  }

  lemma KeySubValue(a: nat, b: nat, keyMax: nat)
    requires a <= keyMax && b <= keyMax
    ensures KeySub(a, b, keyMax) == if b <= a then a - b else a - b + keyMax + 1
  {
    if a < b {
      ModUnique(a - b, keyMax + 1, -1, a - b + keyMax + 1);
    }
  }

  lemma QuotientBelowOne(n: real, d: real)
    requires 0.0 <= n && 0.0 < d
    ensures 0.0 <= n / d
    ensures n / d < 1.0 <==> n < d
  {
    var x := n / d;
    assert x * d == n;
  }

  lemma AlphaOfPair(target: nat, before: nat, after: nat, keyMax: nat)
    requires before <= target <= after <= keyMax && (after <= target ==> after <= before)
    ensures var alpha := Alpha(target, before, after, keyMax);
            0.0 <= alpha < 1.0 && before as real + alpha * (after as real - before as real) == target as real
    ensures before == after ==> Alpha(target, before, after, keyMax) == 0.0
  {
    if before < after {
      AlphaInterpolates(target, before, after, keyMax);
    }
  }

  lemma AlphaUnique(before: nat, after: nat, target: nat, x: real, y: real)
    requires before < after
    requires before as real + x * (after as real - before as real) == target as real
    requires before as real + y * (after as real - before as real) == target as real
    ensures x == y
  {
  }

  /** All keys are representable. */
  ghost predicate KeysFit(g: Goal) {
    g.keyMax > 0 && g.target <= g.keyMax && forall v: Value :: g.key(v) <= g.keyMax
  }

  ghost predicate Increasing(hist: seq<Value>, key: Value -> nat, from: int, end: nat) {
    0 <= from <= end <= |hist| && forall a, b :: from <= a < b < end ==> key(hist[a]) < key(hist[b])
  }

  lemma IncreasingIsSorted(hist: seq<Value>, key: Value -> nat, from: int, end: nat)
    requires Increasing(hist, key, from, end)
    ensures Sorted(hist, key, from, end)
  {
  }

  lemma Ordered(hist: seq<Value>, key: Value -> nat, from: int, end: nat, i: nat, j: nat)
    requires Increasing(hist, key, from, end) && from <= i < end && from <= j < end
    ensures key(hist[i]) <= key(hist[j]) <==> i <= j
    ensures key(hist[i]) < key(hist[j]) <==> i < j
  {
  }

  /** Iterations of the pair bisection on a range of width d. */
  function Steps(d: nat): nat {
    if d < 2 then 0 else 1 + Steps(d - d / 2)
  }

  lemma {:induction false} StepsMonotone(a: nat, b: nat)
    requires a <= b
    ensures Steps(a) <= Steps(b)
    decreases b
  {
    if a >= 2 {
      StepsMonotone(a - a / 2, b - b / 2);
    }
  }

  lemma {:induction false} StepsBound(d: nat)
    requires d >= 2
    ensures Steps(d - 1) <= Steps(d) <= 1 + Log2(d - 1) <= 1 + Log2(d)
  {
    if d >= 3 {
      StepsBound(d - d / 2);
      assert d - d / 2 - 1 == (d - 1) / 2;
    }
    Log2Monotone(d - 1, d);
    StepsMonotone(d - 1, d);
  }

  lemma StepsHalve(lo: nat, high: nat)
    requires lo + 1 < high
    ensures lo < Mid(lo, high) < high
    ensures 1 + Steps(high - Mid(lo, high)) <= Steps(high - lo)
    ensures 1 + Steps(Mid(lo, high) - lo) <= Steps(high - lo)
  {
    var d := high - lo;
    StepsMonotone(high - Mid(lo, high), d - d / 2);
    StepsMonotone(Mid(lo, high) - lo, d - d / 2);
  }

  // ---------------------------------------------------------------------------------------------
  // The walk
  // ---------------------------------------------------------------------------------------------

  predicate OnSide(below: bool, k: nat, target: nat) {
    if below then k <= target else k >= target
  }

  /** The nearest element the scan has met on one side of the target, its distance and its number. The
      distance starts at the key maximum. */
  datatype Side = Side(elem: Option<Value>, diff: nat, n: int)

  function Take(g: Goal, below: bool, side: Side, rd: Read): Side {
    if rd.elem.Some? && OnSide(below, g.key(rd.elem.value), g.target) && g.Diff(rd.elem.value) < side.diff
    then Side(rd.elem, g.Diff(rd.elem.value), rd.n) else side
  }

  /** Where `find_interpolation_pair` stands: about to read the newest, and the oldest, element; in
      the loop; about to read the pair's newer, and its older, element; in the scan; at its end, by
      way of the loop or of the scan. `above` and `below` number the last inserts seen above and not
      above the target, `b` and `a` those of the pair. */
  datatype PairState =
    | Opening
    | Closing(newest: Option<Value>, n: int)
    | Halving(lo: nat, hi: nat, above: int, below: int)
    | AtAfter(lo: nat, hi: nat, above: int, below: int)
    | AtBefore(lo: nat, hi: nat, above: int, below: int, newer: Option<Value>, a: int)
    | Sweeping(i: nat, before: Side, after: Side, from: nat)
    | Ended(res: Option<InterpPair>, b: int, a: int)
    | Fallen(before: Side, after: Side, from: nat)
    | Astray

  function PairStart(g: Goal): PairState {
    if g.avail < 2 then Ended(None, 0, 0) else Opening
  }

  function Halve(lo: nat, hi: nat, above: int, below: int): PairState {
    if lo + 1 < hi then Halving(lo, hi, above, below) else AtAfter(lo, hi, above, below)
  }

  function Sweep(g: Goal, i: nat, before: Side, after: Side, from: nat): PairState {
    if i < g.avail then Sweeping(i, before, after, from) else Fallen(before, after, from)
  }

  function Fall(g: Goal, from: nat): PairState {
    Sweep(g, 0, Side(None, g.keyMax, 0), Side(None, g.keyMax, 0), from)
  }

  function PairAsks(g: Goal, st: PairState): Option<nat> {
    match st
    case Opening => Some(0)
    case Closing(_, _) => if g.avail > 0 then Some(g.avail - 1) else None
    case Halving(lo, hi, _, _) => if lo < hi then Some(Mid(lo, hi)) else None
    case AtAfter(lo, _, _, _) => Some(lo)
    case AtBefore(_, hi, _, _, _, _) => Some(hi)
    case Sweeping(i, _, _, _) => Some(i)
    case _ => None
  }

  /** What the newest and the oldest element decide. */
  function AtEnds(g: Goal, newest: Option<Value>, n: int, oldest: Option<Value>, n': int): PairState {
    if newest.None? || oldest.None? then Ended(None, 0, 0)
    else if g.target > g.key(newest.value) || g.target < g.key(oldest.value) then Ended(None, 0, 0)
    else if g.target == g.key(newest.value) then Ended(Some(InterpPair(newest.value, newest.value, 0.0)), n, n)
    else if g.target == g.key(oldest.value) then Ended(Some(InterpPair(oldest.value, oldest.value, 0.0)), n', n')
    else Halve(0, if g.avail > 0 then g.avail - 1 else 0, n, n')
  }

  function Joined(g: Goal, before: Option<Value>, after: Option<Value>): Option<InterpPair> {
    if before.None? || after.None? then None
    else Some(InterpPair(before.value, after.value, Alpha(g.target, g.key(before.value), g.key(after.value), g.keyMax)))
  }

  function PairAdvance(g: Goal, st: PairState, rd: Read, at: nat): PairState {
    if PairAsks(g, st) != Some(rd.r) then Astray
    else match st
         case Opening => Closing(rd.elem, rd.n)
         case Closing(newest, n) => AtEnds(g, newest, n, rd.elem, rd.n)
         case Halving(lo, hi, above, below) =>
           if rd.elem.None? then Fall(g, at + 1)
           else if g.key(rd.elem.value) > g.target then Halve(rd.r, hi, rd.n, below)
           else Halve(lo, rd.r, above, rd.n)
         case AtAfter(lo, hi, above, below) => AtBefore(lo, hi, above, below, rd.elem, rd.n)
         case AtBefore(lo, hi, above, below, newer, a) => Ended(Joined(g, rd.elem, newer), rd.n, a)
         case Sweeping(i, before, after, from) =>
           Sweep(g, i + 1, Take(g, true, before, rd), Take(g, false, after, rd), from)
  }

  function PairWalk(g: Goal, st: PairState, rds: seq<Read>): PairState {
    if rds == [] then st
    else PairAdvance(g, PairWalk(g, st, rds[..|rds| - 1]), rds[|rds| - 1], |rds| - 1)
  }

  lemma PairWalkOn(g: Goal, st: PairState, rds: seq<Read>, rd: Read)
    ensures PairWalk(g, st, rds + [rd]) == PairAdvance(g, PairWalk(g, st, rds), rd, |rds|)
  {
    assert (rds + [rd])[..|rds|] == rds;
  }

  lemma SweepOn(g: Goal, i: nat, before: Side, after: Side, from: nat, rd: Read, at: nat)
    requires i < g.avail && rd.r == i
    ensures PairAdvance(g, Sweep(g, i, before, after, from), rd, at) ==
            Sweep(g, i + 1, Take(g, true, before, rd), Take(g, false, after, rd), from)
  {
  }

  lemma Takes(g: Goal, before: Side, after: Side, rd: Read)
    ensures rd.elem.None? ==> Take(g, true, before, rd) == before && Take(g, false, after, rd) == after
    ensures rd.elem.Some? ==>
              var k := g.key(rd.elem.value);
              && Take(g, true, before, rd) ==
                 (if k <= g.target && g.target - k < before.diff then Side(rd.elem, g.target - k, rd.n) else before)
              && Take(g, false, after, rd) ==
                 (if k >= g.target && k - g.target < after.diff then Side(rd.elem, k - g.target, rd.n) else after)
  {
  }

  lemma EndSweep(g: Goal, before: Side, after: Side, from: nat)
    ensures Sweep(g, g.avail, before, after, from) == Fallen(before, after, from)
  {
  }

  predicate PairInBounds(g: Goal, st: PairState) {
    match st
    case Opening => g.avail >= 2
    case Closing(_, _) => g.avail >= 2
    case Halving(lo, hi, _, _) => lo + 1 < hi < g.avail
    case AtAfter(lo, hi, _, _) => lo < hi < g.avail
    case AtBefore(lo, hi, _, _, _, _) => lo < hi < g.avail
    case Sweeping(i, _, _, _) => i < g.avail
    case _ => true
  }

  lemma PairStepInBounds(g: Goal, st: PairState, rd: Read, at: nat)
    requires PairInBounds(g, st) && !PairAdvance(g, st, rd, at).Astray?
    ensures PairInBounds(g, PairAdvance(g, st, rd, at)) && rd.r < g.avail
  {
  }

  /** Every reverse index a query reads is in range. */
  lemma {:induction false} PairWalkInBounds(g: Goal, rds: seq<Read>)
    requires !PairWalk(g, PairStart(g), rds).Astray?
    ensures PairInBounds(g, PairWalk(g, PairStart(g), rds)) && forall q :: 0 <= q < |rds| ==> rds[q].r < g.avail
    decreases rds
  {
    if rds != [] {
      PairWalkInBounds(g, rds[..|rds| - 1]);
      PairStepInBounds(g, PairWalk(g, PairStart(g), rds[..|rds| - 1]), rds[|rds| - 1], |rds| - 1);
      hide PairInBounds, PairAdvance;
    }
  }

  predicate Finished(st: PairState) {
    st.Ended? || st.Fallen?
  }

  function PairResult(g: Goal, st: PairState): Option<InterpPair>
    requires Finished(st)
  {
    if st.Ended? then st.res else Joined(g, st.before.elem, st.after.elem)
  }

  // ---------------------------------------------------------------------------------------------
  // What the answers say
  // ---------------------------------------------------------------------------------------------

  /** The target lies within the keys of inserts from..end. */
  ghost predicate InRange(v: View, g: Goal, from: nat, end: nat) {
    from < end <= |v.hist| && g.key(v.hist[from]) <= g.target <= g.key(v.hist[end - 1])
  }

  predicate Interpolates(g: Goal, p: InterpPair) {
    && 0.0 <= p.alpha < 1.0
    && g.key(p.before) as real + p.alpha * (g.key(p.after) as real - g.key(p.before) as real) == g.target as real
  }

  /** The bisection's pair for inserts from..end: boundary hits pair an element with itself; anything
      else lies between two neighbours in insertion order. */
  ghost predicate Bracket(v: View, g: Goal, from: nat, end: nat, b: int, a: int, p: InterpPair) {
    && from <= b <= a < end <= |v.hist| && p.before == v.hist[b] && p.after == v.hist[a]
    && if g.target == g.key(v.hist[end - 1]) then b == a == end - 1 && p.alpha == 0.0
       else if g.target == g.key(v.hist[from]) then b == a == from && p.alpha == 0.0
       else a == b + 1 && g.key(p.before) <= g.target < g.key(p.after) && Interpolates(g, p)
  }

  /** The scan's pair: the greatest key up to the target and the least key from it on. */
  ghost predicate ScanBracket(v: View, g: Goal, from: nat, end: nat, b: int, a: int, p: InterpPair) {
    && from <= b < end <= |v.hist| && from <= a < end && p.before == v.hist[b] && p.after == v.hist[a]
    && g.key(p.before) <= g.target <= g.key(p.after)
    && (forall j :: from <= j < end && g.key(v.hist[j]) <= g.target ==> g.key(v.hist[j]) <= g.key(p.before))
    && (forall j :: from <= j < end && g.key(v.hist[j]) >= g.target ==> g.key(v.hist[j]) >= g.key(p.after))
    && Interpolates(g, p)
    && (b == a ==> p.alpha == 0.0)
  }

  /** On strictly increasing keys both forms agree on `before` and on the factor, and on `after` too
      unless the target is an exact interior key, which the scan pairs with itself and the bisection
      with its successor. */
  lemma FormsAgree(v: View, g: Goal, from: nat, end: nat, b: int, a: int, p: InterpPair, b': int, a': int, p': InterpPair)
    requires Increasing(v.hist, g.key, from, end)
    requires Bracket(v, g, from, end, b, a, p)
    requires ScanBracket(v, g, from, end, b', a', p')
    ensures b == b' && p.before == p'.before && p.alpha == p'.alpha
    ensures a == a' || (a == a' + 1 && g.key(p.before) == g.target && from < b)
    ensures a == a' ==> p == p'
  {
    SameBefore(v, g, from, end, b, a, p, b', a', p');
    Ordered(v.hist, g.key, from, end, b', a');
    Ordered(v.hist, g.key, from, end, a, a');
    if g.key(v.hist[b]) == g.target {
      Ordered(v.hist, g.key, from, end, a', b);
      if b < a {
        AlphaUnique(g.key(p.before), g.key(v.hist[a]), g.target, p.alpha, 0.0);
      }
    } else {
      assert g.key(v.hist[a]) >= g.key(p'.after);
      AlphaUnique(g.key(p.before), g.key(p.after), g.target, p.alpha, p'.alpha);
    }
  }

  lemma SameBefore(v: View, g: Goal, from: nat, end: nat, b: int, a: int, p: InterpPair, b': int, a': int, p': InterpPair)
    requires Increasing(v.hist, g.key, from, end)
    requires Bracket(v, g, from, end, b, a, p)
    requires ScanBracket(v, g, from, end, b', a', p')
    ensures b == b'
  {
    assert g.key(v.hist[b]) <= g.key(v.hist[b']);
    Ordered(v.hist, g.key, from, end, b, b');
    Ordered(v.hist, g.key, from, end, b', a);
    Ordered(v.hist, g.key, from, end, b', from);
  }

  /** By count c, an element above the target was read at `lo`, and one not above it at `hi`. */
  ghost predicate Straddles(v: View, g: Goal, w0: nat, c: nat, lo: nat, hi: nat, above: int, below: int)
    requires v.counted <= |v.hist|
  {
    && 0 <= above < v.counted && g.key(v.hist[above]) > g.target && w0 <= above + 1 + lo <= c
    && 0 <= below < v.counted && g.key(v.hist[below]) <= g.target && w0 <= below + 1 + hi <= c
  }

  /** While nothing is published, the target lies strictly inside the window's keys. */
  ghost predicate Interior(v: View, g: Goal, w0: nat)
    requires 0 < g.avail <= w0 && v.counted <= |v.hist|
  {
    w0 == v.counted ==> g.key(v.hist[w0 - g.avail]) < g.target < g.key(v.hist[w0 - 1])
  }

  /** Where the pair lies when m inserts were published meanwhile and f is the first insert of the
      starting window or later above the target: its places are f - 1 and f, and each element is at its
      place or up to m inserts newer. */
  ghost predicate Near(v: View, g: Goal, w0: nat, b: int, a: int)
    requires g.avail <= w0 <= v.counted <= |v.hist|
  {
    var m, f := v.counted - w0, FirstAbove(v.hist, g.key, g.target, w0 - g.avail, v.counted);
    f - 1 <= b <= f - 1 + m && f <= a <= f + m && a <= b + 1
  }

  /** The pair is near its place, or is one element with the target's key. */
  ghost predicate Drift(v: View, g: Goal, w0: nat, p: InterpPair, b: int, a: int)
    requires g.avail <= w0 <= v.counted <= |v.hist|
  {
    Sorted(v.hist, g.key, w0 - g.avail, v.counted) ==>
      || Near(v, g, w0, b, a)
      || (a == b && p.before == p.after && g.key(p.before) == g.target && p.alpha == 0.0)
  }

  /** The newer element is read at count a + 1 + lo, no earlier than c; the older one after it. */
  lemma StraddleDrift(v: View, g: Goal, w0: nat, c: nat, lo: nat, hi: nat, above: int, below: int, b: int, a: int)
    requires g.avail <= w0 <= v.counted <= |v.hist| && Sorted(v.hist, g.key, w0 - g.avail, v.counted)
    requires Straddles(v, g, w0, c, lo, hi, above, below) && hi == lo + 1 < g.avail
    requires c <= a + 1 + lo <= b + 1 + hi <= v.counted
    ensures Near(v, g, w0, b, a)
  {
    AboveIff(v.hist, g.key, g.target, w0 - g.avail, v.counted, above);
    AboveIff(v.hist, g.key, g.target, w0 - g.avail, v.counted, below);
  }

  /** Exactly when such a pair brackets the target, and when its factor is in [0, 1). Its newer element is
      always above the target; it brackets if and only if the older one is still at its place. The factor
      is in [0, 1) also when inserts between the two looks have moved the older element up to the newer
      one or past it. */
  lemma PairExactly(v: View, g: Goal, w0: nat, b: int, a: int)
    requires g.avail <= w0 <= v.counted <= |v.hist| && Increasing(v.hist, g.key, w0 - g.avail, v.counted) && KeysFit(g)
    requires Near(v, g, w0, b, a) && w0 - g.avail <= b < v.counted && w0 - g.avail <= a < v.counted
    ensures var f := FirstAbove(v.hist, g.key, g.target, w0 - g.avail, v.counted);
            var before, after := g.key(v.hist[b]), g.key(v.hist[a]);
            && g.target < after
            && (before <= g.target <==> b == f - 1)
            && (0.0 <= Alpha(g.target, before, after, g.keyMax) < 1.0 <==> b == f - 1 || a <= b)
  {
    IncreasingIsSorted(v.hist, g.key, w0 - g.avail, v.counted);
    AboveIff(v.hist, g.key, g.target, w0 - g.avail, v.counted, b);
    AboveIff(v.hist, g.key, g.target, w0 - g.avail, v.counted, a);
    Ordered(v.hist, g.key, w0 - g.avail, v.counted, b, a);
    FactorOf(g, g.key(v.hist[b]), g.key(v.hist[a]));
    hide Alpha, Increasing, Sorted;
  }

  lemma FactorOf(g: Goal, before: nat, after: nat)
    requires KeysFit(g) && before <= g.keyMax && g.target < after <= g.keyMax
    ensures 0.0 <= Alpha(g.target, before, after, g.keyMax) < 1.0 <==> before <= g.target || after <= before
  {
    if before != after {
      AlphaInUnitInterval(g.target, before, after, g.keyMax);
    }
  }

  // ---------------------------------------------------------------------------------------------
  // The invariant of the walk
  // ---------------------------------------------------------------------------------------------

  ghost predicate Inside(v: View, g: Goal, w0: nat, rds: seq<Read>, lo: nat, hi: nat, above: int, below: int)
    requires g.avail <= w0 <= v.counted <= |v.hist|
  {
    && lo < hi < g.avail
    && (Unlapped(rds) ==> Straddles(v, g, w0, LastCount(w0, rds), lo, hi, above, below) && Interior(v, g, w0))
  }

  /** Both elements of the pair were read. */
  ghost predicate PairRead(rds: seq<Read>, p: InterpPair, b: int, a: int) {
    && (exists q: nat :: IsRead(rds, q, p.before, b))
    && (exists q: nat :: IsRead(rds, q, p.after, a))
  }

  /** Nothing was published: a pair exactly when there is one. */
  ghost predicate RestPair(v: View, g: Goal, w0: nat, res: Option<InterpPair>, b: int, a: int)
    requires g.avail <= w0 && v.counted <= |v.hist|
  {
    w0 == v.counted && Increasing(v.hist, g.key, w0 - g.avail, w0) && KeysFit(g) ==>
      && (res.Some? <==> g.avail >= 2 && InRange(v, g, w0 - g.avail, w0))
      && (res.Some? ==> Bracket(v, g, w0 - g.avail, w0, b, a, res.value))
  }

  ghost predicate PairEnd(v: View, g: Goal, w0: nat, rds: seq<Read>, res: Option<InterpPair>, b: int, a: int)
    requires g.avail <= w0 <= v.counted <= |v.hist|
  {
    && |rds| <= Log2(g.avail) + 5
    && (res.Some? ==> PairRead(rds, res.value, b, a))
    && (Unlapped(rds) && res.Some? ==> Drift(v, g, w0, res.value, b, a))
    && (Unlapped(rds) ==> RestPair(v, g, w0, res, b, a))
  }

  /** One side of the scan: the nearest element on that side among the reads from `from` on. */
  ghost predicate SideOf(g: Goal, below: bool, rds: seq<Read>, side: Side, from: nat) {
    && (forall q :: from <= q < |rds| && rds[q].elem.Some? && OnSide(below, g.key(rds[q].elem.value), g.target) ==>
                      side.diff <= g.Diff(rds[q].elem.value))
    && (side.elem.None? ==> side.diff == g.keyMax)
    && (side.elem.Some? ==>
          && OnSide(below, g.key(side.elem.value), g.target) && side.diff == g.Diff(side.elem.value)
          && exists q: nat :: from <= q && IsRead(rds, q, side.elem.value, side.n))
  }

  ghost predicate SweptSides(g: Goal, rds: seq<Read>, i: nat, before: Side, after: Side, from: nat) {
    && |rds| == from + i
    && (forall q :: from <= q < |rds| ==> rds[q].r == q - from)
    && SideOf(g, true, rds, before, from) && SideOf(g, false, rds, after, from)
  }

  ghost predicate PairInv(v: View, g: Goal, w0: nat, rds: seq<Read>, st: PairState)
    requires g.avail <= w0 <= v.counted <= |v.hist|
  {
    match st
    case Opening => g.avail >= 2 && rds == []
    case Closing(newest, n) =>
      g.avail >= 2 && |rds| == 1 && rds[0].r == 0 && rds[0].elem == newest && rds[0].n == n
    case Halving(lo, hi, above, below) =>
      lo + 1 < hi && |rds| + Steps(hi - lo) <= 3 + Log2(g.avail) && Inside(v, g, w0, rds, lo, hi, above, below)
    case AtAfter(lo, hi, above, below) =>
      hi == lo + 1 && |rds| <= 3 + Log2(g.avail) && Inside(v, g, w0, rds, lo, hi, above, below)
    case AtBefore(lo, hi, above, below, newer, a) =>
      && hi == lo + 1 && 0 < |rds| <= 4 + Log2(g.avail) && Inside(v, g, w0, rds, lo, hi, above, below)
      && rds[|rds| - 1].r == lo && rds[|rds| - 1].elem == newer && rds[|rds| - 1].n == a
    case Sweeping(i, before, after, from) =>
      i < g.avail && from <= 3 + Log2(g.avail) && SweptSides(g, rds, i, before, after, from)
    case Ended(res, b, a) => PairEnd(v, g, w0, rds, res, b, a)
    case Fallen(before, after, from) => from <= 3 + Log2(g.avail) && SweptSides(g, rds, g.avail, before, after, from)
    case Astray => true
  }

  lemma PairStartInv(v: View, g: Goal, w0: nat)
    requires g.avail <= w0 <= v.counted <= |v.hist|
    ensures PairInv(v, g, w0, [], PairStart(g))
  {
  }

  lemma FallInv(v: View, g: Goal, w0: nat, rds: seq<Read>)
    requires g.avail <= w0 <= v.counted <= |v.hist| && |rds| <= 3 + Log2(g.avail)
    ensures PairInv(v, g, w0, rds, Fall(g, |rds|))
  {
  }

  /** The first and the last element of a window that stood still. */
  lemma EndsAtRest(v: View, g: Goal, w0: nat, rds: seq<Read>)
    requires Logged(v, w0, g.avail, rds) && |rds| == 2 && rds[0].r == 0 && rds[1].r == g.avail - 1 && g.avail >= 2
    requires Unlapped(rds)
    ensures w0 - g.avail <= rds[0].n < v.counted && rds[0].elem == Some(v.hist[rds[0].n]) && w0 <= rds[0].n + 1 <= v.counted
    ensures w0 - g.avail <= rds[1].n < v.counted && rds[1].elem == Some(v.hist[rds[1].n])
    ensures w0 <= rds[1].n + g.avail <= v.counted
    ensures w0 == v.counted ==> rds[0].n == w0 - 1 && rds[1].n == w0 - g.avail
  {
    assert LoggedRead(v, w0, g.avail, rds[0]) && LoggedRead(v, w0, g.avail, rds[1]);
    assert OnTarget(rds[0]) && OnTarget(rds[1]);
  }

  /** What the two ends decide is right. */
  lemma AtEndsInv(v: View, g: Goal, w0: nat, rds: seq<Read>)
    requires Logged(v, w0, g.avail, rds) && |rds| == 2 && rds[0].r == 0 && rds[1].r == g.avail - 1 && g.avail >= 2
    ensures PairInv(v, g, w0, rds, AtEnds(g, rds[0].elem, rds[0].n, rds[1].elem, rds[1].n))
  {
    StepsBound(g.avail);
    if Unlapped(rds) {
      EndsAtRest(v, g, w0, rds);
    }
    hide Unlapped, Steps, Log2, Logged, Increasing, KeysFit, Near;
    var st := AtEnds(g, rds[0].elem, rds[0].n, rds[1].elem, rds[1].n);
    if st.Ended? {
      if st.res.Some? {
        EndRead(rds, st);
      }
      if Unlapped(rds) {
        RestEnds(v, g, w0, rds, st.res, st.b, st.a);
      }
    }
  }

  lemma EndRead(rds: seq<Read>, st: PairState)
    requires |rds| == 2 && st.Ended? && st.res.Some? && st.res.value.before == st.res.value.after && st.a == st.b
    requires (rds[0].elem == Some(st.res.value.before) && rds[0].n == st.b)
             || (rds[1].elem == Some(st.res.value.before) && rds[1].n == st.b)
    ensures PairRead(rds, st.res.value, st.b, st.a)
  {
    assert IsRead(rds, 0, st.res.value.before, st.b) || IsRead(rds, 1, st.res.value.before, st.b);
  }

  lemma RestEnds(v: View, g: Goal, w0: nat, rds: seq<Read>, res: Option<InterpPair>, b: int, a: int)
    requires 2 <= g.avail <= w0 <= v.counted <= |v.hist| && |rds| == 2
    requires w0 == v.counted ==> rds[0].n == w0 - 1 && rds[1].n == w0 - g.avail
    requires w0 == v.counted ==> rds[0].elem == Some(v.hist[w0 - 1]) && rds[1].elem == Some(v.hist[w0 - g.avail])
    requires AtEnds(g, rds[0].elem, rds[0].n, rds[1].elem, rds[1].n) == Ended(res, b, a)
    ensures RestPair(v, g, w0, res, b, a)
  {
    if w0 == v.counted && Increasing(v.hist, g.key, w0 - g.avail, w0) && KeysFit(g) {
      Ordered(v.hist, g.key, w0 - g.avail, w0, w0 - g.avail, w0 - 1);
    }
  }

  lemma InsideOn(v: View, g: Goal, w0: nat, rds: seq<Read>, rd: Read, lo: nat, hi: nat, above: int, below: int)
    requires Logged(v, w0, g.avail, rds + [rd]) && Inside(v, g, w0, rds, lo, hi, above, below)
    ensures Inside(v, g, w0, rds + [rd], lo, hi, above, below)
    ensures Unlapped(rds + [rd]) ==> rd.elem.Some?
    ensures lo < rd.r < hi && rd.elem.Some? && g.key(rd.elem.value) > g.target ==>
              Inside(v, g, w0, rds + [rd], rd.r, hi, rd.n, below)
    ensures lo < rd.r < hi && rd.elem.Some? && g.key(rd.elem.value) <= g.target ==>
              Inside(v, g, w0, rds + [rd], lo, rd.r, above, rd.n)
  {
    Extend(rds, rd);
    Targeted(v, g, w0, rds, rd);
  }

  lemma HalvingInv(v: View, g: Goal, w0: nat, rds: seq<Read>, st: PairState, rd: Read)
    requires g.avail <= w0 <= v.counted <= |v.hist|
    requires Logged(v, w0, g.avail, rds + [rd]) && PairInv(v, g, w0, rds, st) && st.Halving?
    ensures PairInv(v, g, w0, rds + [rd], PairAdvance(g, st, rd, |rds|))
  {
    hide Logged, Inside, Log2, Mid, SweptSides, PairEnd;
    if PairAsks(g, st) == Some(rd.r) {
      StepsHalve(st.lo, st.hi);
      InsideOn(v, g, w0, rds, rd, st.lo, st.hi, st.above, st.below);
      if rd.elem.None? {
        FallInv(v, g, w0, rds + [rd]);
      }
    }
  }

  /** The two neighbours, read again. */
  lemma AtBeforeInv(v: View, g: Goal, w0: nat, rds: seq<Read>, st: PairState, rd: Read)
    requires Logged(v, w0, g.avail, rds + [rd]) && PairInv(v, g, w0, rds, st) && st.AtBefore?
    ensures PairInv(v, g, w0, rds + [rd], PairAdvance(g, st, rd, |rds|))
  {
    if PairAsks(g, st) == Some(rd.r) {
      var all := rds + [rd];
      UnlappedFront(rds, rd);
      hide Logged, Unlapped, Drift, RestPair, Alpha, Straddles, Interior;
      if rd.elem.Some? && st.newer.Some? {
        assert IsRead(all, |rds|, rd.elem.value, rd.n) && IsRead(all, |rds| - 1, st.newer.value, st.a);
      }
      if Unlapped(all) {
        Reread(v, g, w0, rds, st, rd);
        NeighboursDrift(v, g, w0, LastCount(w0, rds), st, rd.n);
        RestNeighbours(v, g, w0, LastCount(w0, rds), st, rd.n);
      }
    }
  }

  lemma UnlappedFront(rds: seq<Read>, rd: Read)
    ensures Unlapped(rds + [rd]) ==> Unlapped(rds) && rd.elem.Some?
  {
    Extend(rds, rd);
  }

  lemma Reread(v: View, g: Goal, w0: nat, rds: seq<Read>, st: PairState, rd: Read)
    requires Logged(v, w0, g.avail, rds + [rd]) && Unlapped(rds + [rd]) && st.AtBefore? && rds != []
    requires rds[|rds| - 1].r == st.lo && rds[|rds| - 1].elem == st.newer && rds[|rds| - 1].n == st.a
    ensures 0 <= rd.n < v.counted && rd.elem == Some(v.hist[rd.n])
    ensures 0 <= st.a < v.counted && st.newer == Some(v.hist[st.a])
    ensures w0 <= LastCount(w0, rds) == st.a + 1 + st.lo <= rd.n + 1 + rd.r <= v.counted
  {
    var all := rds + [rd];
    assert all[|rds| - 1] == rds[|rds| - 1] && all[|rds|] == rd;
    assert LoggedRead(v, w0, g.avail, all[|rds|]) && LoggedRead(v, w0, g.avail, all[|rds| - 1]);
    assert OnTarget(all[|rds|]) && OnTarget(all[|rds| - 1]);
    assert all[|rds| - 1].w <= all[|rds|].w;
  }

  lemma NeighboursDrift(v: View, g: Goal, w0: nat, c: nat, st: PairState, b: int)
    requires g.avail <= w0 <= v.counted <= |v.hist| && st.AtBefore? && st.hi == st.lo + 1 < g.avail
    requires Straddles(v, g, w0, c, st.lo, st.hi, st.above, st.below)
    requires c == st.a + 1 + st.lo <= b + 1 + st.hi <= v.counted
    requires 0 <= st.a < v.counted && 0 <= b < v.counted && st.newer == Some(v.hist[st.a])
    ensures Drift(v, g, w0, Joined(g, Some(v.hist[b]), st.newer).value, b, st.a)
  {
    hide Straddles, Near, Alpha;
    if Sorted(v.hist, g.key, w0 - g.avail, v.counted) {
      StraddleDrift(v, g, w0, c, st.lo, st.hi, st.above, st.below, b, st.a);
    }
  }

  lemma RestNeighbours(v: View, g: Goal, w0: nat, c: nat, st: PairState, b: int)
    requires g.avail <= w0 <= v.counted <= |v.hist| && st.AtBefore? && st.hi == st.lo + 1 < g.avail
    requires Straddles(v, g, w0, c, st.lo, st.hi, st.above, st.below) && Interior(v, g, w0)
    requires c == st.a + 1 + st.lo <= b + 1 + st.hi <= v.counted
    requires 0 <= st.a < v.counted && 0 <= b < v.counted && st.newer == Some(v.hist[st.a])
    ensures RestPair(v, g, w0, Joined(g, Some(v.hist[b]), st.newer), b, st.a)
  {
    if w0 == v.counted && Increasing(v.hist, g.key, w0 - g.avail, w0) && KeysFit(g) {
      assert st.a == st.above && b == st.below == st.a - 1;
      hide Increasing, Alpha, Straddles, Interpolates;
      JoinedInterpolates(g, v.hist[b], v.hist[st.a]);
    }
  }

  lemma JoinedInterpolates(g: Goal, before: Value, after: Value)
    requires KeysFit(g) && g.key(before) <= g.target < g.key(after)
    ensures Interpolates(g, Joined(g, Some(before), Some(after)).value)
  {
    AlphaInterpolates(g.target, g.key(before), g.key(after), g.keyMax);
    hide Alpha;
  }

  lemma SideOn(g: Goal, below: bool, rds: seq<Read>, rd: Read, side: Side, from: nat)
    requires SideOf(g, below, rds, side, from) && from <= |rds|
    ensures SideOf(g, below, rds + [rd], Take(g, below, side, rd), from)
  {
    if Take(g, below, side, rd) != side {
      assert IsRead(rds + [rd], |rds|, rd.elem.value, rd.n);
    } else if side.elem.Some? {
      var q: nat :| from <= q && IsRead(rds, q, side.elem.value, side.n);
      assert IsRead(rds + [rd], q, side.elem.value, side.n);
    }
  }

  lemma SweepingInv(v: View, g: Goal, w0: nat, rds: seq<Read>, st: PairState, rd: Read)
    requires g.avail <= w0 <= v.counted <= |v.hist| && PairInv(v, g, w0, rds, st) && st.Sweeping?
    ensures PairInv(v, g, w0, rds + [rd], PairAdvance(g, st, rd, |rds|))
  {
    if PairAsks(g, st) == Some(rd.r) {
      SideOn(g, true, rds, rd, st.before, st.from);
      SideOn(g, false, rds, rd, st.after, st.from);
      hide SideOf;
    }
  }

  lemma PairAdvanceInv(v: View, g: Goal, w0: nat, rds: seq<Read>, st: PairState, rd: Read)
    requires g.avail <= w0 <= v.counted <= |v.hist|
    requires Logged(v, w0, g.avail, rds + [rd]) && PairInv(v, g, w0, rds, st)
    ensures PairInv(v, g, w0, rds + [rd], PairAdvance(g, st, rd, |rds|))
  {
    match st
    case Closing(_, _) =>
      if PairAsks(g, st) == Some(rd.r) {
        AtEndsInv(v, g, w0, rds + [rd]);
      }
    case Halving(_, _, _, _) => HalvingInv(v, g, w0, rds, st, rd);
    case AtAfter(lo, hi, above, below) => InsideOn(v, g, w0, rds, rd, lo, hi, above, below);
    case AtBefore(_, _, _, _, _, _) => AtBeforeInv(v, g, w0, rds, st, rd);
    case Sweeping(_, _, _, _) => SweepingInv(v, g, w0, rds, st, rd);
    case _ =>
  }

  lemma {:induction false} PairWalkInv(v: View, g: Goal, w0: nat, st: PairState, rds: seq<Read>)
    requires Logged(v, w0, g.avail, rds) && PairInv(v, g, w0, [], st)
    ensures PairInv(v, g, w0, rds, PairWalk(g, st, rds))
    decreases rds
  {
    if rds != [] {
      var front, rd := rds[..|rds| - 1], rds[|rds| - 1];
      assert rds == front + [rd];
      LogFront(v, w0, g.avail, rds);
      hide PairInv, Logged, PairAdvance;
      PairWalkInv(v, g, w0, st, front);
      PairAdvanceInv(v, g, w0, front, PairWalk(g, st, front), rd);
    }
  }

  // ---------------------------------------------------------------------------------------------
  // The theorems
  // ---------------------------------------------------------------------------------------------

  /** A whole query, as its log tells it. */
  ghost predicate PairQuery(v: View, g: Goal, w0: nat, rds: seq<Read>) {
    Logged(v, w0, g.avail, rds) && Finished(PairWalk(g, PairStart(g), rds))
  }

  lemma PairQueryInv(v: View, g: Goal, w0: nat, rds: seq<Read>)
    requires PairQuery(v, g, w0, rds)
    ensures PairInv(v, g, w0, rds, PairWalk(g, PairStart(g), rds))
  {
    PairStartInv(v, g, w0);
    PairWalkInv(v, g, w0, PairStart(g), rds);
  }

  /** Cost, whatever the writer does. */
  lemma PairCost(v: View, g: Goal, w0: nat, rds: seq<Read>)
    requires PairQuery(v, g, w0, rds)
    ensures forall q :: 0 <= q < |rds| ==> rds[q].attempts <= 5
    ensures |rds| <= Log2(g.avail) + if PairWalk(g, PairStart(g), rds).Ended? then 5 else 3 + g.avail
  {
    PairQueryInv(v, g, w0, rds);
    assert forall q :: 0 <= q < |rds| ==> LoggedRead(v, w0, g.avail, rds[q]);
  }

  /** The inserts a finished query paired. */
  function Numbers(st: PairState): (int, int)
    requires Finished(st)
  {
    if st.Ended? then (st.b, st.a) else (st.before.n, st.after.n)
  }

  lemma ResultRead(v: View, g: Goal, w0: nat, rds: seq<Read>)
    requires PairQuery(v, g, w0, rds)
    ensures var st := PairWalk(g, PairStart(g), rds);
            PairResult(g, st).Some? ==> PairRead(rds, PairResult(g, st).value, Numbers(st).0, Numbers(st).1)
  {
    PairQueryInv(v, g, w0, rds);
    var st := PairWalk(g, PairStart(g), rds);
    if st.Fallen? && PairResult(g, st).Some? {
      var q: nat :| st.from <= q && IsRead(rds, q, st.before.elem.value, st.before.n);
      var q': nat :| st.from <= q' && IsRead(rds, q', st.after.elem.value, st.after.n);
    }
  }

  lemma ReadIsGenuine(v: View, w0: nat, avail: nat, rds: seq<Read>, elem: Value, n: int)
    requires Logged(v, w0, avail, rds) && Sound(rds) && exists q: nat :: IsRead(rds, q, elem, n)
    ensures Genuine(v, w0, avail, n, elem)
  {
    var q: nat :| IsRead(rds, q, elem, n);
    assert LoggedRead(v, w0, avail, rds[q]);
  }

  /** While fewer than 2^31 inserts begin, both elements are arguments of one insert each, none older
      than the starting window. */
  lemma PairGenuine(v: View, g: Goal, w0: nat, rds: seq<Read>)
    requires PairQuery(v, g, w0, rds) && |v.hist| - w0 < HALF
    ensures var st := PairWalk(g, PairStart(g), rds);
            var res := PairResult(g, st);
            res.Some? ==>
              && Genuine(v, w0, g.avail, Numbers(st).0, res.value.before)
              && Genuine(v, w0, g.avail, Numbers(st).1, res.value.after)
  {
    ResultRead(v, g, w0, rds);
    BriefIsSound(v, w0, g.avail, rds);
    var st := PairWalk(g, PairStart(g), rds);
    var res := PairResult(g, st);
    if res.Some? {
      ReadIsGenuine(v, w0, g.avail, rds, res.value.before, Numbers(st).0);
      ReadIsGenuine(v, w0, g.avail, rds, res.value.after, Numbers(st).1);
    }
  }

  /** Only a failed read leads to a scan. */
  lemma {:induction false} UnlappedEnds(g: Goal, rds: seq<Read>)
    requires Unlapped(rds)
    ensures var st := PairWalk(g, PairStart(g), rds); !st.Fallen? && !st.Sweeping?
    decreases rds
  {
    if rds != [] {
      var front, rd := rds[..|rds| - 1], rds[|rds| - 1];
      assert rds == front + [rd];
      Extend(front, rd);
      UnlappedEnds(g, front);
    }
  }

  /** Under inserts: if m of them are published meanwhile and no read is lapped, each element of the pair
      is at its place beside the first insert above the target, or up to m inserts newer. */
  lemma PairDrift(v: View, g: Goal, w0: nat, rds: seq<Read>)
    requires PairQuery(v, g, w0, rds) && Unlapped(rds)
    ensures var st := PairWalk(g, PairStart(g), rds);
            st.Ended? && (st.res.Some? ==> Drift(v, g, w0, st.res.value, st.b, st.a))
  {
    PairQueryInv(v, g, w0, rds);
    UnlappedEnds(g, rds);
  }

  /** With nothing published meanwhile and no read lapped, on strictly increasing keys: a pair exactly when the target is in range, and then one that
      brackets it. */
  lemma PairOptimal(v: View, g: Goal, w0: nat, rds: seq<Read>)
    requires PairQuery(v, g, w0, rds) && Unlapped(rds) && w0 == v.counted
    requires Increasing(v.hist, g.key, w0 - g.avail, w0) && KeysFit(g)
    ensures var st := PairWalk(g, PairStart(g), rds);
            && st.Ended?
            && (st.res.Some? <==> g.avail >= 2 && InRange(v, g, w0 - g.avail, w0))
            && (st.res.Some? ==> Bracket(v, g, w0 - g.avail, w0, st.b, st.a, st.res.value))
  {
    hide Bracket, InRange, PairWalk, Increasing, KeysFit, SweptSides, Straddles, Drift;
    PairQueryInv(v, g, w0, rds);
    UnlappedEnds(g, rds);
  }

  /** The scan, under any inserts: the greatest key up to the target and the least from it on, of the
      elements it read, or nothing on a side only if all read there lie at the key maximum. */
  lemma ScanFindsNearest(v: View, g: Goal, w0: nat, rds: seq<Read>)
    requires PairQuery(v, g, w0, rds) && PairWalk(g, PairStart(g), rds).Fallen?
    ensures var st := PairWalk(g, PairStart(g), rds);
            && |rds| == st.from + g.avail && (forall q :: st.from <= q < |rds| ==> rds[q].r == q - st.from)
            && SideOf(g, true, rds, st.before, st.from) && SideOf(g, false, rds, st.after, st.from)
  {
    PairQueryInv(v, g, w0, rds);
  }

  /** A side of a scan that was not lapped, over a window that stood still. */
  lemma SideAtRest(v: View, g: Goal, below: bool, w0: nat, rds: seq<Read>, side: Side)
    requires Logged(v, w0, g.avail, rds) && Unlapped(rds) && w0 == v.counted && |rds| == g.avail
    requires SideOf(g, below, rds, side, 0) && forall q :: 0 <= q < |rds| ==> rds[q].r == q
    ensures forall j :: w0 - g.avail <= j < w0 && OnSide(below, g.key(v.hist[j]), g.target) ==> side.diff <= Distance(v, g, j)
    ensures side.elem.Some? ==>
              && w0 - g.avail <= side.n < w0 && side.elem.value == v.hist[side.n]
              && OnSide(below, g.key(v.hist[side.n]), g.target) && side.diff == Distance(v, g, side.n)
  {
    forall j | w0 - g.avail <= j < w0 && OnSide(below, g.key(v.hist[j]), g.target)
      ensures side.diff <= Distance(v, g, j)
    {
      var q := w0 - 1 - j;
      assert LoggedRead(v, w0, g.avail, rds[q]) && OnTarget(rds[q]);
    }
    if side.elem.Some? {
      var q: nat :| IsRead(rds, q, side.elem.value, side.n);
      assert LoggedRead(v, w0, g.avail, rds[q]) && OnTarget(rds[q]);
    }
  }

  /** Both sides found: they bracket the target. */
  lemma SidesBracket(v: View, g: Goal, w0: nat, rds: seq<Read>, before: Side, after: Side)
    requires Logged(v, w0, g.avail, rds) && Unlapped(rds) && w0 == v.counted && g.avail > 0
    requires SweptSides(g, rds, g.avail, before, after, 0) && KeysFit(g) && Increasing(v.hist, g.key, w0 - g.avail, w0)
    requires before.elem.Some? && after.elem.Some?
    ensures InRange(v, g, w0 - g.avail, w0)
    ensures ScanBracket(v, g, w0 - g.avail, w0, before.n, after.n, Joined(g, before.elem, after.elem).value)
  {
    hide Logged, Unlapped, SideOf, KeysFit;
    SideAtRest(v, g, true, w0, rds, before);
    SideAtRest(v, g, false, w0, rds, after);
    NearestKeys(v, g, w0, before, after);
    JoinedBracket(v, g, w0, before.n, after.n);
  }

  lemma NearestKeys(v: View, g: Goal, w0: nat, before: Side, after: Side)
    requires g.avail <= w0 <= |v.hist|
    requires w0 - g.avail <= before.n < w0 && w0 - g.avail <= after.n < w0
    requires before.diff == Distance(v, g, before.n) && after.diff == Distance(v, g, after.n)
    requires g.key(v.hist[before.n]) <= g.target <= g.key(v.hist[after.n])
    requires forall j :: w0 - g.avail <= j < w0 && OnSide(true, g.key(v.hist[j]), g.target) ==> before.diff <= Distance(v, g, j)
    requires forall j :: w0 - g.avail <= j < w0 && OnSide(false, g.key(v.hist[j]), g.target) ==> after.diff <= Distance(v, g, j)
    ensures forall j :: w0 - g.avail <= j < w0 && g.key(v.hist[j]) <= g.target ==> g.key(v.hist[j]) <= g.key(v.hist[before.n])
    ensures forall j :: w0 - g.avail <= j < w0 && g.key(v.hist[j]) >= g.target ==> g.key(v.hist[j]) >= g.key(v.hist[after.n])
  {
    forall j | w0 - g.avail <= j < w0
      ensures g.key(v.hist[j]) <= g.target ==> g.key(v.hist[j]) <= g.key(v.hist[before.n])
      ensures g.key(v.hist[j]) >= g.target ==> g.key(v.hist[j]) >= g.key(v.hist[after.n])
    {
      assert OnSide(true, g.key(v.hist[j]), g.target) ==> before.diff <= Distance(v, g, j);
      assert OnSide(false, g.key(v.hist[j]), g.target) ==> after.diff <= Distance(v, g, j);
    }
  }

  lemma JoinedBracket(v: View, g: Goal, w0: nat, b: int, a: int)
    requires g.avail <= w0 <= |v.hist| && KeysFit(g) && Increasing(v.hist, g.key, w0 - g.avail, w0)
    requires w0 - g.avail <= b < w0 && w0 - g.avail <= a < w0
    requires g.key(v.hist[b]) <= g.target <= g.key(v.hist[a])
    requires forall j :: w0 - g.avail <= j < w0 && g.key(v.hist[j]) <= g.target ==> g.key(v.hist[j]) <= g.key(v.hist[b])
    requires forall j :: w0 - g.avail <= j < w0 && g.key(v.hist[j]) >= g.target ==> g.key(v.hist[j]) >= g.key(v.hist[a])
    ensures InRange(v, g, w0 - g.avail, w0)
    ensures ScanBracket(v, g, w0 - g.avail, w0, b, a, Joined(g, Some(v.hist[b]), Some(v.hist[a])).value)
  {
    hide Alpha, Interpolates;
    Ordered(v.hist, g.key, w0 - g.avail, w0, b, a);
    Ordered(v.hist, g.key, w0 - g.avail, w0, w0 - g.avail, b);
    Ordered(v.hist, g.key, w0 - g.avail, w0, a, w0 - 1);
    hide Increasing;
    NearestInterpolates(g, v.hist[b], v.hist[a]);
  }

  lemma NearestInterpolates(g: Goal, before: Value, after: Value)
    requires KeysFit(g) && g.key(before) <= g.target <= g.key(after)
    requires g.key(after) <= g.target ==> g.key(after) <= g.key(before)
    ensures Interpolates(g, Joined(g, Some(before), Some(after)).value)
    ensures g.key(before) == g.key(after) ==> Joined(g, Some(before), Some(after)).value.alpha == 0.0
  {
    AlphaOfPair(g.target, g.key(before), g.key(after), g.keyMax);
    hide Alpha;
  }

  /** A side not found: the target is out of range. */
  lemma SideMissing(v: View, g: Goal, w0: nat, rds: seq<Read>, before: Side, after: Side)
    requires Logged(v, w0, g.avail, rds) && Unlapped(rds) && w0 == v.counted && g.avail > 0
    requires SweptSides(g, rds, g.avail, before, after, 0) && KeysFit(g)
    requires before.elem.None? || after.elem.None?
    ensures !InRange(v, g, w0 - g.avail, w0)
  {
    SideAtRest(v, g, true, w0, rds, before);
    SideAtRest(v, g, false, w0, rds, after);
    var from := w0 - g.avail;
    assert g.key(v.hist[from]) <= g.keyMax && g.key(v.hist[w0 - 1]) <= g.keyMax;
    assert OnSide(true, g.key(v.hist[from]), g.target) ==> before.diff <= Distance(v, g, from);
    assert OnSide(false, g.key(v.hist[from]), g.target) ==> after.diff <= Distance(v, g, from);
    assert OnSide(true, g.key(v.hist[w0 - 1]), g.target) ==> before.diff <= Distance(v, g, w0 - 1);
    assert OnSide(false, g.key(v.hist[w0 - 1]), g.target) ==> after.diff <= Distance(v, g, w0 - 1);
  }

  lemma {:induction false} FallKeepsFrom(g: Goal, st: PairState, rds: seq<Read>)
    requires (st.Sweeping? || st.Fallen?) && st.from == 0
    ensures var t := PairWalk(g, st, rds); t.Astray? || ((t.Sweeping? || t.Fallen?) && t.from == 0)
    decreases rds
  {
    if rds != [] {
      FallKeepsFrom(g, st, rds[..|rds| - 1]);
    }
  }

  /** A scan of its own at rest: a pair exactly when the target is in range, and then the nearest keys on
      either side. */
  lemma ScanOptimal(v: View, g: Goal, w0: nat, rds: seq<Read>)
    requires Logged(v, w0, g.avail, rds) && PairWalk(g, Fall(g, 0), rds).Fallen? && g.avail > 0
    requires Unlapped(rds) && w0 == v.counted && Increasing(v.hist, g.key, w0 - g.avail, w0) && KeysFit(g)
    ensures var st := PairWalk(g, Fall(g, 0), rds);
            var res := PairResult(g, st);
            && (res.Some? <==> InRange(v, g, w0 - g.avail, w0))
            && (res.Some? ==> ScanBracket(v, g, w0 - g.avail, w0, st.before.n, st.after.n, res.value))
  {
    hide PairWalk, Increasing, InRange, ScanBracket, KeysFit;
    FallInv(v, g, w0, []);
    PairWalkInv(v, g, w0, Fall(g, 0), rds);
    FallKeepsFrom(g, Fall(g, 0), rds);
    var st := PairWalk(g, Fall(g, 0), rds);
    if st.before.elem.Some? && st.after.elem.Some? {
      SidesBracket(v, g, w0, rds, st.before, st.after);
    } else {
      SideMissing(v, g, w0, rds, st.before, st.after);
    }
  }

  /** On at least two strictly increasing keys that stood still, search and scan succeed on the same
      targets, with the same `before` and the same factor; `after` differs only for an exact interior
      match. */
  lemma PairFormsAgree(v: View, g: Goal, w0: nat, rds: seq<Read>, rds': seq<Read>)
    requires PairQuery(v, g, w0, rds) && g.avail >= 2
    requires Logged(v, w0, g.avail, rds') && PairWalk(g, Fall(g, 0), rds').Fallen?
    requires Unlapped(rds) && Unlapped(rds') && w0 == v.counted
    requires Increasing(v.hist, g.key, w0 - g.avail, w0) && KeysFit(g)
    ensures var st := PairWalk(g, PairStart(g), rds);
            var res, res' := PairResult(g, st), PairResult(g, PairWalk(g, Fall(g, 0), rds'));
            && (res.Some? <==> res'.Some?)
            && (res.Some? ==> res.value.before == res'.value.before && res.value.alpha == res'.value.alpha)
            && (res.Some? && res.value.after != res'.value.after ==>
                  g.key(res.value.before) == g.target && w0 - g.avail < Numbers(st).0)
  {
    hide PairWalk, Increasing, Bracket, ScanBracket, KeysFit, InRange;
    PairOptimal(v, g, w0, rds);
    ScanOptimal(v, g, w0, rds');
    var st, st' := PairWalk(g, PairStart(g), rds), PairWalk(g, Fall(g, 0), rds');
    if st.res.Some? {
      FormsAgree(v, g, w0 - g.avail, w0, st.b, st.a, st.res.value, st'.before.n, st'.after.n, PairResult(g, st').value);
    }
  }
}
