/** What a key search does with the answers it gets, and what follows from them. A query is a walk:
    each `try_get` it makes, and the answer, take it to its next state. The theorems are about every
    log of answers that `RingReader.CyclicBufferReader.TryGet` can give. */
module SearchSpec {
  import opened Bits
  import opened Options
  import opened RingSafety
  import opened RingReader

  /** `key_diff`: the distance of two unsigned keys. */
  function KeyDiff(a: nat, b: nat): (d: nat)
    ensures a + d == b || b + d == a
  {
    if a > b then a - b else b - a
  }

  /** floor(log2(n)), and 0 for n = 0. */
  function Log2(n: nat): nat {
    if n < 2 then 0 else 1 + Log2(n / 2)
  }

  lemma {:induction false} Log2IsFloor(n: nat)
    requires n > 0
    ensures Pow2(Log2(n)) <= n < 2 * Pow2(Log2(n))
  {
    if n >= 2 {
      Log2IsFloor(n / 2);
    }
  }

  lemma {:induction false} Log2Monotone(a: nat, b: nat)
    requires a <= b
    ensures Log2(a) <= Log2(b)
  {
    if a >= 2 {
      Log2Monotone(a / 2, b / 2);
    }
  }

  /** The midpoint both bisections probe. */
  function Mid(lo: nat, high: nat): (mid: nat)
    requires lo < high
    ensures lo <= mid < high
  {
    lo + (high - lo) / 2
  }

  lemma MidIn(lo: nat, high: nat)
    requires lo < high
    ensures lo <= Mid(lo, high) < high
  {
  }

  /** Either half of a range of two or more is at most half as long. */
  lemma Halved(lo: nat, high: nat)
    requires lo < high
    ensures 1 + Log2(high + 1 - (Mid(lo, high) + 1)) <= Log2(high + 1 - lo)
    ensures 1 + Log2(Mid(lo, high) - 1 + 1 - lo) <= Log2(high + 1 - lo)
  {
    Log2Monotone(high - Mid(lo, high), (high + 1 - lo) / 2);
    Log2Monotone(Mid(lo, high) - lo, (high + 1 - lo) / 2);
  }

  // ---------------------------------------------------------------------------------------------
  // Logs of reads
  // ---------------------------------------------------------------------------------------------

  /** Every successful read in the log had fewer than 2^31 inserts between its counter loads. */
  ghost predicate Sound(rds: seq<Read>) {
    forall q :: 0 <= q < |rds| && rds[q].elem.Some? ==> rds[q].hits < HALF
  }

  /** No read in the log failed or was lapped. */
  ghost predicate Unlapped(rds: seq<Read>) {
    forall q :: 0 <= q < |rds| ==> OnTarget(rds[q])
  }

  /** A `try_get` of a query that began with count w0 and `avail` readable elements, as seen by v. */
  ghost predicate LoggedRead(v: View, w0: nat, avail: nat, rd: Read) {
    && rd.attempts <= 5 && rd.r < avail && w0 <= rd.w <= v.counted
    && (rd.elem.Some? ==> ReadOf(v, rd) && rd.hits <= |v.hist| - w0)
    && (Room(v, rd) ==> OnTarget(rd)) && (rd.elem.None? ==> rd.attempts == 5)
  }

  /** Reads made one after another: their counts never decrease. */
  ghost predicate Logged(v: View, w0: nat, avail: nat, rds: seq<Read>) {
    && avail <= w0 <= v.counted <= |v.hist| && avail <= v.cap
    && (forall q :: 0 <= q < |rds| ==> LoggedRead(v, w0, avail, rds[q]))
    && forall p, q :: 0 <= p < q < |rds| ==> rds[p].w <= rds[q].w
  }

  /** The count that the last read loaded. */
  function LastCount(w0: nat, rds: seq<Read>): nat {
    if rds == [] then w0 else rds[|rds| - 1].w
  }

  lemma Extend(rds: seq<Read>, rd: Read)
    ensures Sound(rds + [rd]) <==> Sound(rds) && (rd.elem.Some? ==> rd.hits < HALF)
    ensures Unlapped(rds + [rd]) <==> Unlapped(rds) && OnTarget(rd)
  {
    var all := rds + [rd];
    assert all[|rds|] == rd;
    assert forall q :: 0 <= q < |rds| ==> all[q] == rds[q];
  }

  /** What was true of a read stays true while the writer goes on. */
  lemma LogOn(was: View, v: View, w0: nat, avail: nat, rds: seq<Read>, rd: Read)
    requires Logged(was, w0, avail, rds) && Grows(was, v) && LoggedRead(v, w0, avail, rd) && was.counted <= rd.w
    ensures Logged(v, w0, avail, rds + [rd])
  {
    forall q | 0 <= q < |rds + [rd]|
      ensures LoggedRead(v, w0, avail, (rds + [rd])[q])
    {
      if q < |rds| {
        assert LoggedRead(was, w0, avail, rds[q]);
      }
    }
    forall p, q | 0 <= p < q < |rds + [rd]|
      ensures (rds + [rd])[p].w <= (rds + [rd])[q].w
    {
      assert LoggedRead(was, w0, avail, rds[p]);
    }
  }

  lemma LogFront(v: View, w0: nat, avail: nat, rds: seq<Read>)
    requires Logged(v, w0, avail, rds) && rds != []
    ensures Logged(v, w0, avail, rds[..|rds| - 1]) && avail <= w0 <= v.counted <= |v.hist|
  {
  }

  /** While fewer than 2^31 inserts begin, no read is torn. */
  lemma BriefIsSound(v: View, w0: nat, avail: nat, rds: seq<Read>)
    requires Logged(v, w0, avail, rds) && |v.hist| - w0 < HALF
    ensures Sound(rds)
  {
    forall q | 0 <= q < |rds| && rds[q].elem.Some?
      ensures rds[q].hits < HALF
    {
      assert LoggedRead(v, w0, avail, rds[q]);
    }
  }

  /** While no insert begins that would overwrite one of the reverse indices up to d, a query that
      goes no deeper is never lapped. With d = avail - 1: while the starting window stays in the
      buffer. */
  lemma RoomIsUnlapped(v: View, w0: nat, avail: nat, rds: seq<Read>, d: nat)
    requires Logged(v, w0, avail, rds) && |v.hist| <= w0 - 1 - d + v.cap
    requires forall q :: 0 <= q < |rds| ==> rds[q].r <= d
    ensures Unlapped(rds)
  {
    forall q | 0 <= q < |rds|
      ensures OnTarget(rds[q])
    {
      assert LoggedRead(v, w0, avail, rds[q]);
    }
  }

  lemma WindowIsUnlapped(v: View, w0: nat, avail: nat, rds: seq<Read>)
    requires Logged(v, w0, avail, rds) && |v.hist| <= w0 - avail + v.cap
    ensures Unlapped(rds)
  {
    forall q | 0 <= q < |rds|
      ensures OnTarget(rds[q])
    {
      assert LoggedRead(v, w0, avail, rds[q]);
    }
  }

  /** Insert n, no older than the query's starting window. */
  ghost predicate Genuine(v: View, w0: nat, avail: nat, n: int, elem: Value) {
    0 <= n < |v.hist| && w0 - avail <= n <= v.counted && elem == v.hist[n]
  }

  // ---------------------------------------------------------------------------------------------
  // The walk
  // ---------------------------------------------------------------------------------------------

  /** The arguments of a query, the key type's maximum, and the number of elements it began with. */
  datatype Goal = Goal(key: Value -> nat, target: nat, keyMax: nat, limit: Option<nat>, avail: nat) {
    function Diff(elem: Value): nat {
      KeyDiff(key(elem), target)
    }
  }

  /** How a query runs: on the fast path, or in the linear scan after a failed probe inside the
      loop, or after a failed read of the final `lo`. */
  datatype Path = Fast | LoopFallback | FinalFallback

  /** Where `find_closest` stands: in the loop; about to read the final `lo`; about to read its newer,
      and its older, neighbour; in the scan; or at its end, before the distance limit.
      Beside the code's variables: `above` and `below` number the last inserts seen on either side of
      the target, `hi` is where the loop's upper bound would stand, `n` numbers the insert held, and
      `from` says where in the log the comparison of distances began. */
  datatype State =
    | Probing(lo: nat, high: nat, above: int, below: int)
    | AtLo(lo: nat, hi: int, above: int, below: int)
    | Newer(lo: nat, hi: int, above: int, below: int, best: Value, n: int, from: nat)
    | Older(lo: nat, hi: int, above: int, below: int, best: Value, n: int, from: nat)
    | Scanning(path: Path, i: nat, held: Option<Value>, diff: nat, n: int, from: nat)
    | Done(path: Path, found: Option<Value>, n: int, from: nat)
    | Off

  function Start(g: Goal): State {
    if g.avail == 0 then Done(Fast, None, 0, 0) else Narrow(0, g.avail - 1, 0, 0)
  }

  function Narrow(lo: nat, high: int, above: int, below: int): State {
    if lo < high then Probing(lo, high, above, below) else AtLo(lo, high, above, below)
  }

  function Scan(g: Goal, path: Path, i: nat, held: Option<Value>, diff: nat, n: int, from: nat): State {
    if i < g.avail then Scanning(path, i, held, diff, n, from) else Done(path, held, n, from)
  }

  function ToOlder(g: Goal, lo: nat, hi: int, above: int, below: int, best: Value, n: int, from: nat): State {
    if lo + 1 < g.avail then Older(lo, hi, above, below, best, n, from) else Done(Fast, Some(best), n, from)
  }

  /** The reverse index read next. */
  function Asks(st: State): Option<nat> {
    match st
    case Probing(lo, high, _, _) => if lo < high then Some(Mid(lo, high)) else None
    case AtLo(lo, _, _, _) => Some(lo)
    case Newer(lo, _, _, _, _, _, _) => if lo > 0 then Some(lo - 1) else None
    case Older(lo, _, _, _, _, _, _) => Some(lo + 1)
    case Scanning(_, i, _, _, _, _) => Some(i)
    case _ => None
  }

  /** The state after one more answer, which is number `at` in the log. */
  function Advance(g: Goal, st: State, rd: Read, at: nat): State {
    if Asks(st) != Some(rd.r) then Off
    else match st
         case Probing(lo, high, above, below) =>
           if rd.elem.None? then Scan(g, LoopFallback, 0, None, g.keyMax, 0, at + 1)
           else if g.key(rd.elem.value) > g.target then Narrow(rd.r + 1, high, rd.n, below)
           else if g.key(rd.elem.value) < g.target then Narrow(lo, rd.r - 1, above, rd.n)
           else Done(Fast, rd.elem, rd.n, at)
         case AtLo(lo, hi, above, below) =>
           if rd.elem.None? then Scan(g, FinalFallback, 0, None, g.keyMax, 0, at + 1)
           else if lo > 0 then Newer(lo, hi, above, below, rd.elem.value, rd.n, at)
           else ToOlder(g, lo, hi, above, below, rd.elem.value, rd.n, at)
         case Newer(lo, hi, above, below, best, n, from) =>
           if Nearer(g, rd, g.Diff(best)) then ToOlder(g, lo, hi, above, below, rd.elem.value, rd.n, from)
           else ToOlder(g, lo, hi, above, below, best, n, from)
         case Older(lo, hi, above, below, best, n, from) =>
           if Nearer(g, rd, g.Diff(best)) then Done(Fast, rd.elem, rd.n, from) else Done(Fast, Some(best), n, from)
         case Scanning(path, i, held, diff, n, from) =>
           if Nearer(g, rd, diff) then Scan(g, path, i + 1, rd.elem, g.Diff(rd.elem.value), rd.n, from)
           else Scan(g, path, i + 1, held, diff, n, from)
  }

  predicate Nearer(g: Goal, rd: Read, diff: nat) {
    rd.elem.Some? && g.Diff(rd.elem.value) < diff
  }

  function Walk(g: Goal, st: State, rds: seq<Read>): State {
    if rds == [] then st
    else Advance(g, Walk(g, st, rds[..|rds| - 1]), rds[|rds| - 1], |rds| - 1)
  }

  lemma WalkOn(g: Goal, st: State, rds: seq<Read>, rd: Read)
    ensures Walk(g, st, rds + [rd]) == Advance(g, Walk(g, st, rds), rd, |rds|)
  {
    assert (rds + [rd])[..|rds|] == rds;
  }

  lemma ScanOn(g: Goal, path: Path, i: nat, held: Option<Value>, diff: nat, n: int, from: nat, rd: Read, at: nat)
    requires i < g.avail && rd.r == i
    ensures var st := Scan(g, path, i, held, diff, n, from);
            Advance(g, st, rd, at) ==
            if Nearer(g, rd, diff) then Scan(g, path, i + 1, rd.elem, g.Diff(rd.elem.value), rd.n, from)
            else Scan(g, path, i + 1, held, diff, n, from)
  {
  }

  lemma EndScan(g: Goal, path: Path, held: Option<Value>, diff: nat, n: int, from: nat)
    ensures Scan(g, path, g.avail, held, diff, n, from) == Done(path, held, n, from)
  {
  }

  /** The bounds of a state lie within the elements available. */
  predicate InBounds(g: Goal, st: State) {
    match st
    case Probing(lo, high, _, _) => lo < high < g.avail
    case AtLo(lo, hi, _, _) => lo < g.avail && hi < g.avail
    case Newer(lo, _, _, _, _, _, _) => 0 < lo < g.avail
    case Older(lo, _, _, _, _, _, _) => lo + 1 < g.avail
    case Scanning(_, i, _, _, _, _) => i < g.avail
    case _ => true
  }

  lemma StepInBounds(g: Goal, st: State, rd: Read, at: nat)
    requires InBounds(g, st) && !Advance(g, st, rd, at).Off?
    ensures InBounds(g, Advance(g, st, rd, at)) && rd.r < g.avail
  {
  }

  /** Every reverse index a query reads is in range, and its bounds never leave the range either. */
  lemma {:induction false} WalkInBounds(g: Goal, rds: seq<Read>)
    requires !Walk(g, Start(g), rds).Off?
    ensures InBounds(g, Walk(g, Start(g), rds)) && forall q :: 0 <= q < |rds| ==> rds[q].r < g.avail
    decreases rds
  {
    if rds != [] {
      WalkInBounds(g, rds[..|rds| - 1]);
      StepInBounds(g, Walk(g, Start(g), rds[..|rds| - 1]), rds[|rds| - 1], |rds| - 1);
      hide InBounds, Advance;
    }
  }

  /** The distance limit, applied. */
  function Limited(g: Goal, limit: Option<nat>, found: Option<Value>): Option<Value> {
    if found.Some? && limit.Some? && g.Diff(found.value) > limit.value then None else found
  }

  /** What the query returns: the scan after a failed read of the final `lo` is not given the limit. */
  function Result(g: Goal, st: State): Option<Value>
    requires st.Done?
  {
    Limited(g, if st.path == FinalFallback then None else g.limit, st.found)
  }

  // ---------------------------------------------------------------------------------------------
  // What the answers say
  // ---------------------------------------------------------------------------------------------

  /** Keys never decrease from insert `from` up to insert `end`. */
  ghost predicate Sorted(hist: seq<Value>, key: Value -> nat, from: int, end: nat) {
    0 <= from <= end <= |hist| && forall a, b :: from <= a <= b < end ==> key(hist[a]) <= key(hist[b])
  }

  /** The first insert from `from` on whose key exceeds the target, or `end` if there is none. */
  ghost function FirstAbove(hist: seq<Value>, key: Value -> nat, target: nat, from: nat, end: nat): (f: nat)
    requires from <= end <= |hist|
    ensures from <= f <= end
    ensures forall n :: from <= n < f ==> key(hist[n]) <= target
    ensures f < end ==> key(hist[f]) > target
    decreases end - from
  {
    if from == end || key(hist[from]) > target then from else FirstAbove(hist, key, target, from + 1, end)
  }

  lemma AboveIff(hist: seq<Value>, key: Value -> nat, target: nat, from: nat, end: nat, n: nat)
    requires Sorted(hist, key, from, end) && from <= n < end
    ensures FirstAbove(hist, key, target, from, end) <= n <==> key(hist[n]) > target
  {
    var f := FirstAbove(hist, key, target, from, end);
    if f <= n {
      assert key(hist[f]) <= key(hist[n]);
    }
  }

  /** No successful read from `from` on was nearer than d. */
  ghost predicate NoneNearer(g: Goal, rds: seq<Read>, from: nat, d: nat) {
    forall q :: from <= q < |rds| && rds[q].elem.Some? ==> d <= g.Diff(rds[q].elem.value)
  }

  ghost predicate IsRead(rds: seq<Read>, q: nat, elem: Value, n: int) {
    q < |rds| && rds[q].elem == Some(elem) && rds[q].n == n
  }

  /** Element `best`, insert n, is a nearest one of the successful reads from `from` on. */
  ghost predicate Nearest(g: Goal, rds: seq<Read>, from: nat, best: Value, n: int) {
    && NoneNearer(g, rds, from, g.Diff(best))
    && exists q: nat :: from <= q && IsRead(rds, q, best, n)
  }

  /** What the loop has learned by count c: the last insert it saw above the target lies just newer than
      `lo`, and the last one below just older than `hi`, each as the window stood when it was read. */
  ghost predicate Narrowed(v: View, g: Goal, w0: nat, c: nat, lo: nat, hi: int, above: int, below: int)
    requires v.counted <= |v.hist|
  {
    && (lo > 0 ==> 0 <= above < v.counted && g.key(v.hist[above]) > g.target && w0 <= above + lo <= c)
    && (hi < g.avail - 1 ==> 0 <= below < v.counted && g.key(v.hist[below]) < g.target && w0 <= below + 2 + hi <= c)
  }

  lemma NarrowedOn(v: View, g: Goal, w0: nat, c: nat, c': nat, lo: nat, hi: int, above: int, below: int)
    requires v.counted <= |v.hist| && Narrowed(v, g, w0, c, lo, hi, above, below) && c <= c'
    ensures Narrowed(v, g, w0, c', lo, hi, above, below)
  {
  }

  function Distance(v: View, g: Goal, n: int): nat
    requires 0 <= n < |v.hist|
  {
    g.Diff(v.hist[n])
  }

  /** Insert n is at minimum distance from the target among inserts from..end. */
  ghost predicate Closest(v: View, g: Goal, from: nat, end: nat, n: int) {
    && from <= n < end <= |v.hist|
    && forall j :: from <= j < end ==> Distance(v, g, n) <= Distance(v, g, j)
  }

  /** At most `1 + m` inserts before, and `m` after, the first insert of the starting window or later
      that exceeds the target, where m inserts were published meanwhile. */
  ghost predicate InInterval(v: View, g: Goal, w0: nat, n: int)
    requires g.avail <= w0 <= v.counted <= |v.hist|
  {
    var m, f := v.counted - w0, FirstAbove(v.hist, g.key, g.target, w0 - g.avail, v.counted);
    f - 1 - m <= n <= f + m
  }

  /** Insert n has the target's key, and so has the one 1 + m later. */
  ghost predicate Tied(v: View, g: Goal, w0: nat, n: int)
    requires 0 <= n && w0 <= v.counted <= |v.hist|
  {
    var m := v.counted - w0;
    n + 1 + m < v.counted && g.key(v.hist[n]) == g.target == g.key(v.hist[n + 1 + m])
  }

  /** Where a search on sorted keys ends up: within the interval, exactly unless it hit the target's
      key and the same key follows 1 + m inserts later. */
  ghost predicate BoundedError(v: View, g: Goal, w0: nat, n: int)
    requires g.avail <= w0 <= v.counted <= |v.hist|
  {
    0 <= n < v.counted
    && (Sorted(v.hist, g.key, w0 - g.avail, v.counted) ==> (InInterval(v, g, w0, n) <==> !Tied(v, g, w0, n)))
  }

  /** Nothing was published: the answer is closest in the whole window. */
  ghost predicate AtRest(v: View, g: Goal, w0: nat, n: int)
    requires g.avail <= w0
  {
    w0 == v.counted && Sorted(v.hist, g.key, w0 - g.avail, w0) ==> Closest(v, g, w0 - g.avail, w0, n)
  }

  // ---------------------------------------------------------------------------------------------
  // From what was learned to where the answer lies
  // ---------------------------------------------------------------------------------------------

  /** On a sorted window that stood still, where the loop stopped decides everything: nothing is
      closer than the best of `lo` and its two neighbours. */
  lemma NeighboursSuffice(v: View, g: Goal, lo: nat, hi: int, above: int, below: int, best: int)
    requires g.avail <= v.counted <= |v.hist| && Sorted(v.hist, g.key, v.counted - g.avail, v.counted)
    requires Narrowed(v, g, v.counted, v.counted, lo, hi, above, below)
    requires lo < g.avail && hi <= lo <= hi + 1
    requires v.counted - g.avail <= best < v.counted
    requires Distance(v, g, best) <= Distance(v, g, v.counted - 1 - lo)
    requires lo > 0 ==> Distance(v, g, best) <= Distance(v, g, v.counted - lo)
    requires lo + 1 < g.avail ==> Distance(v, g, best) <= Distance(v, g, v.counted - 2 - lo)
    ensures Closest(v, g, v.counted - g.avail, v.counted, best)
  {
    forall j | v.counted - g.avail <= j < v.counted
      ensures Distance(v, g, best) <= Distance(v, g, j)
    {
      if j > v.counted - 1 - lo {
        assert g.key(v.hist[above]) <= g.key(v.hist[j]);
      } else if j < v.counted - 1 - lo {
        assert g.key(v.hist[j]) <= g.key(v.hist[below]);
      }
    }
  }

  /** The bounded error under inserts. The final `lo` was read at count c; the answer, read at count w, is
      what was found there, or a neighbour strictly nearer to the target. It lies in the interval. */
  lemma ErrorBound(v: View, g: Goal, w0: nat, c: nat, lo: nat, hi: int, above: int, below: int, w: nat, r: int)
    requires g.avail <= w0 <= c <= w <= v.counted <= |v.hist| && Sorted(v.hist, g.key, w0 - g.avail, v.counted)
    requires Narrowed(v, g, w0, c, lo, hi, above, below)
    requires lo < g.avail && hi <= lo <= hi + 1 && 0 <= r < g.avail && lo - 1 <= r <= lo + 1
    requires (r == lo && w == c) || Distance(v, g, w - 1 - r) < Distance(v, g, c - 1 - lo)
    ensures InInterval(v, g, w0, w - 1 - r)
  {
    var from := w0 - g.avail;
    if hi < g.avail - 1 {
      AboveIff(v.hist, g.key, g.target, from, v.counted, below);
    }
    if lo > 0 {
      AboveIff(v.hist, g.key, g.target, from, v.counted, above);
    }
    if r != lo || w != c {
      AboveIff(v.hist, g.key, g.target, from, v.counted, c - 1 - lo);
      StrictlyNearer(v, g, from, c - 1 - lo, w - 1 - r);
    }
  }

  /** A strictly nearer element lies on the side of the other one where the target is. */
  lemma StrictlyNearer(v: View, g: Goal, from: nat, n: nat, n': nat)
    requires v.counted <= |v.hist| && Sorted(v.hist, g.key, from, v.counted)
    requires from <= n < v.counted && from <= n' < v.counted && Distance(v, g, n') < Distance(v, g, n)
    ensures if g.key(v.hist[n]) > g.target then n' < n else n < n'
  {
  }

  /** An exact hit obeys the bound if and only if the same key does not follow 1 + m inserts later. */
  lemma TieExactly(v: View, g: Goal, w0: nat, n: int)
    requires g.avail <= w0 <= v.counted <= |v.hist| && Sorted(v.hist, g.key, w0 - g.avail, v.counted)
    requires w0 - g.avail <= n < v.counted && g.key(v.hist[n]) == g.target
    ensures InInterval(v, g, w0, n) <==> !Tied(v, g, w0, n)
  {
    var m := v.counted - w0;
    AboveIff(v.hist, g.key, g.target, w0 - g.avail, v.counted, n);
    if n + 1 + m < v.counted {
      AboveIff(v.hist, g.key, g.target, w0 - g.avail, v.counted, n + 1 + m);
      assert g.key(v.hist[n]) <= g.key(v.hist[n + 1 + m]);
    }
  }

  /** The inserts from `from` up to `end` that carry the target's key. */
  ghost function Ties(v: View, g: Goal, from: nat, end: nat): set<int>
    requires end <= |v.hist|
  {
    set j: int | from <= j < end && g.key(v.hist[j]) == g.target
  }

  /** So the bound holds of every answer if at most 1 + m inserts of the window or later carry the
      target's key. */
  lemma FewTies(v: View, g: Goal, w0: nat, n: int)
    requires g.avail <= w0 <= v.counted <= |v.hist| && Sorted(v.hist, g.key, w0 - g.avail, v.counted)
    requires BoundedError(v, g, w0, n) && w0 - g.avail <= n
    requires |Ties(v, g, w0 - g.avail, v.counted)| <= 1 + v.counted - w0
    ensures InInterval(v, g, w0, n)
  {
    var m := v.counted - w0;
    if Tied(v, g, w0, n) {
      var run := Range(n, n + 2 + m);
      assert run <= Ties(v, g, w0 - g.avail, v.counted);
      SubsetSize(run, Ties(v, g, w0 - g.avail, v.counted));
      assert false;
    }
  }

  lemma {:induction false} Range(a: int, b: int) returns (run: set<int>)
    requires a <= b
    ensures |run| == b - a && forall j :: j in run <==> a <= j < b
    decreases b - a
  {
    if a == b {
      run := {};
    } else {
      run := Range(a, b - 1);
      run := run + {b - 1};
    }
  }

  lemma {:induction false} SubsetSize(a: set<int>, b: set<int>)
    requires a <= b
    ensures |a| <= |b|
  {
    assert b == a + (b - a);
  }

  // ---------------------------------------------------------------------------------------------
  // The invariant of the walk
  // ---------------------------------------------------------------------------------------------

  /** Around the final `lo`, read at `from` in the log: only it and its neighbours have been read since,
      the newer one first. */
  ghost predicate Repairing(v: View, g: Goal, w0: nat, rds: seq<Read>, lo: nat, hi: int, above: int, below: int,
                            best: Value, n: int, from: nat)
    requires v.counted <= |v.hist|
  {
    && lo < g.avail && hi <= lo <= hi + 1
    && from <= Log2(g.avail) && from < |rds| && rds[from].r == lo && rds[from].elem.Some?
    && (lo > 0 && from + 1 < |rds| ==> rds[from + 1].r == lo - 1)
    && (forall q :: from <= q < |rds| ==> lo - 1 <= rds[q].r <= lo + 1)
    && Nearest(g, rds, from, best, n) && Preferred(g, rds, from, best, n)
    && (Unlapped(rds) ==> Narrowed(v, g, w0, rds[from].w, lo, hi, above, below))
  }

  /** The element held is the one read at `from`, or one strictly nearer. */
  ghost predicate Preferred(g: Goal, rds: seq<Read>, from: nat, best: Value, n: int)
    requires from < |rds| && rds[from].elem.Some?
  {
    exists q: nat :: from <= q && IsRead(rds, q, best, n) && (q == from || g.Diff(best) < g.Diff(rds[from].elem.value))
  }

  /** The scan has read reverse indices below i, in order. */
  ghost predicate Swept(g: Goal, rds: seq<Read>, i: nat, held: Option<Value>, diff: nat, n: int, from: nat) {
    && |rds| == from + i
    && (forall q :: from <= q < |rds| ==> rds[q].r == q - from)
    && NoneNearer(g, rds, from, diff)
    && diff <= g.keyMax
    && (held.None? ==> diff == g.keyMax)
    && (held.Some? ==> diff == g.Diff(held.value) < g.keyMax && Nearest(g, rds, from, held.value, n))
  }

  ghost predicate StateInv(v: View, g: Goal, w0: nat, rds: seq<Read>, st: State)
    requires g.avail <= w0 <= v.counted <= |v.hist|
  {
    match st
    case Probing(lo, high, above, below) =>
      && lo < high < g.avail && |rds| + Log2(high + 1 - lo) <= Log2(g.avail)
      && (Unlapped(rds) ==> Narrowed(v, g, w0, LastCount(w0, rds), lo, high, above, below))
    case AtLo(lo, hi, above, below) =>
      && lo < g.avail && hi <= lo <= hi + 1 && |rds| <= Log2(g.avail)
      && (Unlapped(rds) ==> Narrowed(v, g, w0, LastCount(w0, rds), lo, hi, above, below))
    case Newer(lo, hi, above, below, best, n, from) =>
      lo > 0 && |rds| == from + 1 && Repairing(v, g, w0, rds, lo, hi, above, below, best, n, from)
    case Older(lo, hi, above, below, best, n, from) =>
      && lo + 1 < g.avail && |rds| == from + (if lo > 0 then 2 else 1)
      && Repairing(v, g, w0, rds, lo, hi, above, below, best, n, from)
    case Scanning(path, i, held, diff, n, from) =>
      i < g.avail && path != Fast && from <= Log2(g.avail) + 1 && Swept(g, rds, i, held, diff, n, from)
    case Done(path, found, n, from) =>
      if path != Fast then
        from <= Log2(g.avail) + 1 && Swept(g, rds, g.avail, found, if found.None? then g.keyMax else g.Diff(found.value), n, from)
      else if found.None? then g.avail == 0 && rds == []
      else FastEnd(v, g, w0, rds, found.value, n, from)
    case Off => true
  }

  /** The end of the fast path. */
  ghost predicate FastEnd(v: View, g: Goal, w0: nat, rds: seq<Read>, best: Value, n: int, from: nat)
    requires g.avail <= w0 <= v.counted <= |v.hist|
  {
    && g.avail > 0 && |rds| <= Log2(g.avail) + 3 && Nearest(g, rds, from, best, n)
    && (Unlapped(rds) ==> BoundedError(v, g, w0, n) && AtRest(v, g, w0, n))
  }

  lemma StartInv(v: View, g: Goal, w0: nat)
    requires g.avail <= w0 <= v.counted <= |v.hist|
    ensures StateInv(v, g, w0, [], Start(g))
  {
  }

  lemma ScanInv(v: View, g: Goal, w0: nat, rds: seq<Read>, path: Path)
    requires g.avail <= w0 <= v.counted <= |v.hist| && path != Fast && |rds| <= Log2(g.avail) + 1
    ensures StateInv(v, g, w0, rds, Scan(g, path, 0, None, g.keyMax, 0, |rds|))
  {
  }

  lemma NearestOn(g: Goal, rds: seq<Read>, rd: Read, from: nat, best: Value, n: int)
    requires Nearest(g, rds, from, best, n) && !Nearer(g, rd, g.Diff(best))
    ensures Nearest(g, rds + [rd], from, best, n)
  {
    var q: nat :| from <= q && IsRead(rds, q, best, n);
    assert IsRead(rds + [rd], q, best, n);
  }

  lemma NearestNow(g: Goal, rds: seq<Read>, rd: Read, from: nat, d: nat)
    requires NoneNearer(g, rds, from, d) && from <= |rds| && rd.elem.Some? && g.Diff(rd.elem.value) <= d
    ensures Nearest(g, rds + [rd], from, rd.elem.value, rd.n)
  {
    assert IsRead(rds + [rd], |rds|, rd.elem.value, rd.n);
  }

  /** A successful read that was not lapped. */
  lemma Targeted(v: View, g: Goal, w0: nat, rds: seq<Read>, rd: Read)
    requires Logged(v, w0, g.avail, rds + [rd])
    ensures rd.r < g.avail && w0 <= LastCount(w0, rds) <= rd.w <= v.counted && LastCount(w0, rds + [rd]) == rd.w
    ensures OnTarget(rd) ==>
              && w0 - g.avail <= rd.n == rd.w - 1 - rd.r < v.counted && rd.elem == Some(v.hist[rd.n])
  {
    var all := rds + [rd];
    assert LoggedRead(v, w0, g.avail, all[|rds|]);
    if rds != [] {
      assert all[|rds| - 1].w <= all[|rds|].w && LoggedRead(v, w0, g.avail, all[|rds| - 1]);
    }
  }

  /** An exact hit ends the query. */
  lemma ExactStep(v: View, g: Goal, w0: nat, rds: seq<Read>, rd: Read)
    requires Logged(v, w0, g.avail, rds + [rd]) && |rds| <= Log2(g.avail) && g.avail > 0
    requires rd.elem.Some? && g.key(rd.elem.value) == g.target
    ensures FastEnd(v, g, w0, rds + [rd], rd.elem.value, rd.n, |rds|)
  {
    Extend(rds, rd);
    Targeted(v, g, w0, rds, rd);
    NearestNow(g, rds, rd, |rds|, 0);
    if OnTarget(rd) && Sorted(v.hist, g.key, w0 - g.avail, v.counted) {
      TieExactly(v, g, w0, rd.n);
    }
  }

  /** A probe rules out one side of the range, although reverse indices shift. */
  lemma ProbeStep(v: View, g: Goal, w0: nat, rds: seq<Read>, rd: Read, lo: nat, high: nat, above: int, below: int)
    requires Logged(v, w0, g.avail, rds + [rd]) && lo <= rd.r <= high < g.avail
    requires Unlapped(rds) ==> Narrowed(v, g, w0, LastCount(w0, rds), lo, high, above, below)
    ensures Unlapped(rds + [rd]) ==> rd.elem.Some?
    ensures Unlapped(rds + [rd]) && g.key(rd.elem.value) > g.target ==>
              Narrowed(v, g, w0, LastCount(w0, rds + [rd]), rd.r + 1, high, rd.n, below)
    ensures Unlapped(rds + [rd]) && g.key(rd.elem.value) < g.target ==>
              Narrowed(v, g, w0, LastCount(w0, rds + [rd]), lo, rd.r - 1, above, rd.n)
  {
    Extend(rds, rd);
    Targeted(v, g, w0, rds, rd);
  }

  lemma ProbingInv(v: View, g: Goal, w0: nat, rds: seq<Read>, st: State, rd: Read)
    requires g.avail <= w0 <= v.counted <= |v.hist|
    requires Logged(v, w0, g.avail, rds + [rd]) && StateInv(v, g, w0, rds, st) && st.Probing?
    ensures StateInv(v, g, w0, rds + [rd], Advance(g, st, rd, |rds|))
  {
    hide Logged, Narrowed, FastEnd, Unlapped, Log2, Mid, Repairing, Swept, Nearest, NoneNearer, Sorted;
    Halved(st.lo, st.high);
    if Asks(st) == Some(rd.r) {
      if rd.elem.None? {
        ScanInv(v, g, w0, rds + [rd], LoopFallback);
      } else {
        ProbeStep(v, g, w0, rds, rd, st.lo, st.high, st.above, st.below);
        if g.key(rd.elem.value) == g.target {
          ExactStep(v, g, w0, rds, rd);
        }
      }
    }
  }

  /** The repair ends: what it holds was read within one reverse index of `lo`. */
  lemma RepairEnds(v: View, g: Goal, w0: nat, rds: seq<Read>, lo: nat, hi: int, above: int, below: int,
                   best: Value, n: int, from: nat)
    requires Logged(v, w0, g.avail, rds) && Repairing(v, g, w0, rds, lo, hi, above, below, best, n, from)
    requires |rds| == from + 1 + (if lo > 0 then 1 else 0) + (if lo + 1 < g.avail then 1 else 0)
    requires lo + 1 < g.avail ==> rds[|rds| - 1].r == lo + 1
    ensures FastEnd(v, g, w0, rds, best, n, from)
  {
    if Unlapped(rds) {
      RepairBounded(v, g, w0, rds, lo, hi, above, below, best, n, from);
      hide Logged, Nearest, Preferred, Unlapped, NoneNearer, Closest, Narrowed, BoundedError;
      if Sorted(v.hist, g.key, w0 - g.avail, v.counted) && w0 == v.counted {
        RepairAtRest(v, g, w0, rds, lo, hi, above, below, best, n, from);
      }
    }
  }

  lemma RepairBounded(v: View, g: Goal, w0: nat, rds: seq<Read>, lo: nat, hi: int, above: int, below: int,
                      best: Value, n: int, from: nat)
    requires Logged(v, w0, g.avail, rds) && Repairing(v, g, w0, rds, lo, hi, above, below, best, n, from) && Unlapped(rds)
    ensures w0 - g.avail <= n < v.counted && best == v.hist[n] && BoundedError(v, g, w0, n)
  {
    var q: nat :| from <= q && IsRead(rds, q, best, n) && (q == from || g.Diff(best) < g.Diff(rds[from].elem.value));
    OnTargetRead(v, g, w0, rds, q);
    OnTargetRead(v, g, w0, rds, from);
    assert rds[from].w <= rds[q].w;
    hide Logged, Nearest, Preferred, Unlapped, NoneNearer, InInterval, Tied, Narrowed, Sorted;
    if Sorted(v.hist, g.key, w0 - g.avail, v.counted) {
      ErrorBound(v, g, w0, rds[from].w, lo, hi, above, below, rds[q].w, rds[q].r);
      TiedIsHit(v, g, w0, n);
      if g.key(v.hist[n]) == g.target {
        TieExactly(v, g, w0, n);
      }
    }
  }

  lemma OnTargetRead(v: View, g: Goal, w0: nat, rds: seq<Read>, q: nat)
    requires Logged(v, w0, g.avail, rds) && Unlapped(rds) && q < |rds|
    ensures w0 <= rds[q].w <= v.counted && rds[q].r < g.avail
    ensures w0 - g.avail <= rds[q].n == rds[q].w - 1 - rds[q].r < v.counted && rds[q].elem == Some(v.hist[rds[q].n])
  {
    assert LoggedRead(v, w0, g.avail, rds[q]) && OnTarget(rds[q]);
  }

  lemma TiedIsHit(v: View, g: Goal, w0: nat, n: int)
    requires 0 <= n && w0 <= v.counted <= |v.hist|
    ensures Tied(v, g, w0, n) ==> g.key(v.hist[n]) == g.target
  {
  }

  lemma RepairAtRest(v: View, g: Goal, w0: nat, rds: seq<Read>, lo: nat, hi: int, above: int, below: int,
                     best: Value, n: int, from: nat)
    requires Logged(v, w0, g.avail, rds) && Repairing(v, g, w0, rds, lo, hi, above, below, best, n, from)
    requires |rds| == from + 1 + (if lo > 0 then 1 else 0) + (if lo + 1 < g.avail then 1 else 0)
    requires lo + 1 < g.avail ==> rds[|rds| - 1].r == lo + 1
    requires Unlapped(rds) && w0 == v.counted && Sorted(v.hist, g.key, w0 - g.avail, w0)
    requires w0 - g.avail <= n < w0 && best == v.hist[n]
    ensures Closest(v, g, w0 - g.avail, w0, n)
  {
    hide Closest, Narrowed, Unlapped, NoneNearer, IsRead, Sorted;
    var d := g.Diff(best);
    RestRead(v, g, w0, rds, from, d, from);
    if lo > 0 { RestRead(v, g, w0, rds, from, d, from + 1); }
    if lo + 1 < g.avail { RestRead(v, g, w0, rds, from, d, |rds| - 1); }
    NeighboursSuffice(v, g, lo, hi, above, below, n);
  }

  /** At rest a read that was not lapped speaks for the insert at its reverse index. */
  lemma RestRead(v: View, g: Goal, w0: nat, rds: seq<Read>, from: nat, d: nat, q: nat)
    requires Logged(v, w0, g.avail, rds) && Unlapped(rds) && w0 == v.counted
    requires NoneNearer(g, rds, from, d) && from <= q < |rds|
    ensures 0 <= w0 - 1 - rds[q].r < |v.hist| && d <= Distance(v, g, w0 - 1 - rds[q].r)
  {
    assert LoggedRead(v, w0, g.avail, rds[q]) && OnTarget(rds[q]);
  }

  lemma AtLoInv(v: View, g: Goal, w0: nat, rds: seq<Read>, st: State, rd: Read)
    requires g.avail <= w0 <= v.counted <= |v.hist|
    requires Logged(v, w0, g.avail, rds + [rd]) && StateInv(v, g, w0, rds, st) && st.AtLo?
    ensures StateInv(v, g, w0, rds + [rd], Advance(g, st, rd, |rds|))
  {
    hide Logged, Narrowed, FastEnd, Unlapped, Log2, Swept, NoneNearer, Nearest;
    Extend(rds, rd);
    if Asks(st) == Some(rd.r) {
      if rd.elem.None? {
        ScanInv(v, g, w0, rds + [rd], FinalFallback);
      } else {
        NothingRead(g, rds, g.Diff(rd.elem.value));
        NearestNow(g, rds, rd, |rds|, g.Diff(rd.elem.value));
        assert IsRead(rds + [rd], |rds|, rd.elem.value, rd.n);
        Targeted(v, g, w0, rds, rd);
        if Unlapped(rds) {
          NarrowedOn(v, g, w0, LastCount(w0, rds), rd.w, st.lo, st.hi, st.above, st.below);
        }
        if st.lo == 0 && !(st.lo + 1 < g.avail) {
          RepairEnds(v, g, w0, rds + [rd], st.lo, st.hi, st.above, st.below, rd.elem.value, rd.n, |rds|);
        }
      }
    }
  }

  lemma NothingRead(g: Goal, rds: seq<Read>, d: nat)
    ensures NoneNearer(g, rds, |rds|, d)
  {
  }

  /** One more read beside the final `lo`. */
  lemma RepairOn(v: View, g: Goal, w0: nat, rds: seq<Read>, rd: Read, lo: nat, hi: int, above: int, below: int,
                 best: Value, n: int, from: nat)
    requires v.counted <= |v.hist| && Repairing(v, g, w0, rds, lo, hi, above, below, best, n, from)
    requires rd.r == lo + 1 || rd.r == lo - 1
    requires |rds| == from + 1 && lo > 0 ==> rd.r == lo - 1
    ensures var closer := Nearer(g, rd, g.Diff(best));
            Repairing(v, g, w0, rds + [rd], lo, hi, above, below,
                      if closer then rd.elem.value else best, if closer then rd.n else n, from)
  {
    hide Narrowed, Log2, NoneNearer, Nearest;
    Extend(rds, rd);
    hide Unlapped;
    NearestIs(g, rds, from, best, n);
    PreferredOn(g, rds, rd, from, best, n);
    if Nearer(g, rd, g.Diff(best)) {
      NearestNow(g, rds, rd, from, g.Diff(best));
    } else {
      NearestOn(g, rds, rd, from, best, n);
    }
  }

  lemma PreferredOn(g: Goal, rds: seq<Read>, rd: Read, from: nat, best: Value, n: int)
    requires from < |rds| && rds[from].elem.Some? && Preferred(g, rds, from, best, n) && NoneNearer(g, rds, from, g.Diff(best))
    ensures var closer := Nearer(g, rd, g.Diff(best));
            Preferred(g, rds + [rd], from, if closer then rd.elem.value else best, if closer then rd.n else n)
  {
    if Nearer(g, rd, g.Diff(best)) {
      assert IsRead(rds + [rd], |rds|, rd.elem.value, rd.n);
    } else {
      var q: nat :| from <= q && IsRead(rds, q, best, n) && (q == from || g.Diff(best) < g.Diff(rds[from].elem.value));
      assert IsRead(rds + [rd], q, best, n);
    }
  }

  lemma NearestIs(g: Goal, rds: seq<Read>, from: nat, best: Value, n: int)
    requires Nearest(g, rds, from, best, n)
    ensures NoneNearer(g, rds, from, g.Diff(best))
  {
  }

  lemma NewerInv(v: View, g: Goal, w0: nat, rds: seq<Read>, st: State, rd: Read)
    requires g.avail <= w0 <= v.counted <= |v.hist|
    requires Logged(v, w0, g.avail, rds + [rd]) && StateInv(v, g, w0, rds, st) && st.Newer?
    ensures StateInv(v, g, w0, rds + [rd], Advance(g, st, rd, |rds|))
  {
    if Asks(st) == Some(rd.r) {
      RepairLast(rds, rd);
      hide Logged, Repairing, FastEnd, Log2, Nearer;
      NearerIsSome(g, rd, g.Diff(st.best));
      RepairOn(v, g, w0, rds, rd, st.lo, st.hi, st.above, st.below, st.best, st.n, st.from);
      if !(st.lo + 1 < g.avail) {
        var closer := Nearer(g, rd, g.Diff(st.best));
        RepairEnds(v, g, w0, rds + [rd], st.lo, st.hi, st.above, st.below,
                   if closer then rd.elem.value else st.best, if closer then rd.n else st.n, st.from);
      }
    }
  }

  lemma OlderInv(v: View, g: Goal, w0: nat, rds: seq<Read>, st: State, rd: Read)
    requires g.avail <= w0 <= v.counted <= |v.hist|
    requires Logged(v, w0, g.avail, rds + [rd]) && StateInv(v, g, w0, rds, st) && st.Older?
    ensures StateInv(v, g, w0, rds + [rd], Advance(g, st, rd, |rds|))
  {
    if Asks(st) == Some(rd.r) {
      RepairLast(rds, rd);
      hide Logged, Repairing, FastEnd, Log2, Nearer;
      NearerIsSome(g, rd, g.Diff(st.best));
      RepairOn(v, g, w0, rds, rd, st.lo, st.hi, st.above, st.below, st.best, st.n, st.from);
      var closer := Nearer(g, rd, g.Diff(st.best));
      RepairEnds(v, g, w0, rds + [rd], st.lo, st.hi, st.above, st.below,
                 if closer then rd.elem.value else st.best, if closer then rd.n else st.n, st.from);
    }
  }

  lemma RepairLast(rds: seq<Read>, rd: Read)
    ensures (rds + [rd])[|rds + [rd]| - 1] == rd && |rds + [rd]| == |rds| + 1
  {
  }

  lemma NearerIsSome(g: Goal, rd: Read, d: nat)
    ensures Nearer(g, rd, d) ==> rd.elem.Some?
  {
  }

  /** One more read of the scan. */
  lemma SweptOn(g: Goal, rds: seq<Read>, rd: Read, i: nat, held: Option<Value>, diff: nat, n: int, from: nat)
    requires Swept(g, rds, i, held, diff, n, from) && rd.r == i
    ensures var closer := Nearer(g, rd, diff);
            Swept(g, rds + [rd], i + 1, if closer then rd.elem else held,
                  if closer then g.Diff(rd.elem.value) else diff, if closer then rd.n else n, from)
  {
    if Nearer(g, rd, diff) {
      NearestNow(g, rds, rd, from, diff);
    } else if held.Some? {
      NearestOn(g, rds, rd, from, held.value, n);
    }
  }

  lemma SweepInv(v: View, g: Goal, w0: nat, rds: seq<Read>, st: State, rd: Read)
    requires g.avail <= w0 <= v.counted <= |v.hist| && StateInv(v, g, w0, rds, st) && st.Scanning?
    ensures StateInv(v, g, w0, rds + [rd], Advance(g, st, rd, |rds|))
  {
    if Asks(st) == Some(rd.r) {
      SweptOn(g, rds, rd, st.i, st.held, st.diff, st.n, st.from);
    }
  }

  /** Every answer keeps the invariant. */
  lemma AdvanceInv(v: View, g: Goal, w0: nat, rds: seq<Read>, st: State, rd: Read)
    requires g.avail <= w0 <= v.counted <= |v.hist|
    requires Logged(v, w0, g.avail, rds + [rd]) && StateInv(v, g, w0, rds, st)
    ensures StateInv(v, g, w0, rds + [rd], Advance(g, st, rd, |rds|))
  {
    match st
    case Probing(_, _, _, _) => ProbingInv(v, g, w0, rds, st, rd);
    case AtLo(_, _, _, _) => AtLoInv(v, g, w0, rds, st, rd);
    case Newer(_, _, _, _, _, _, _) => NewerInv(v, g, w0, rds, st, rd);
    case Older(_, _, _, _, _, _, _) => OlderInv(v, g, w0, rds, st, rd);
    case Scanning(_, _, _, _, _, _) => SweepInv(v, g, w0, rds, st, rd);
    case _ =>
  }

  /** After any log of answers, from the beginning of a query or of a scan. */
  lemma {:induction false} WalkInv(v: View, g: Goal, w0: nat, st: State, rds: seq<Read>)
    requires Logged(v, w0, g.avail, rds) && StateInv(v, g, w0, [], st)
    ensures StateInv(v, g, w0, rds, Walk(g, st, rds))
    decreases rds
  {
    if rds != [] {
      var front, rd := rds[..|rds| - 1], rds[|rds| - 1];
      assert rds == front + [rd];
      LogFront(v, w0, g.avail, rds);
      hide StateInv, Logged, Advance;
      WalkInv(v, g, w0, st, front);
      AdvanceInv(v, g, w0, front, Walk(g, st, front), rd);
    }
  }

  // ---------------------------------------------------------------------------------------------
  // The theorems
  // ---------------------------------------------------------------------------------------------

  /** A whole query, as its log tells it. */
  ghost predicate Query(v: View, g: Goal, w0: nat, rds: seq<Read>) {
    Logged(v, w0, g.avail, rds) && Walk(g, Start(g), rds).Done?
  }

  /** Cost, whatever the writer does: log2 probes and at most three reads, or a scan after them. */
  lemma QueryCost(v: View, g: Goal, w0: nat, rds: seq<Read>)
    requires Query(v, g, w0, rds)
    ensures forall q :: 0 <= q < |rds| ==> rds[q].attempts <= 5
    ensures |rds| <= Log2(g.avail) + if Walk(g, Start(g), rds).path == Fast then 3 else 1 + g.avail
  {
    StartInv(v, g, w0);
    WalkInv(v, g, w0, Start(g), rds);
    assert forall q :: 0 <= q < |rds| ==> LoggedRead(v, w0, g.avail, rds[q]);
  }

  /** What is found was read, and nothing nearer was read since the comparisons began; on a fallback
      those are all the reads of a scan of every reverse index. */
  lemma QueryFindsNearest(v: View, g: Goal, w0: nat, rds: seq<Read>)
    requires Query(v, g, w0, rds)
    ensures var st := Walk(g, Start(g), rds);
            && st.from <= |rds|
            && (st.found.Some? ==> Nearest(g, rds, st.from, st.found.value, st.n))
            && (st.found.None? ==> NoneNearer(g, rds, st.from, g.keyMax))
            && (st.path != Fast ==>
                  && |rds| == st.from + g.avail
                  && (forall q :: st.from <= q < |rds| ==> rds[q].r == q - st.from)
                  && (st.found.Some? ==> g.Diff(st.found.value) < g.keyMax))
  {
    StartInv(v, g, w0);
    WalkInv(v, g, w0, Start(g), rds);
  }

  /** While fewer than 2^31 inserts begin, what is found is the argument of one insert, none older than
      the starting window. */
  lemma QueryGenuine(v: View, g: Goal, w0: nat, rds: seq<Read>)
    requires Query(v, g, w0, rds) && |v.hist| - w0 < HALF
    ensures var st := Walk(g, Start(g), rds);
            st.found.Some? ==> Genuine(v, w0, g.avail, st.n, st.found.value)
  {
    QueryFindsNearest(v, g, w0, rds);
    BriefIsSound(v, w0, g.avail, rds);
    var st := Walk(g, Start(g), rds);
    if st.found.Some? {
      var q: nat :| st.from <= q && IsRead(rds, q, st.found.value, st.n);
      assert LoggedRead(v, w0, g.avail, rds[q]);
    }
  }

  /** Only a failed read leads to a scan. */
  lemma {:induction false} UnlappedIsFast(v: View, g: Goal, rds: seq<Read>)
    requires Unlapped(rds)
    ensures OnFast(Walk(g, Start(g), rds))
    decreases rds
  {
    if rds != [] {
      var front, rd := rds[..|rds| - 1], rds[|rds| - 1];
      assert rds == front + [rd];
      Extend(front, rd);
      hide Unlapped, OnFast, Advance;
      UnlappedIsFast(v, g, front);
      StepFast(g, Walk(g, Start(g), front), rd, |front|);
    }
  }

  /** Not in a scan, nor at the end of one. */
  predicate OnFast(st: State) {
    !st.Scanning? && (st.Done? ==> st.path == Fast)
  }

  lemma StepFast(g: Goal, st: State, rd: Read, at: nat)
    requires OnFast(st) && rd.elem.Some?
    ensures OnFast(Advance(g, st, rd, at))
  {
  }

  /** Bounded error: if m inserts are published meanwhile and no read is lapped, the insert found lies in
      [f - 1 - m, f + m], unless it is one of more than 1 + m with the target's key. */
  lemma QueryBounded(v: View, g: Goal, w0: nat, rds: seq<Read>)
    requires Query(v, g, w0, rds) && Unlapped(rds)
    ensures var st := Walk(g, Start(g), rds);
            && st.path == Fast && (st.found.Some? <==> g.avail > 0)
            && (st.found.Some? ==> Genuine(v, w0, g.avail, st.n, st.found.value) && BoundedError(v, g, w0, st.n))
  {
    StartInv(v, g, w0);
    WalkInv(v, g, w0, Start(g), rds);
    UnlappedIsFast(v, g, rds);
    var st := Walk(g, Start(g), rds);
    if st.found.Some? {
      var q: nat :| st.from <= q && IsRead(rds, q, st.found.value, st.n);
      assert LoggedRead(v, w0, g.avail, rds[q]) && OnTarget(rds[q]);
    }
  }

  lemma FindsClosest(v: View, g: Goal, w0: nat, rds: seq<Read>)
    requires Query(v, g, w0, rds) && Unlapped(rds) && w0 == v.counted && Sorted(v.hist, g.key, w0 - g.avail, w0)
    ensures var st := Walk(g, Start(g), rds);
            && st.path == Fast && (st.found.Some? <==> g.avail > 0)
            && (st.found.Some? ==> Closest(v, g, w0 - g.avail, w0, st.n) && st.found.value == v.hist[st.n])
  {
    hide Walk, Sorted, Closest;
    QueryBounded(v, g, w0, rds);
    StartInv(v, g, w0);
    WalkInv(v, g, w0, Start(g), rds);
  }

  /** The reverse index of the first probe. */
  function Middle(g: Goal): nat {
    if g.avail >= 2 then Mid(0, g.avail - 1) else 0
  }

  /** At the end the element half a window back is still below the target, and at most about half a lap of
      inserts has begun. */
  ghost predicate Recent(v: View, g: Goal, w0: nat) {
    && 2 <= g.avail <= w0 <= v.counted <= |v.hist| && Sorted(v.hist, g.key, w0 - g.avail, v.counted)
    && Middle(g) < g.avail && |v.hist| <= w0 - 2 - Middle(g) + v.cap
    && g.key(v.hist[v.counted - 1 - Middle(g)]) < g.target
  }

  /** No read went deeper than just past the middle, nor was lapped. */
  ghost predicate InNewerHalf(g: Goal, rds: seq<Read>) {
    && Unlapped(rds)
    && (forall q :: 0 <= q < |rds| ==> rds[q].r <= Middle(g) + 1)
    && (rds != [] ==> NewerHalf(Walk(g, Start(g), rds), Middle(g)))
  }

  /** A recent target: the search turns to the newer half at once, and no read is lapped. */
  lemma {:induction false} RecentTarget(v: View, g: Goal, w0: nat, rds: seq<Read>)
    requires Logged(v, w0, g.avail, rds) && !Walk(g, Start(g), rds).Off? && Recent(v, g, w0)
    ensures InNewerHalf(g, rds)
    decreases rds
  {
    if rds != [] {
      var front, rd := rds[..|rds| - 1], rds[|rds| - 1];
      assert rds == front + [rd];
      LogFront(v, w0, g.avail, rds);
      WalkOn(g, Start(g), front, rd);
      OffStays(g, Walk(g, Start(g), front), rd, |front|);
      hide Logged, Recent, InNewerHalf, Advance, Walk, Start;
      RecentTarget(v, g, w0, front);
      RecentStep(v, g, w0, front, rd);
    }
  }

  lemma OffStays(g: Goal, st: State, rd: Read, at: nat)
    ensures st.Off? ==> Advance(g, st, rd, at).Off?
  {
  }

  lemma RecentStep(v: View, g: Goal, w0: nat, front: seq<Read>, rd: Read)
    requires Logged(v, w0, g.avail, front + [rd]) && Recent(v, g, w0) && InNewerHalf(g, front)
    requires !Advance(g, Walk(g, Start(g), front), rd, |front|).Off?
    ensures InNewerHalf(g, front + [rd])
  {
    hide Logged, Recent, Advance, NewerHalf, Start, Unlapped, OnTarget, Middle;
    var st := Walk(g, Start(g), front);
    if front == [] {
      RecentFirst(v, g, w0, front, rd);
    } else {
      NewerHalfStep(g, st, rd, |front|, Middle(g));
    }
    Extend(front, rd);
    WalkOn(g, Start(g), front, rd);
    RoomThen(v, g, w0, front, rd);
    TargetedIsSome(rd);
    hide Walk;
  }

  lemma TargetedIsSome(rd: Read)
    ensures OnTarget(rd) ==> rd.elem.Some?
  {
  }

  lemma RoomThen(v: View, g: Goal, w0: nat, front: seq<Read>, rd: Read)
    requires Logged(v, w0, g.avail, front + [rd]) && Recent(v, g, w0)
    ensures rd.r <= Middle(g) + 1 ==> OnTarget(rd)
  {
    assert LoggedRead(v, w0, g.avail, (front + [rd])[|front|]);
  }

  /** The first probe turns to the newer half. */
  lemma RecentFirst(v: View, g: Goal, w0: nat, front: seq<Read>, rd: Read)
    requires Logged(v, w0, g.avail, front + [rd]) && Recent(v, g, w0) && !Advance(g, Start(g), rd, 0).Off?
    ensures rd.r == Middle(g) && NewerHalf(Advance(g, Start(g), rd, 0), Middle(g))
  {
    RoomThen(v, g, w0, front, rd);
    Targeted(v, g, w0, front, rd);
    assert g.key(rd.elem.value) <= g.key(v.hist[v.counted - 1 - Middle(g)]);
  }

  lemma NewerHalfStep(g: Goal, st: State, rd: Read, at: nat, mid: nat)
    requires NewerHalf(st, mid) && !Advance(g, st, rd, at).Off?
    ensures rd.r <= mid + 1
    ensures rd.elem.Some? ==> NewerHalf(Advance(g, st, rd, at), mid)
  {
  }

  predicate NewerHalf(st: State, mid: nat) {
    match st
    case Probing(_, high, _, _) => high < mid
    case AtLo(lo, _, _, _) => lo <= mid
    case Newer(lo, _, _, _, _, _, _) => lo <= mid
    case Older(lo, _, _, _, _, _, _) => lo <= mid
    case Scanning(_, _, _, _, _, _) => false
    case _ => true
  }

  /** Optimality: on a sorted window, with nothing published meanwhile and no read lapped, a closest element of the
      window; nothing exactly when the window is empty or lies wholly beyond the limit. */
  lemma QueryOptimal(v: View, g: Goal, w0: nat, rds: seq<Read>)
    requires Query(v, g, w0, rds) && Unlapped(rds) && w0 == v.counted && Sorted(v.hist, g.key, w0 - g.avail, w0)
    ensures match Result(g, Walk(g, Start(g), rds))
            case Some(e) =>
              var n := Walk(g, Start(g), rds).n;
              && Closest(v, g, w0 - g.avail, w0, n) && e == v.hist[n]
              && (g.limit.Some? ==> g.Diff(e) <= g.limit.value)
            case None =>
              g.avail == 0 || (g.limit.Some? && forall j :: w0 - g.avail <= j < w0 ==> Distance(v, g, j) > g.limit.value)
  {
    hide Walk, Sorted, Start;
    FindsClosest(v, g, w0, rds);
  }

  /** Read p was that of the final `lo`, and it failed. */
  ghost predicate LoFailed(g: Goal, rds: seq<Read>, p: nat) {
    p < |rds| && Walk(g, Start(g), rds[..p]).AtLo? && rds[p].elem.None?
  }

  /** From `from` on only elements beyond the limit were read, and one of them within the key maximum. */
  ghost predicate OnlyBeyond(g: Goal, rds: seq<Read>, from: nat, limit: nat) {
    && NoneNearer(g, rds, from, limit + 1)
    && exists q :: from <= q < |rds| && rds[q].elem.Some? && g.Diff(rds[q].elem.value) < g.keyMax
  }

  lemma {:induction false} LoFailedThen(g: Goal, rds: seq<Read>)
    requires var st := Walk(g, Start(g), rds); (st.Scanning? || st.Done?) && st.path == FinalFallback
    ensures var st := Walk(g, Start(g), rds); st.from > 0 && LoFailed(g, rds, st.from - 1)
    decreases rds
  {
    hide Nearer, Mid;
    if rds != [] {
      var front := rds[..|rds| - 1];
      var st := Walk(g, Start(g), front);
      if (st.Scanning? || st.Done?) && st.path == FinalFallback {
        LoFailedThen(g, front);
        assert front[..st.from - 1] == rds[..st.from - 1];
      }
    }
  }

  lemma {:induction false} ScansAfterLo(g: Goal, rds: seq<Read>, p: nat)
    requires LoFailed(g, rds, p)
    ensures var st := Walk(g, Start(g), rds);
            st.Off? || ((st.Scanning? || st.Done?) && st.path == FinalFallback && st.from == p + 1)
    decreases rds
  {
    var front := rds[..|rds| - 1];
    if p < |front| {
      assert front[..p] == rds[..p];
      ScansAfterLo(g, front, p);
    }
  }

  /** The distance limit is broken if and only if the read of the final `lo` failed and the scan that
      follows met only elements beyond the limit. */
  lemma LimitExactly(v: View, g: Goal, w0: nat, rds: seq<Read>)
    requires Query(v, g, w0, rds) && g.limit.Some?
    ensures var res := Result(g, Walk(g, Start(g), rds));
            (res.Some? && g.Diff(res.value) > g.limit.value)
            <==> exists p: nat :: LoFailed(g, rds, p) && OnlyBeyond(g, rds, p + 1, g.limit.value)
  {
    QueryFindsNearest(v, g, w0, rds);
    var st := Walk(g, Start(g), rds);
    if st.path == FinalFallback && st.found.Some? && g.Diff(st.found.value) > g.limit.value {
      LoFailedThen(g, rds);
      assert OnlyBeyond(g, rds, st.from - 1 + 1, g.limit.value);
    }
    if p: nat :| LoFailed(g, rds, p) && OnlyBeyond(g, rds, p + 1, g.limit.value) {
      ScansAfterLo(g, rds, p);
    }
  }

  /** The search and a scan of its own reach the same distance at rest, unless nothing is nearer than
      the key maximum: then the scan alone comes back empty-handed. */
  lemma ClosestFormsAgree(v: View, g: Goal, w0: nat, rds: seq<Read>, rds': seq<Read>)
    requires Query(v, g, w0, rds) && Unlapped(rds) && Unlapped(rds') && w0 == v.counted
    requires Sorted(v.hist, g.key, w0 - g.avail, w0) && g.avail > 0
    requires Logged(v, w0, g.avail, rds') && Walk(g, Scan(g, LoopFallback, 0, None, g.keyMax, 0, 0), rds').Done?
    ensures var found := Walk(g, Start(g), rds).found;
            var found' := Walk(g, Scan(g, LoopFallback, 0, None, g.keyMax, 0, 0), rds').found;
            && found.Some?
            && (found'.Some? <==> g.Diff(found.value) < g.keyMax)
            && (found'.Some? ==> g.Diff(found'.value) == g.Diff(found.value))
  {
    hide Walk, Sorted, Closest;
    FindsClosest(v, g, w0, rds);
    ScanInv(v, g, w0, [], LoopFallback);
    WalkInv(v, g, w0, Scan(g, LoopFallback, 0, None, g.keyMax, 0, 0), rds');
    ScanKeepsPath(g, Scan(g, LoopFallback, 0, None, g.keyMax, 0, 0), rds');
    var st, st' := Walk(g, Start(g), rds), Walk(g, Scan(g, LoopFallback, 0, None, g.keyMax, 0, 0), rds');
    var diff := if st'.found.None? then g.keyMax else g.Diff(st'.found.value);
    ScanAtRest(v, g, w0, rds', st'.found, diff, st'.n);
    ClosestIs(v, g, w0 - g.avail, w0, st.n);
    assert diff <= Distance(v, g, st.n) == g.Diff(st.found.value);
  }

  lemma {:induction false} ScanKeepsPath(g: Goal, st: State, rds: seq<Read>)
    requires (st.Scanning? || st.Done?) && st.path == LoopFallback && st.from == 0
    ensures var t := Walk(g, st, rds); t.Off? || ((t.Scanning? || t.Done?) && t.path == LoopFallback && t.from == 0)
    decreases rds
  {
    if rds != [] {
      ScanKeepsPath(g, st, rds[..|rds| - 1]);
    }
  }

  lemma ClosestIs(v: View, g: Goal, from: nat, end: nat, n: int)
    requires Closest(v, g, from, end, n)
    ensures from <= n < end <= |v.hist|
    ensures forall j :: from <= j < end ==> Distance(v, g, n) <= Distance(v, g, j)
  {
  }

  /** A scan that was not lapped, over a window that stood still. */
  lemma ScanAtRest(v: View, g: Goal, w0: nat, rds: seq<Read>, held: Option<Value>, diff: nat, n: int)
    requires Logged(v, w0, g.avail, rds) && Unlapped(rds) && w0 == v.counted
    requires Swept(g, rds, g.avail, held, diff, n, 0)
    ensures forall j :: w0 - g.avail <= j < w0 ==> diff <= Distance(v, g, j)
    ensures held.Some? ==> w0 - g.avail <= n < w0 && diff == Distance(v, g, n)
  {
    forall j | w0 - g.avail <= j < w0
      ensures diff <= Distance(v, g, j)
    {
      RestRead(v, g, w0, rds, 0, diff, w0 - 1 - j);
    }
    if held.Some? {
      var q: nat :| IsRead(rds, q, held.value, n);
      assert LoggedRead(v, w0, g.avail, rds[q]) && OnTarget(rds[q]);
    }
  }
}
