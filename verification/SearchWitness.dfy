/** Runs in which the searches do what their callers would not expect: an answer beyond the distance
    limit, an exact hit far from its place, and a pair that has left the target. */
module SearchWitness {
  import opened Bits
  import opened Options
  import opened RingProtocol
  import opened RingSafety
  import opened RingReader
  import opened RingWitness
  import opened SearchSpec
  import opened InterpolationSpec
  import opened SearchRuns

  /** A read whose loads all happen at one moment, with the writer idle. */
  lemma ReadAt(run: seq<Ring>, t: nat, r: nat) returns (rd: Read, tries: seq<Attempt>)
    requires Run(run) && t < |run| && run[t].writer == Idle && |run[t].started| < U64
    requires r < |run[t].started| && r < Pow2(run[t].k)
    ensures ReadIn(run, rd, tries, t, t)
    ensures var w := |run[t].started|; rd == Read(r, w, 1, Some(run[t].started[w - 1 - r]), 0, w - 1 - r)
  {
    RunInv(run, t);
    IdleSlot(run[t], r);
    hide Inv, Accepted, Holds, SlotFor;
    var a := AttemptAt(run, t, SlotFor(run[t], r));
    tries := [a];
    rd := Read(r, |run[t].started|, 1, Some(a.out), 0, ReadIndex(run, a));
  }

  /** A read that loaded the count at time b and made all its attempts while its slot was written. */
  lemma FailAt(run: seq<Ring>, b: nat, t: nat, r: nat) returns (rd: Read, tries: seq<Attempt>)
    requires Run(run) && b <= t < |run| && run[b].writer == Idle && |run[b].started| < U64
    requires r < |run[b].started| && r < Pow2(run[b].k)
    requires run[t].writer.Copying? && |run[t].started| == |run[b].started| - r + Pow2(run[b].k)
    ensures ReadIn(run, rd, tries, b, t) && rd == Read(r, |run[b].started|, 5, None, 0, 0)
  {
    RunInv(run, b);
    RunInv(run, t);
    RunLater(run, b, t);
    ModSmall(Counted(run[b]), U64);
    var i := SlotFor(run[b], r);
    RequestedSlot(run[b], run[t], r);
    OddSlot(run[t], |run[b].started| - 1 - r);
    var a := Attempt(i, t, [], t, []);
    tries := [a, a, a, a, a];
    rd := Read(r, |run[b].started|, 5, None, 0, 0);
  }

  /** The slot under copy is odd: it is that of the insert one lap before. */
  lemma OddSlot(s: Ring, n: nat)
    requires Inv(s) && s.writer.Copying? && |s.started| - 1 == n + Cap(s)
    ensures n % Cap(s) < |s.slots| && s.slots[n % Cap(s)].counter % 2 == 1
  {
    assert |s.slots| == Cap(s);
    NextLap(Cap(s), n);
    assert UnderCopy(s, n % Cap(s));
    hide Pow2, UnderCopy, Inv;
    CopiedIsOdd(s, n % Cap(s));
  }

  lemma NextLap(cap: nat, n: nat)
    requires cap > 0
    ensures n % cap < cap && (n + cap) % cap == n % cap
  {
    DivMod(n, cap);
    assert cap * (n / cap + 1) == cap * (n / cap) + cap;
    ModUnique(n + cap, cap, n / cap + 1, n % cap);
  }

  // ---------------------------------------------------------------------------------------------
  // Equal keys
  // ---------------------------------------------------------------------------------------------

  /** The tie is real: in every capacity of four or more, three inserts of one value and a search for its
      key, with nothing else going on, end two places before the first insert above the target. */
  lemma TieEscapes(k: nat, g: Goal, v: Value) returns (run: seq<Ring>, t: nat, rds: seq<Read>, st: State)
    requires 2 <= k < 64 && g.avail == 3 && g.key(v) == g.target
    ensures ClosestIn(run, t, g, rds, Some(v)) && st == Walk(g, Start(g), rds) == Done(Fast, Some(v), 1, 0)
    ensures t < |run| && ViewOf(run[t]) == View(Pow2(k), [v, v, v], 3) && Unlapped(rds)
    ensures Tied(View(Pow2(k), [v, v, v], 3), g, 3, st.n)
    ensures !InInterval(View(Pow2(k), [v, v, v], 3), g, 3, st.n)
  {
    FourSlots(k);
    run := InitRun(k, |v|);
    run := InsertAll(run, [v, v, v]);
    t := |run| - 1;
    var rd := LookOnce(run, t, 1);
    rds := [rd];
    st := Done(Fast, Some(v), 1, 0);
    AvailableNow(run, t);
    hide Run, Inv, AvailableAt, LogIn, Tied, InInterval, Walk, Pow2;
    TieWalk(g, v, rd);
    ThreeTies(k, g, v);
  }

  /** One read, with the writer idle. */
  lemma LookOnce(run: seq<Ring>, t: nat, r: nat) returns (rd: Read)
    requires Run(run) && t < |run| && run[t].writer == Idle && |run[t].started| < U64
    requires r < |run[t].started| && r < Pow2(run[t].k)
    ensures LogIn(run, [rd], t)
    ensures var w := |run[t].started|; rd == Read(r, w, 1, Some(run[t].started[w - 1 - r]), 0, w - 1 - r)
  {
    var tries;
    rd, tries := ReadAt(run, t, r);
    hide ReadIn, Run;
    assert LogAt(run, [rd], t, [tries], [t, t]);
  }

  lemma AvailableNow(run: seq<Ring>, t: nat)
    requires Run(run) && t < |run| && run[t].writer == Idle && |run[t].started| < U64 && |run[t].started| <= Pow2(run[t].k)
    ensures AvailableAt(run, t, |run[t].started|)
  {
    RunInv(run, t);
    ModSmall(|run[t].started|, U64);
  }

  lemma TieWalk(g: Goal, v: Value, rd: Read)
    requires g.avail == 3 && g.key(v) == g.target && rd == Read(1, 3, 1, Some(v), 0, 1)
    ensures Walk(g, Start(g), [rd]) == Done(Fast, Some(v), 1, 0) && Result(g, Done(Fast, Some(v), 1, 0)) == Some(v)
  {
    assert [rd][..0] == [] && Start(g) == Probing(0, 2, 0, 0);
  }

  lemma ThreeTies(k: nat, g: Goal, v: Value)
    requires g.avail == 3 && g.key(v) == g.target
    ensures Tied(View(Pow2(k), [v, v, v], 3), g, 3, 1)
    ensures !InInterval(View(Pow2(k), [v, v, v], 3), g, 3, 1)
  {
    TieExactly(View(Pow2(k), [v, v, v], 3), g, 3, 1);
  }

  lemma FourSlots(k: nat)
    requires k >= 2
    ensures Pow2(k) >= 4
  {
    Pow2Order(2, k);
    assert Pow2(2) == 4;
  }

  // ---------------------------------------------------------------------------------------------
  // The distance limit
  // ---------------------------------------------------------------------------------------------

  /** In every capacity, for every limit and every element beyond it but within the key maximum: one
      insert, and a search that begins there. Before it reads its only element the writer comes round
      to that slot; the five attempts fail, the scan finds the element again, and it is returned. */
  lemma LimitDropped(k: nat, g: Goal, v: Value) returns (run: seq<Ring>, t: nat, rds: seq<Read>)
    requires k < 64 && g.avail == 1 && g.limit.Some? && g.limit.value < g.Diff(v) < g.keyMax
    ensures ClosestIn(run, t, g, rds, Some(v))
    ensures Walk(g, Start(g), rds) == Done(FinalFallback, Some(v), Pow2(k), 1)
  {
    var t1, t2: nat;
    run, t, t1, t2 := Overtaken(k, v);
    var rd, tries := FailAt(run, t, t1, 0);
    var rd', tries' := ReadAt(run, t2, 0);
    rds := [rd, rd'];
    assert LogAt(run, rds, t, [tries, tries'], [t, t2, t2]) by {
      ReadLonger(run, rd, tries, t, t1, t2);
    }
    assert LogIn(run, rds, t);
    AvailableNow(run, t);
    hide Run, Inv, LogAt, ReadIn, AvailableAt, LogIn;
    DroppedWalk(g, v, rd, rd');
  }

  /** A run in which one insert of v is finished at t; at t1 the writer, a lap later, copies into the
      same slot; at t2 it has finished. */
  lemma Overtaken(k: nat, v: Value) returns (run: seq<Ring>, t: nat, t1: nat, t2: nat)
    requires k < 64
    ensures Run(run) && t <= t1 <= t2 < |run|
    ensures run[t].writer == Idle && run[t].started == [v] && run[t].k == run[t1].k == run[t2].k == k
    ensures run[t1].writer.Copying? && |run[t1].started| == 1 + Pow2(k)
    ensures run[t2].writer == Idle && |run[t2].started| == 1 + Pow2(k) < U64 && run[t2].started[Pow2(k)] == v
  {
    Pow2Small64(k);
    run := InitRun(k, |v|);
    run := WholeInsert(run, v);
    t := |run| - 1;
    run := ManyInserts(run, v, Pow2(k) - 1);
    run := ToCopying(run, v);
    t1 := |run| - 1;
    run := CopyOn(run);
    run := Finish(run);
    t2 := |run| - 1;
  }

  lemma Pow2Small64(k: nat)
    requires k < 64
    ensures 1 + Pow2(k) < U64
  {
    Pow2Order(k, 63);
    Pow2Of64();
    hide Pow2;
    DoubledPow2(63);
  }

  lemma DoubledPow2(k: nat)
    ensures Pow2(k + 1) == 2 * Pow2(k)
  {
  }

  lemma ReadLonger(run: seq<Ring>, rd: Read, tries: seq<Attempt>, b: nat, e: nat, e': nat)
    requires ReadIn(run, rd, tries, b, e) && e <= e' < |run|
    ensures ReadIn(run, rd, tries, b, e')
  {
  }

  lemma DroppedWalk(g: Goal, v: Value, rd: Read, rd': Read)
    requires g.avail == 1 && g.limit.Some? && g.limit.value < g.Diff(v) < g.keyMax
    requires rd.r == rd'.r == 0 && rd.elem == None && rd'.elem == Some(v)
    ensures Walk(g, Start(g), [rd, rd']) == Done(FinalFallback, Some(v), rd'.n, 1)
    ensures Result(g, Done(FinalFallback, Some(v), rd'.n, 1)) == Some(v)
  {
    assert [rd, rd'][..1] == [rd] && [rd][..0] == [];
    assert Walk(g, Start(g), [rd]) == Scanning(FinalFallback, 0, None, g.keyMax, 0, 1);
  }

  // ---------------------------------------------------------------------------------------------
  // The pair
  // ---------------------------------------------------------------------------------------------

  /** Values of one size with growing keys, the target between the first two. */
  ghost predicate Around(g: Goal, vs: seq<Value>) {
    && 2 <= |vs| < U64 && (forall n :: 0 <= n < |vs| ==> |vs[n]| == |vs[0]|)
    && Increasing(vs, g.key, 0, |vs|) && g.key(vs[0]) < g.target < g.key(vs[1])
  }

  /** A run in which the first two values are inserted up to t, and the others after it. */
  lemma Growing(k: nat, vs: seq<Value>) returns (run: seq<Ring>, t: nat)
    requires 0 < k < 64 && 2 <= |vs| < U64 && forall n :: 0 <= n < |vs| ==> |vs[n]| == |vs[0]|
    ensures Run(run) && t < |run| && run[t].writer == Idle && run[t].started == vs[..2] && run[t].k == k
    ensures Last(run).writer == Idle && Last(run).started == vs && Last(run).k == k
  {
    run := InitRun(k, |vs[0]|);
    run := InsertAll(run, vs[..2]);
    t := |run| - 1;
    run := InsertAll(run, vs[2..]);
    assert vs == vs[..2] + vs[2..];
  }

  /** In every capacity above one, for every number m of inserts from one on: two elements around the
      target, and m inserts that land between the search and the second look, leave both elements of the
      pair above the target, and the factor outside [0, 1). */
  lemma PairLeaves(k: nat, g: Goal, vs: seq<Value>) returns (run: seq<Ring>, t: nat, rds: seq<Read>, p: InterpPair)
    requires 0 < k < 64 && g.avail == 2 && KeysFit(g) && Around(g, vs) && |vs| >= 3
    ensures PairIn(run, t, g, rds, Some(p)) && Unlapped(rds)
    ensures Last(run).writer == Idle && Last(run).started == vs && run[t].writer == Idle && run[t].started == vs[..2]
    ensures p.before == vs[|vs| - 2] && p.after == vs[|vs| - 1]
    ensures g.target < g.key(p.before) && !(0.0 <= p.alpha < 1.0)
  {
    TwoSlots(k);
    run, t := Growing(k, vs);
    var u := |run| - 1;
    var r1, r2, r3, r4;
    r1, r2, r3, r4 := LookTwice(run, t, u);
    rds := [r1, r2, r3, r4];
    AvailableNow(run, t);
    hide Run, Inv, AvailableAt, LogIn;
    Ordered(vs, g.key, 0, |vs|, 1, |vs| - 2);
    Ordered(vs, g.key, 0, |vs|, |vs| - 2, |vs| - 1);
    hide Increasing;
    p := LeavesWalk(g, vs[0], vs[1], vs[|vs| - 2], vs[|vs| - 1], r1, r2, r3, r4);
  }

  /** The newest and the next element, looked at once at time t and again at time u. */
  lemma LookTwice(run: seq<Ring>, t: nat, u: nat) returns (r1: Read, r2: Read, r3: Read, r4: Read)
    requires Run(run) && t <= u < |run| && run[t].writer == Idle && run[u].writer == Idle
    requires 2 <= |run[t].started| < U64 && 2 <= |run[u].started| < U64 && 2 <= Pow2(run[t].k) && 2 <= Pow2(run[u].k)
    ensures LogIn(run, [r1, r2, r3, r4], t)
    ensures var w, w' := |run[t].started|, |run[u].started|;
            && r1 == Read(0, w, 1, Some(run[t].started[w - 1]), 0, w - 1)
            && r2 == Read(1, w, 1, Some(run[t].started[w - 2]), 0, w - 2)
            && r3 == Read(0, w', 1, Some(run[u].started[w' - 1]), 0, w' - 1)
            && r4 == Read(1, w', 1, Some(run[u].started[w' - 2]), 0, w' - 2)
  {
    hide ReadIn, Run, LogUpTo, LogIn;
    var tries;
    StartLog(run, t);
    r1, tries := ReadAt(run, t, 0);
    AppendLog(run, [], t, r1, tries, t, t, t);
    assert [] + [r1] == [r1];
    r2, tries := ReadAt(run, t, 1);
    AppendLog(run, [r1], t, r2, tries, t, t, u);
    assert [r1] + [r2] == [r1, r2];
    r3, tries := ReadAt(run, u, 0);
    AppendLog(run, [r1, r2], t, r3, tries, u, u, u);
    assert [r1, r2] + [r3] == [r1, r2, r3];
    r4, tries := ReadAt(run, u, 1);
    AppendLog(run, [r1, r2, r3], t, r4, tries, u, u, u);
    assert [r1, r2, r3] + [r4] == [r1, r2, r3, r4];
  }

  /** A log that ends at time e. */
  ghost predicate LogUpTo(run: seq<Ring>, rds: seq<Read>, t0: nat, e: nat) {
    exists tries: seq<seq<Attempt>>, times: seq<nat> :: LogAt(run, rds, t0, tries, times) && times[|rds|] == e
  }

  lemma StartLog(run: seq<Ring>, t: nat)
    requires Run(run) && t < |run|
    ensures LogUpTo(run, [], t, t)
  {
    assert LogAt(run, [], t, [], [t]);
  }

  /** One more read, that starts when the log ends. */
  lemma AppendLog(run: seq<Ring>, rds: seq<Read>, t0: nat, rd: Read, tries: seq<Attempt>, b: nat, e: nat, e': nat)
    requires LogUpTo(run, rds, t0, b) && ReadIn(run, rd, tries, b, e) && e <= e' < |run|
    ensures LogUpTo(run, rds + [rd], t0, e') && LogIn(run, rds + [rd], t0)
  {
    var all, times :| LogAt(run, rds, t0, all, times) && times[|rds|] == b;
    ReadLonger(run, rd, tries, b, e, e');
    hide ReadIn;
    assert LogAt(run, rds + [rd], t0, all + [tries], times + [e']);
  }

  lemma LeavesWalk(g: Goal, v1: Value, v2: Value, v3: Value, v4: Value, r1: Read, r2: Read, r3: Read, r4: Read)
    returns (p: InterpPair)
    requires g.avail == 2 && KeysFit(g) && g.key(v1) < g.target < g.key(v2) && g.target < g.key(v3) < g.key(v4)
    requires r1.r == r3.r == 0 && r2.r == r4.r == 1
    requires r1.elem == Some(v2) && r2.elem == Some(v1) && r3.elem == Some(v4) && r4.elem == Some(v3)
    ensures var st := PairWalk(g, PairStart(g), [r1, r2, r3, r4]);
            Finished(st) && PairResult(g, st) == Some(p)
    ensures p.before == v3 && p.after == v4 && !(0.0 <= p.alpha < 1.0)
  {
    var all := [r1, r2, r3, r4];
    assert all[..3] == [r1, r2, r3] && [r1, r2, r3][..2] == [r1, r2] && [r1, r2][..1] == [r1] && [r1][..0] == [];
    assert PairWalk(g, PairStart(g), [r1]) == Closing(Some(v2), r1.n);
    assert PairWalk(g, PairStart(g), [r1, r2]) == AtAfter(0, 1, r1.n, r2.n);
    assert PairWalk(g, PairStart(g), [r1, r2, r3]) == AtBefore(0, 1, r1.n, r2.n, Some(v4), r3.n);
    p := InterpPair(v3, v4, Alpha(g.target, g.key(v3), g.key(v4), g.keyMax));
    AlphaInUnitInterval(g.target, g.key(v3), g.key(v4), g.keyMax);
  }

  /** The pair brackets the target, and its factor interpolates. */
  predicate Brackets(g: Goal, p: InterpPair) {
    g.key(p.before) <= g.target <= g.key(p.after) && Interpolates(g, p)
  }

  /** In the run, keys grow from the window at time t on, and m inserts are published after t. */
  ghost predicate GrowsBy(run: seq<Ring>, t: nat, g: Goal, m: nat) {
    && Run(run) && t < |run| && g.avail <= Counted(run[t])
    && Counted(Last(run)) == Counted(run[t]) + m
    && Increasing(Last(run).started, g.key, Counted(run[t]) - g.avail, Counted(Last(run)))
  }

  /** Whenever m inserts are published during a query none of whose reads is lapped, a pair it returns
      brackets the target: in every run, capacity and window. */
  ghost predicate AlwaysBrackets(g: Goal, m: nat) {
    forall avail: nat, run, t, rds, p :: PairIn(run, t, g.(avail := avail), rds, Some(p)) ==>
                                           Unlapped(rds) && GrowsBy(run, t, g.(avail := avail), m) ==> Brackets(g, p)
  }

  /** With nothing published meanwhile the pair brackets. */
  lemma StillBrackets(run: seq<Ring>, t: nat, g: Goal, rds: seq<Read>, p: InterpPair)
    requires PairIn(run, t, g, rds, Some(p)) && Unlapped(rds) && GrowsBy(run, t, g, 0) && KeysFit(g)
    ensures Brackets(g, p)
  {
    PairOfRun(run, t, g, rds, Some(p));
    hide Run, PairWalk, PairQuery, AvailableAt, LogIn, Unlapped, Increasing, InRange, Bracket, Brackets, KeysFit;
    var v := ViewOf(Last(run));
    PairOptimal(v, g, Counted(run[t]), rds);
    var st := PairWalk(g, PairStart(g), rds);
    BracketMeans(v, g, Counted(run[t]) - g.avail, Counted(run[t]), st.b, st.a, p);
  }

  lemma BracketMeans(v: View, g: Goal, from: nat, end: nat, b: int, a: int, p: InterpPair)
    requires Bracket(v, g, from, end, b, a, p)
    ensures Brackets(g, p)
  {
  }

  /** The run of `PairLeaves`, with all that is asked of it. */
  lemma FailsToBracket(g: Goal, vs: seq<Value>) returns (run: seq<Ring>, t: nat, rds: seq<Read>, p: InterpPair)
    requires KeysFit(g) && Around(g, vs) && |vs| >= 3
    ensures PairIn(run, t, g.(avail := 2), rds, Some(p)) && Unlapped(rds) && GrowsBy(run, t, g.(avail := 2), |vs| - 2)
    ensures !Brackets(g, p)
  {
    var g2 := g.(avail := 2);
    hide Increasing, PairIn, Unlapped, Interpolates;
    run, t, rds, p := PairLeaves(1, g2, vs);
    assert Run(run) by { InRun(run, t, g2, rds, Some(p)); }
  }

  lemma InRun(run: seq<Ring>, t: nat, g: Goal, rds: seq<Read>, res: Option<InterpPair>)
    requires PairIn(run, t, g, rds, res)
    ensures Run(run) && t < |run|
  {
  }

  lemma SameKeys(g: Goal, avail: nat, p: InterpPair)
    ensures KeysFit(g) ==> KeysFit(g.(avail := avail))
    ensures Brackets(g.(avail := avail), p) <==> Brackets(g, p)
  {
  }

  /** A pair is sure to bracket the target if and only if no insert is published during the query. */
  lemma BracketsExactly(g: Goal, vs: seq<Value>)
    requires KeysFit(g) && Around(g, vs)
    ensures AlwaysBrackets(g, |vs| - 2) <==> |vs| == 2
  {
    if |vs| == 2 {
      hide PairIn, Unlapped, GrowsBy, Brackets, KeysFit;
      forall avail: nat, run, t, rds, p | PairIn(run, t, g.(avail := avail), rds, Some(p))
                                          && Unlapped(rds) && GrowsBy(run, t, g.(avail := avail), 0)
        ensures Brackets(g, p)
      {
        SameKeys(g, avail, p);
        StillBrackets(run, t, g.(avail := avail), rds, p);
      }
    } else {
      var run, t, rds, p := FailsToBracket(g, vs);
      hide PairIn, Unlapped, GrowsBy, Brackets;
      assert PairIn(run, t, g.(avail := 2), rds, Some(p));
    }
  }
}
