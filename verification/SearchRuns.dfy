/** Searches as parts of a run of the ring: when their atomic accesses happen in it, and that their
    logs are then among those the theorems are about. */
module SearchRuns {
  import opened Bits
  import opened Options
  import opened RingProtocol
  import opened RingSafety
  import opened RingReader
  import opened SearchSpec
  import opened InterpolationSpec

  /** An attempt the reader gave up: the counter was odd at first, or differed at the end. */
  ghost predicate Rejected(run: seq<Ring>, a: Attempt) {
    && a.before <= a.after < |run|
    && a.slot < |run[a.before].slots| && a.slot < |run[a.after].slots|
    && (run[a.before].slots[a.slot].counter % 2 == 1
        || run[a.before].slots[a.slot].counter != run[a.after].slots[a.slot].counter)
  }

  /** In the run, a `try_get(rd.r)` loads the count at time b, makes the attempts `tries` one after
      another up to time e, and ends as rd says: with what the last of them accepted, or with nothing
      after five. */
  ghost predicate ReadIn(run: seq<Ring>, rd: Read, tries: seq<Attempt>, b: nat, e: nat) {
    && Run(run) && b <= e < |run| && WellFormed(run[b]) && Counted(run[b]) < U64
    && rd.w == run[b].total && rd.r < run[b].total && rd.r < Cap(run[b])
    && rd.attempts == |tries| && 0 < |tries| <= 5
    && (forall q :: 0 <= q < |tries| ==> tries[q].slot == SlotFor(run[b], rd.r) && b <= tries[q].before <= tries[q].after <= e)
    && (forall q :: 0 <= q < |tries| - 1 ==> Rejected(run, tries[q]) && tries[q].after <= tries[q + 1].before)
    && var last := tries[|tries| - 1];
    match rd.elem
    case Some(v) =>
      && Accepted(run, last) && last.out == v && WellFormed(run[last.before]) && WellFormed(run[last.after])
      && rd.n == ReadIndex(run, last) && rd.hits == Hits(run[last.before], run[last.after], last.slot)
    case None => |tries| == 5 && Rejected(run, last)
  }

  /** A log of reads, one after another, in a run. */
  ghost predicate LogIn(run: seq<Ring>, rds: seq<Read>, t0: nat) {
    exists tries: seq<seq<Attempt>>, times: seq<nat> :: LogAt(run, rds, t0, tries, times)
  }

  ghost predicate LogAt(run: seq<Ring>, rds: seq<Read>, t0: nat, tries: seq<seq<Attempt>>, times: seq<nat>) {
    && Run(run) && |tries| == |rds| && |times| == |rds| + 1 && t0 <= times[0] && times[|rds|] < |run|
    && forall q :: 0 <= q < |rds| ==> ReadIn(run, rds[q], tries[q], times[q], times[q + 1])
  }

  /** `available()` at time t. */
  ghost predicate AvailableAt(run: seq<Ring>, t: nat, avail: nat) {
    && Run(run) && t < |run| && run[t].total == Counted(run[t])
    && avail == if run[t].total < Pow2(run[t].k) then run[t].total else Pow2(run[t].k)
  }

  /** In the run, `find_closest` begins at time t and returns res. */
  ghost predicate ClosestIn(run: seq<Ring>, t: nat, g: Goal, rds: seq<Read>, res: Option<Value>) {
    && AvailableAt(run, t, g.avail) && LogIn(run, rds, t)
    && Walk(g, Start(g), rds).Done? && res == Result(g, Walk(g, Start(g), rds))
  }

  /** In the run, `find_interpolation_pair` begins at time t and returns res. */
  ghost predicate PairIn(run: seq<Ring>, t: nat, g: Goal, rds: seq<Read>, res: Option<InterpPair>) {
    && AvailableAt(run, t, g.avail) && LogIn(run, rds, t)
    && Finished(PairWalk(g, PairStart(g), rds)) && res == PairResult(g, PairWalk(g, PairStart(g), rds))
  }

  // ---------------------------------------------------------------------------------------------
  // Logs of runs
  // ---------------------------------------------------------------------------------------------

  /** Between the count's load and the insert that overwrites the requested one, the slot is even and
      never moves. */
  lemma StandsInRun(run: seq<Ring>, rd: Read, tries: seq<Attempt>, b: nat, e: nat, t: nat)
    requires ReadIn(run, rd, tries, b, e) && b <= t < |run| && |run[t].started| <= rd.w - 1 - rd.r + Cap(run[b])
    ensures Inv(run[t])
    ensures var i := SlotFor(run[b], rd.r);
            && i < |run[t].slots| && run[t].slots[i].counter % 2 == 0
            && run[t].slots[i].counter == Version(run[t], i) % U32 && Holds(run[t], i) == rd.w - 1 - rd.r
    ensures var i := SlotFor(run[b], rd.r); i < |run[b].slots| && Version(run[t], i) == Version(run[b], i)
  {
    RunInv(run, b);
    RunInv(run, t);
    RunLater(run, b, t);
    hide Later, Version, Holds, SlotInv, Pow2, And, Sub64;
    RoomLeft(run[b], run[t], rd.r);
    var i := SlotFor(run[b], rd.r);
    VersionParity(run[t], i);
    CounterIs(run[t], i);
  }

  lemma StartedGrows(run: seq<Ring>, b: nat, e: nat)
    requires Run(run) && b <= e < |run|
    ensures run[b].started <= run[e].started && Counted(run[b]) <= Counted(run[e])
  {
    RunLater(run, b, e);
  }

  lemma CounterIs(s: Ring, i: nat)
    requires Inv(s) && i < |s.slots|
    ensures s.slots[i].counter == Version(s, i) % U32
  {
    assert SlotInv(s, i);
  }

  lemma EvenCounter(s: Ring, i: nat)
    requires Inv(s) && i < |s.slots| && s.slots[i].counter % 2 == 0
    ensures Version(s, i) % 2 == 0
  {
    VersionParity(s, i);
  }

  lemma SameVersionNoHits(s: Ring, t: Ring, i: nat)
    requires WellFormed(s) && WellFormed(t) && i < |s.slots| && i < |t.slots|
    requires Version(s, i) == Version(t, i) && Version(s, i) % 2 == 0
    ensures RingSafety.Hits(s, t, i) == 0
  {
  }

  /** With room left, the first attempt is accepted, and reads the requested insert. */
  lemma RoomInRun(run: seq<Ring>, rd: Read, tries: seq<Attempt>, b: nat, e: nat)
    requires ReadIn(run, rd, tries, b, e) && |run[e].started| <= rd.w - 1 - rd.r + Cap(run[b])
    ensures OnTarget(rd)
  {
    var last := tries[|tries| - 1];
    assert b <= last.before <= last.after <= e && last.slot == SlotFor(run[b], rd.r);
    StartedGrows(run, last.before, e);
    StartedGrows(run, last.after, e);
    hide Later, Version, SlotFor, SlotInv, WriterInv, WaiterInv;
    StandsInRun(run, rd, tries, b, e, last.before);
    StandsInRun(run, rd, tries, b, e, last.after);
    if rd.elem.Some? {
      EvenCounter(run[last.before], last.slot);
      SameVersionNoHits(run[last.before], run[last.after], last.slot);
    }
  }

  /** A successful read of a run, unless 2^31 inserts hit its slot meanwhile. */
  lemma ReadOfRun(run: seq<Ring>, rd: Read, tries: seq<Attempt>, b: nat, e: nat)
    requires ReadIn(run, rd, tries, b, e) && rd.elem.Some?
    ensures ReadOf(ViewOf(run[e]), rd) && rd.hits <= |run[e].started| - Counted(run[b])
  {
    var last := tries[|tries| - 1];
    assert b <= last.before <= last.after <= e && last.slot == SlotFor(run[b], rd.r);
    StartedGrows(run, b, e);
    StartedGrows(run, b, last.before);
    StartedGrows(run, last.after, e);
    RunInv(run, b);
    ModSmall(Counted(run[b]), U64);
    RunLater(run, last.before, last.after);
    HitsBound(run[last.before], run[last.after], last.slot);
    hide Inv, Later, Accepted;
    if rd.hits < HALF {
      GetReturnsRequestedOrNewer(run, b, rd.r, last);
    }
  }

  lemma LoggedInRun(run: seq<Ring>, rd: Read, tries: seq<Attempt>, t0: nat, b: nat, e: nat, end: nat, avail: nat)
    requires ReadIn(run, rd, tries, b, e) && t0 <= b && e <= end < |run| && rd.r < avail
    ensures LoggedRead(ViewOf(run[end]), Counted(run[t0]), avail, rd)
  {
    RunInv(run, b);
    ModSmall(Counted(run[b]), U64);
    StartedGrows(run, t0, b);
    StartedGrows(run, b, e);
    StartedGrows(run, e, end);
    SameCap(run, b, end);
    hide Inv, Run;
    if rd.elem.Some? {
      ReadOfRun(run, rd, tries, b, e);
    }
    if Room(ViewOf(run[end]), rd) {
      RoomInRun(run, rd, tries, b, e);
    }
  }

  lemma SameCap(run: seq<Ring>, b: nat, e: nat)
    requires Run(run) && b <= e < |run|
    ensures Cap(run[b]) == Cap(run[e])
  {
    RunLater(run, b, e);
  }

  /** Every log of a run is one that `TryGet` can give: all the theorems about queries hold of the
      queries of every run. */
  lemma LogOfRun(run: seq<Ring>, rds: seq<Read>, t0: nat, avail: nat)
    requires AvailableAt(run, t0, avail) && LogIn(run, rds, t0) && forall q :: 0 <= q < |rds| ==> rds[q].r < avail
    ensures Logged(ViewOf(run[|run| - 1]), Counted(run[t0]), avail, rds)
  {
    var end := |run| - 1;
    SameCap(run, t0, end);
    StartedGrows(run, t0, end);
    var tries, times :| LogAt(run, rds, t0, tries, times);
    forall q | 0 <= q < |rds|
      ensures LoggedRead(ViewOf(run[end]), Counted(run[t0]), avail, rds[q])
    {
      Timed(run, rds, t0, tries, times, q);
      LoggedInRun(run, rds[q], tries[q], t0, times[q], times[q + 1], end, avail);
    }
    forall p, q | 0 <= p < q < |rds|
      ensures rds[p].w <= rds[q].w
    {
      TimesGrow(run, rds, t0, tries, times, p, q);
      LoadedCount(run, rds[p], tries[p], times[p], times[p + 1]);
      LoadedCount(run, rds[q], tries[q], times[q], times[q + 1]);
      StartedGrows(run, times[p], times[q]);
    }
  }

  lemma LoadedCount(run: seq<Ring>, rd: Read, tries: seq<Attempt>, b: nat, e: nat)
    requires ReadIn(run, rd, tries, b, e)
    ensures rd.w == Counted(run[b])
  {
    RunInv(run, b);
    ModSmall(Counted(run[b]), U64);
  }

  lemma {:induction false} TimesGrow(run: seq<Ring>, rds: seq<Read>, t0: nat, tries: seq<seq<Attempt>>, times: seq<nat>, p: nat, q: nat)
    requires LogAt(run, rds, t0, tries, times) && p <= q < |rds|
    ensures times[p] <= times[q] < |run|
    decreases q
  {
    Timed(run, rds, t0, tries, times, q);
    if p < q {
      assert ReadIn(run, rds[q - 1], tries[q - 1], times[q - 1], times[q - 1 + 1]);
      TimesGrow(run, rds, t0, tries, times, p, q - 1);
    }
  }

  lemma {:induction false} Timed(run: seq<Ring>, rds: seq<Read>, t0: nat, tries: seq<seq<Attempt>>, times: seq<nat>, q: nat)
    requires LogAt(run, rds, t0, tries, times) && q < |rds|
    ensures t0 <= times[q] <= times[q + 1] < |run|
    decreases q
  {
    assert ReadIn(run, rds[q], tries[q], times[q], times[q + 1]);
    if q > 0 {
      Timed(run, rds, t0, tries, times, q - 1);
    }
  }

  lemma ClosestOfRun(run: seq<Ring>, t: nat, g: Goal, rds: seq<Read>, res: Option<Value>)
    requires ClosestIn(run, t, g, rds, res)
    ensures Query(ViewOf(run[|run| - 1]), g, Counted(run[t]), rds)
  {
    WalkInBounds(g, rds);
    LogOfRun(run, rds, t, g.avail);
  }

  lemma PairOfRun(run: seq<Ring>, t: nat, g: Goal, rds: seq<Read>, res: Option<InterpPair>)
    requires PairIn(run, t, g, rds, res)
    ensures PairQuery(ViewOf(run[|run| - 1]), g, Counted(run[t]), rds)
  {
    PairWalkInBounds(g, rds);
    LogOfRun(run, rds, t, g.avail);
  }
}
