/** Whole runs of the allocator: any sequence of operations with the outcomes they report. */
module AllocatorRuns {
  import opened Common
  import opened AddressRanges
  import opened SortedRanges
  import opened Alignment
  import opened Allocator

  datatype Op = Allocate(size: u64, id: u64) | Release(id: u64) | ReleaseContaining(value: u64)

  datatype Outcome = Address(address: Result<u64, Error>) | Range(range: Result<AddressRange, Error>)

  /** What each operation does to the two collections, whatever the pools. */
  ghost predicate Step(s: State, op: Op, o: Outcome, t: State) {
    match op
    case Allocate(size, id) => o.Address? && PlaceStep(s, size, id, o.address, t)
    case Release(id) => o.Range? && GiveBackStep(s, id, o.range, t)
    case ReleaseContaining(value) => o.Range? && GiveBackContainingStep(s, value, o.range, t)
  }

  /** What it does to the addresses, for separated pools. */
  ghost predicate AddressStep(s: State, op: Op, o: Outcome, t: State) {
    match op
    case Allocate(size, id) => o.Address? && AllocateStep(s, size, id, o.address, t)
    case Release(id) => o.Range? && ReleaseStep(s, id, o.range, t)
    case ReleaseContaining(value) => o.Range? && ReleaseContainingStep(s, value, o.range, t)
  }

  ghost predicate IsRun(states: seq<State>, ops: seq<Op>, outs: seq<Outcome>) {
    && |states| == |ops| + 1 == |outs| + 1
    && forall i | 0 <= i < |ops| :: Step(states[i], ops[i], outs[i], states[i + 1])
  }

  /** The state `new_from_list` returns for disjoint pools, touching or not; `new` has one pool. */
  ghost predicate Initial(s: State) {
    && IsPowerOfTwo(s.minAlign)
    && Gapped(s.pools, 0)
    && s.allocs == map[]
    && s.regions == s.pools
  }

  lemma InitialIsPartition(s: State)
    requires Initial(s)
    ensures Partition(s)
  {
    GappedIsSorted(s.pools, 0);
    assert forall x :: !Live(s.allocs, x);
  }

  lemma StepKeepsPartition(s: State, op: Op, o: Outcome, t: State)
    requires Partition(s) && Step(s, op, o, t)
    ensures Partition(t) && t.pools == s.pools && t.minAlign == s.minAlign
  {
    hide Partition, WellFormed, PlaceStep, GiveBackStep;
    PartitionIsWellFormed(s);
    match op
    case Allocate(size, id) =>
      PlaceKeepsPartition(s, size, id, o.address, t);
      PlaceKeepsWellFormed(s, size, id, o.address, t);
    case Release(id) =>
      GiveBackKeepsPartition(s, id, o.range, t);
      GiveBackKeepsWellFormed(s, id, o.range, t);
    case ReleaseContaining(value) =>
      if Live(s.allocs, value) {
        var id :| id in s.allocs && s.allocs[id].Has(value) && GiveBackStep(s, id, o.range, t);
        GiveBackKeepsPartition(s, id, o.range, t);
        GiveBackKeepsWellFormed(s, id, o.range, t);
      }
  }

  lemma PartitionIsWellFormed(s: State)
    requires Partition(s)
    ensures WellFormed(s)
  {
  }

  /** For separated pools the steps are what they do to the addresses. */
  lemma StepIsAddressStep(s: State, op: Op, o: Outcome, t: State)
    requires Inv(s) && Step(s, op, o, t)
    ensures Inv(t) && AddressStep(s, op, o, t)
  {
    hide Inv, PlaceStep, GiveBackStep, AllocateStep, ReleaseStep;
    match op
    case Allocate(size, id) =>
      PlaceIsLowestFit(s, size, id, o.address, t);
    case Release(id) =>
      GiveBackIsRelease(s, id, o.range, t);
    case ReleaseContaining(value) =>
      if Live(s.allocs, value) {
        var id :| id in s.allocs && s.allocs[id].Has(value) && GiveBackStep(s, id, o.range, t);
        GiveBackIsRelease(s, id, o.range, t);
      }
  }

  /** In every state reachable over disjoint pools live and free ranges partition the pools. */
  lemma {:induction false} RunKeepsPartition(states: seq<State>, ops: seq<Op>, outs: seq<Outcome>, i: nat)
    requires IsRun(states, ops, outs) && Initial(states[0]) && i < |states|
    ensures Partition(states[i]) && states[i].pools == states[0].pools && states[i].minAlign == states[0].minAlign
  {
    hide Partition, Step, Initial;
    if i == 0 {
      InitialIsPartition(states[0]);
    } else {
      RunKeepsPartition(states, ops, outs, i - 1);
      StepKeepsPartition(states[i - 1], ops[i - 1], outs[i - 1], states[i]);
    }
  }

  /** Over separated pools the free list is canonical besides. */
  lemma {:induction false} RunKeepsInv(states: seq<State>, ops: seq<Op>, outs: seq<Outcome>, i: nat)
    requires IsRun(states, ops, outs) && Initial(states[0]) && Canonical(states[0].pools) && i < |states|
    ensures Inv(states[i]) && states[i].pools == states[0].pools && states[i].minAlign == states[0].minAlign
  {
    hide Step, AddressStep, Partition, Gapped;
    RunKeepsPartition(states, ops, outs, i);
    if i == 0 {
    } else {
      RunKeepsInv(states, ops, outs, i - 1);
      hide Inv;
      StepIsAddressStep(states[i - 1], ops[i - 1], outs[i - 1], states[i]);
    }
  }

  /** And every step is a lowest fit or a release. */
  lemma RunIsAddressRun(states: seq<State>, ops: seq<Op>, outs: seq<Outcome>, i: nat)
    requires IsRun(states, ops, outs) && Initial(states[0]) && Canonical(states[0].pools) && i < |ops|
    ensures AddressStep(states[i], ops[i], outs[i], states[i + 1])
  {
    hide Step, AddressStep, Inv, Initial, Gapped;
    RunKeepsInv(states, ops, outs, i);
    StepIsAddressStep(states[i], ops[i], outs[i], states[i + 1]);
  }

  /** In every run over disjoint pools a release of a live id succeeds, and so does one of a live address. */
  lemma ReleaseOfLiveSucceeds(states: seq<State>, ops: seq<Op>, outs: seq<Outcome>, i: nat)
    requires IsRun(states, ops, outs) && Initial(states[0]) && i < |ops|
    ensures ops[i].Release? ==> outs[i].Range? && (outs[i].range.Ok? <==> ops[i].id in states[i].allocs)
    ensures ops[i].ReleaseContaining? ==>
              outs[i].Range? && (outs[i].range.Ok? <==> Live(states[i].allocs, ops[i].value))
  {
    RunKeepsPartition(states, ops, outs, i);
    var s, o, t := states[i], outs[i], states[i + 1];
    hide Partition, GiveBackStep;
    assert Step(s, ops[i], o, t);
    match ops[i]
    case Allocate(_, _) =>
    case Release(id) =>
      GiveBackKeepsPartition(s, id, o.range, t);
    case ReleaseContaining(value) =>
      if Live(s.allocs, value) {
        var id :| id in s.allocs && s.allocs[id].Has(value) && GiveBackStep(s, id, o.range, t);
        GiveBackKeepsPartition(s, id, o.range, t);
      }
  }

  /** Overlapping pools, which `new_from_list` accepts, can lose a range: what is allocated from the first is
      not taken back while the second reaches into it, and its id is gone. */
  lemma OverlappingPoolsLoseRange(s: State, t: State, u: State)
    requires s == State(1, [AddressRange(0, 9), AddressRange(5, 14)], map[], [AddressRange(0, 9), AddressRange(5, 14)])
    requires t == State(1, s.pools, map[7 := AddressRange(0, 9)], [AddressRange(5, 14)])
    requires u == State(1, s.pools, map[], [AddressRange(5, 14)])
    ensures WellFormed(s) && !Partition(s)
    ensures PlaceStep(s, 10, 7, Ok(0), t) && GiveBackStep(t, 7, Err(EBADR), u)
  {
    hide PlaceStep, GiveBackStep, WellFormed, Partition;
    OverlappingPoolsUnsound(s);
    OverlappingPoolsPlace(s, t);
    OverlappingPoolsRefuse(t, u);
  }

  lemma OverlappingPoolsUnsound(s: State)
    requires s == State(1, [AddressRange(0, 9), AddressRange(5, 14)], map[], [AddressRange(0, 9), AddressRange(5, 14)])
    ensures WellFormed(s) && !Partition(s)
  {
    assert s.regions[0] == AddressRange(0, 9) && s.regions[1] == AddressRange(5, 14);
    assert !Gapped(s.regions, 0);
  }

  /** Pools that touch are a partition, yet an allocation that would fit across them is refused. */
  lemma TouchingPoolsMissFit(s: State)
    requires var pools := [AddressRange(0, 9), AddressRange(10, 19)]; s == State(1, pools, map[], pools)
    ensures Partition(s) && !Inv(s)
    ensures PlaceStep(s, 15, 7, Err(EFAULT), s) && Fits(s, 0, 15)
  {
    assert s.regions[0] == AddressRange(0, 9) && s.regions[1] == AddressRange(10, 19);
    InitialIsPartition(s);
    AlignUpIsLeast(0, 1, 0);
    AlignUpIsLeast(10, 1, 10);
    assert !RegionFits(1, s.regions[0], 15) && !RegionFits(1, s.regions[1], 15);
    assert !AllocateOverflows(s, 15);
    forall x | 0 <= x < 15
      ensures Free(s, x)
    {
      assert s.pools[0].Has(x) || s.pools[1].Has(x);
    }
  }

  lemma OverlappingPoolsPlace(s: State, t: State)
    requires s == State(1, [AddressRange(0, 9), AddressRange(5, 14)], map[], [AddressRange(0, 9), AddressRange(5, 14)])
    requires t == State(1, s.pools, map[7 := AddressRange(0, 9)], [AddressRange(5, 14)])
    ensures PlaceStep(s, 10, 7, Ok(0), t)
  {
    assert s.regions[0] == AddressRange(0, 9);
    assert AlignUp(0, 1) == 0;
    assert NoneFitsBefore(s, 10, 0) && RegionFits(1, s.regions[0], 10);
    assert Carve(s.regions, 0, AddressRange(0, 9)) == [AddressRange(5, 14)];
    assert PlacedIn(s, 10, 7, 0, 0, t);
    assert !AllocateOverflows(s, 10);
  }

  lemma OverlappingPoolsRefuse(t: State, u: State)
    requires t.allocs == map[7 := AddressRange(0, 9)] && t.regions == [AddressRange(5, 14)]
    requires u == t.(allocs := map[])
    ensures GiveBackStep(t, 7, Err(EBADR), u)
  {
    assert t.regions[0] == AddressRange(5, 14) && SplitPoint(t.regions, AddressRange(0, 9)) == 0;
  }

  // ----- The free list is a function of the live addresses -----

  /** Whatever operations led there, equal pools and equal live addresses give equal free lists. */
  lemma FreeListDetermined(s: State, t: State)
    requires Inv(s) && Inv(t) && s.pools == t.pools
    requires forall x :: Live(s.allocs, x) <==> Live(t.allocs, x)
    ensures s.regions == t.regions
  {
    forall x
      ensures Covered(s.regions, x) <==> Covered(t.regions, x)
    {
      assert Covered(s.pools, x) <==> Covered(t.pools, x);
    }
    CanonicalIsUnique(s.regions, t.regions);
  }

  /** A free region is exactly a maximal run of addresses that are in the pools and not live. */
  lemma RegionsAreMaximalRuns(s: State, r: AddressRange)
    requires Inv(s)
    ensures r in s.regions <==>
            && !r.IsEmpty()
            && (forall x | r.Has(x) :: Free(s, x))
            && !Free(s, r.start - 1) && !Free(s, r.end + 1)
  {
    if r in s.regions {
      var i :| 0 <= i < |s.regions| && s.regions[i] == r;
      NothingRightAfter(s.regions, i);
      assert forall j | 0 <= j < |s.regions| :: !s.regions[j].Has(r.start - 1);
      assert forall x | r.Has(x) :: Covered(s.regions, x);
    } else if !r.IsEmpty() && forall x | r.Has(x) :: Free(s, x) {
      forall x | r.start <= x <= r.end
        ensures Covered(s.regions, x)
      {
        assert r.Has(x) && Free(s, x);
      }
      var i := RunLiesInOneRange(s.regions, r.start, r.end);
      assert s.regions[i] in s.regions;
      assert s.regions[i].start < r.start ==> s.regions[i].Has(r.start - 1);
      assert r.end < s.regions[i].end ==> s.regions[i].Has(r.end + 1);
    }
  }

  /** Releasing everything gives back exactly the pools. */
  lemma AllReleasedRestoresPools(s: State)
    requires Inv(s) && s.allocs == map[]
    ensures s.regions == s.pools
  {
    CanonicalIsUnique(s.regions, s.pools);
  }

  /** Releasing what was just allocated leaves no trace in either collection. */
  lemma ReleaseUndoesAllocate(s: State, size: u64, id: u64, a: u64, t: State, r: Result<AddressRange, Error>, u: State)
    requires Inv(s) && AllocateStep(s, size, id, Ok(a), t) && ReleaseStep(t, id, r, u)
    ensures r == Ok(AddressRange(a, a + size - 1)) && u == s
  {
    assert u.allocs == s.allocs;
    forall x | a <= x < a + size
      ensures Covered(s.regions, x)
    {
      assert Free(s, x);
    }
    CanonicalIsUnique(u.regions, s.regions);
  }

  // ----- Outcomes -----

  /** Every operation has one outcome and one next state, so the search order of the hash map in
      `release_containing` cannot be observed. */
  lemma StepIsDeterministic(s: State, op: Op, o: Outcome, t: State, o': Outcome, t': State)
    requires Partition(s) && Step(s, op, o, t) && Step(s, op, o', t')
    ensures o == o' && t == t'
  {
    hide Carve, Coalesce, AllocateOverflows, WellFormed, Covered, Gapped, NeighbourReaches;
    if op.Allocate? {
      PlaceIsDeterministic(s, op.size, op.id, o.address, t, o'.address, t');
    }
  }

  lemma PlaceIsDeterministic(s: State, size: u64, id: u64, r: Result<u64, Error>, t: State,
                             r': Result<u64, Error>, t': State)
    requires PlaceStep(s, size, id, r, t) && PlaceStep(s, size, id, r', t')
    ensures r == r' && t == t'
  {
    hide Carve, AllocateOverflows;
    if r.Ok? && r'.Ok? {
      var i :| 0 <= i < |s.regions| && PlacedIn(s, size, id, r.value, i, t);
      var j :| 0 <= j < |s.regions| && PlacedIn(s, size, id, r'.value, j, t');
      assert i == j;
    }
  }

  lemma {:induction false} RunIsDeterministic(states: seq<State>, states': seq<State>, ops: seq<Op>,
                                              outs: seq<Outcome>, outs': seq<Outcome>, i: nat)
    requires IsRun(states, ops, outs) && IsRun(states', ops, outs')
    requires states[0] == states'[0] && Initial(states[0]) && i <= |ops|
    ensures states[i] == states'[i] && outs[..i] == outs'[..i]
  {
    hide Partition, Step, Initial;
    if i == 0 {
    } else {
      RunIsDeterministic(states, states', ops, outs, outs', i - 1);
      RunKeepsPartition(states, ops, outs, i - 1);
      StepIsDeterministic(states[i - 1], ops[i - 1], outs[i - 1], states[i], outs'[i - 1], states'[i]);
      assert outs[..i] == outs[..i - 1] + [outs[i - 1]];
      assert outs'[..i] == outs'[..i - 1] + [outs'[i - 1]];
    }
  }

  /** For pools ending below the last address and sizes up to 2^64 - min_align, a fresh id and a non-zero
      size: the lowest fit is returned, and EFAULT exactly when nothing fits. */
  lemma AllocateIsLowestFit(states: seq<State>, ops: seq<Op>, outs: seq<Outcome>, i: nat)
    requires IsRun(states, ops, outs) && Initial(states[0]) && Canonical(states[0].pools)
    requires i < |ops| && ops[i].Allocate?
    requires ops[i].id !in states[i].allocs && ops[i].size > 0
    requires ops[i].size <= U64_MAX + 1 - states[0].minAlign
    requires forall k | 0 <= k < |states[0].pools| :: states[0].pools[k].end < U64_MAX
    ensures outs[i].Address? && match outs[i].address
            case Ok(a) =>
              LowestFit(states[i], a, ops[i].size)
            case Err(e) =>
              e == EFAULT && forall a :: !Fits(states[i], a, ops[i].size)
  {
    RunKeepsInv(states, ops, outs, i);
    RunIsAddressRun(states, ops, outs, i);
    WithinBoundsNothingOverflows(states[i], ops[i].size);
  }

  /** Beyond that bound the answer can be an overflow where EFAULT is due: after one 100-byte allocation in
      the 4 GiB pool, a request for 2^64 - 1 bytes overflows on the unaligned region left. */
  lemma HugeRequestOverflows(s: State, r: Result<u64, Error>, t: State, q: Result<u64, Error>, u: State)
    requires s == State(0x1000, [AddressRange(0, U32_MAX)], map[], [AddressRange(0, U32_MAX)])
    requires AllocateStep(s, 100, 7, r, t) && AllocateStep(t, U64_MAX, 8, q, u)
    ensures Initial(s) && Canonical(s.pools) && r == Ok(0) && t.regions == [AddressRange(100, U32_MAX)]
    ensures q == Err(Overflow) && forall a :: !Fits(t, a, U64_MAX)
  {
    assert IsPowerOfTwo(0x1000) by {
      assert IsPowerOfTwo(0x100) by {
        assert IsPowerOfTwo(0x10);
      }
    }
    OneRange(AddressRange(0, U32_MAX));
    OneRange(AddressRange(100, U32_MAX));
    assert Inv(s) by {
      assert forall x :: !Live(s.allocs, x);
    }
    assert AlignUp(0, 0x1000) == 0;
    assert NoneFitsBefore(s, 100, 0) && RegionFits(s.minAlign, s.regions[0], 100);
    FirstFitIsLowestFit(s, 100, 0);
    assert !AllocateOverflows(s, 100);
    assert r == Ok(0);
    AllocateKeepsInv(s, 100, 7, r, t);
    CanonicalIsUnique(t.regions, [AddressRange(100, U32_MAX)]);
    assert t.regions[0] == AddressRange(100, U32_MAX);
    assert NoneFitsBefore(t, U64_MAX, 0) && AllocateOverflows(t, U64_MAX);
    assert !RegionFits(t.minAlign, t.regions[0], U64_MAX);
    FirstFitIsLowestFit(t, U64_MAX, 1);
  }

  lemma OneRange(r: AddressRange)
    ensures !r.IsEmpty() ==> Canonical([r])
    ensures forall x :: Covered([r], x) <==> r.Has(x)
  {
    assert [r][0] == r;
  }

  // ----- Conservation of bytes -----

  ghost function RangeBytes(rs: seq<AddressRange>): (bytes: set<int>)
    ensures forall x :: x in bytes <==> Covered(rs, x)
  {
    if rs == [] then {}
    else
      assert rs == [rs[0]] + rs[1..];
      assert forall x :: Covered(rs, x) <==> rs[0].Has(x) || Covered(rs[1..], x) by {
        forall x
          ensures Covered(rs, x) <==> rs[0].Has(x) || Covered(rs[1..], x)
        {
          CoveredIsMembership(rs, x);
          CoveredIsMembership(rs[1..], x);
        }
      }
      Interval(rs[0].start, rs[0].end) + RangeBytes(rs[1..])
  }

  ghost function LiveBytes(allocs: map<u64, AddressRange>): (bytes: set<int>)
    ensures forall x :: x in bytes <==> Live(allocs, x)
  {
    var bytes := set id, x | id in allocs && x in Interval(allocs[id].start, allocs[id].end) :: x;
    assert forall x :: x in bytes <==> Live(allocs, x) by {
      forall x
        ensures x in bytes <==> Live(allocs, x)
      {
        if Live(allocs, x) {
          var id :| id in allocs && allocs[id].Has(x);
          assert x in Interval(allocs[id].start, allocs[id].end);
        }
      }
    }
    bytes
  }

  lemma PartsAddUp<T>(a: set<T>, b: set<T>, whole: set<T>)
    requires a !! b
    requires forall x | x in whole :: x in a || x in b
    requires forall x | x in a :: x in whole
    requires forall x | x in b :: x in whole
    ensures |a| + |b| == |whole|
  {
    assert whole == a + b;
  }

  /** In every reachable state live bytes plus free bytes make up the pools. */
  lemma BytesAreConserved(states: seq<State>, ops: seq<Op>, outs: seq<Outcome>, i: nat)
    requires IsRun(states, ops, outs) && Initial(states[0]) && i < |states|
    ensures |LiveBytes(states[i].allocs)| + |RangeBytes(states[i].regions)| == |RangeBytes(states[0].pools)|
  {
    RunKeepsPartition(states, ops, outs, i);
    StateBytesAddUp(states[i]);
  }

  lemma StateBytesAddUp(s: State)
    requires Partition(s)
    ensures |LiveBytes(s.allocs)| + |RangeBytes(s.regions)| == |RangeBytes(s.pools)|
  {
    PartsAddUp(LiveBytes(s.allocs), RangeBytes(s.regions), RangeBytes(s.pools));
  }

  /** A successful allocation of `size` bytes moves exactly `size` bytes from free to live. */
  lemma AllocateMovesSize(s: State, size: u64, id: u64, a: u64, t: State)
    requires Partition(s) && PlaceStep(s, size, id, Ok(a), t)
    ensures |LiveBytes(t.allocs)| == |LiveBytes(s.allocs)| + size
    ensures |RangeBytes(t.regions)| == |RangeBytes(s.regions)| - size
  {
    PlaceKeepsPartition(s, size, id, Ok(a), t);
    PlaceKeepsWellFormed(s, size, id, Ok(a), t);
    hide PlaceStep, Covered, WellFormed;
    PlaceCarves(s, size, id, a, t, 0);
    RegionsLoseTaken(s.regions, t.regions, a, size);
    StateBytesAddUp(s);
    StateBytesAddUp(t);
  }

  lemma RegionsLoseTaken(rs: seq<AddressRange>, qs: seq<AddressRange>, a: nat, size: nat)
    requires forall x :: Covered(qs, x) <==> Covered(rs, x) && !(a <= x < a + size)
    requires forall x | a <= x < a + size :: Covered(rs, x)
    ensures |RangeBytes(qs)| == |RangeBytes(rs)| - size
  {
    hide RangeBytes, Interval, Covered;
    PartsAddUp(RangeBytes(qs), Interval(a, a + size - 1), RangeBytes(rs));
  }
}
