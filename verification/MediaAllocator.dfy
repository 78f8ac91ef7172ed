/** The aligned first-fit range allocator of vhost-device-media.

    `regions` is the source's ordered set of free ranges, kept as the sequence that set iterates
    over; `allocs` is its map of live ranges. */
module Allocator {
  import opened Common
  import opened AddressRanges
  import opened SortedRanges
  import opened Alignment

  /** The source's error codes, and `Overflow` for an unsigned overflow (a panic in a checked build). */
  datatype Error = EBADR | EADDRINUSE | EINVAL | EFAULT | Overflow

  datatype State = State(
    minAlign: Align,
    pools: seq<AddressRange>,
    allocs: map<u64, AddressRange>,
    regions: seq<AddressRange>)

  ghost predicate Live(allocs: map<u64, AddressRange>, x: int) {
    exists id :: id in allocs && allocs[id].Has(x)
  }

  /** What every allocator keeps, whatever pools it was built from. */
  ghost predicate WellFormed(s: State) {
    && IsPowerOfTwo(s.minAlign)
    && Sorted(s.regions)
    && (forall r | r in s.regions :: !r.IsEmpty())
    && (forall id | id in s.allocs :: !s.allocs[id].IsEmpty() && s.allocs[id].start % s.minAlign == 0)
  }

  /** Live and free ranges partition the pools, which are disjoint but may touch. */
  ghost predicate Partition(s: State) {
    && WellFormed(s)
    && Gapped(s.pools, 0)
    && Gapped(s.regions, 0)
    && (forall a, b, x | a in s.allocs && b in s.allocs && s.allocs[a].Has(x) && s.allocs[b].Has(x) :: a == b)
    && (forall x :: Covered(s.pools, x) <==> Covered(s.regions, x) || Live(s.allocs, x))
    && (forall x :: !(Covered(s.regions, x) && Live(s.allocs, x)))
  }

  /** For separated pools the free list is canonical besides. */
  ghost predicate Inv(s: State) {
    Partition(s) && Canonical(s.pools) && Canonical(s.regions)
  }

  // ----- What each operation does, stated over the two collections -----

  ghost predicate PlaceStep(s: State, size: u64, id: u64, r: Result<u64, Error>, t: State) {
    if id in s.allocs then r == Err(EADDRINUSE) && t == s
    else if size == 0 then r == Err(EINVAL) && t == s
    else if AllocateOverflows(s, size) then r == Err(Overflow) && t == s
    else match r
      case Ok(a) =>
        exists i :: 0 <= i < |s.regions| && PlacedIn(s, size, id, a, i, t)
      case Err(e) =>
        e == EFAULT && t == s && NoneFitsBefore(s, size, |s.regions|)
  }

  /** The first region with room is region `i`; the bytes are carved out of it at its first aligned address. */
  ghost predicate PlacedIn(s: State, size: u64, id: u64, a: u64, i: nat, t: State)
    requires i < |s.regions|
  {
    && NoneFitsBefore(s, size, i) && RegionFits(s.minAlign, s.regions[i], size)
    && a == AlignUp(s.regions[i].start, s.minAlign) && size > 0 && a + size - 1 <= U64_MAX
    && var range := AddressRange(a, a + size - 1);
       t == s.(allocs := s.allocs[id := range], regions := Carve(s.regions, i, range))
  }

  /** The id is gone either way; its range goes back unless a neighbouring region reaches into it. */
  ghost predicate GiveBackStep(s: State, id: u64, r: Result<AddressRange, Error>, t: State) {
    if id !in s.allocs then r == Err(EINVAL) && t == s
    else
      var range := s.allocs[id];
      if NeighbourReaches(s.regions, range) then
        r == Err(EBADR) && t == s.(allocs := s.allocs - {id})
      else
        && r == Ok(range)
        && t == s.(allocs := s.allocs - {id}, regions := Coalesce(s.regions, SplitPoint(s.regions, range), range))
  }

  ghost predicate GiveBackContainingStep(s: State, value: u64, r: Result<AddressRange, Error>, t: State) {
    if Live(s.allocs, value) then
      exists id :: id in s.allocs && s.allocs[id].Has(value) && GiveBackStep(s, id, r, t)
    else
      r == Err(EFAULT) && t == s
  }

  // ----- What each operation does, stated over addresses -----

  ghost predicate Free(s: State, x: int) {
    Covered(s.pools, x) && !Live(s.allocs, x)
  }

  /** `size` bytes from the aligned address `a` lie in the pools and meet no live range. */
  ghost predicate Fits(s: State, a: int, size: int) {
    a % s.minAlign == 0 && forall x | a <= x < a + size :: Free(s, x)
  }

  ghost predicate LowestFit(s: State, a: int, size: int) {
    Fits(s, a, size) && forall b | Fits(s, b, size) :: a <= b
  }

  ghost predicate RegionFits(m: Align, r: AddressRange, size: u64)
  {
    AlignUp(r.start, m) + size - 1 <= r.end
  }

  ghost predicate NoneFitsBefore(s: State, size: u64, i: nat)
    requires i <= |s.regions|
  {
    forall j | 0 <= j < i :: !RegionFits(s.minAlign, s.regions[j], size)
  }

  /** The two sums of `allocate` that can leave 64 bits: the probe of an unaligned region, and the
      end of the chosen range. */
  ghost predicate AllocateOverflows(s: State, size: u64)
  {
    exists i ::
      && 0 <= i < |s.regions|
      && NoneFitsBefore(s, size, i)
      && var r := s.regions[i];
         if r.start % s.minAlign != 0 && size - 1 + s.minAlign > U64_MAX then true
         else RegionFits(s.minAlign, r, size) && AlignUp(r.start, s.minAlign) + size > U64_MAX
  }

  ghost predicate AllocateStep(s: State, size: u64, id: u64, r: Result<u64, Error>, t: State)
  {
    if id in s.allocs then r == Err(EADDRINUSE) && t == s
    else if size == 0 then r == Err(EINVAL) && t == s
    else if AllocateOverflows(s, size) then r == Err(Overflow) && t == s
    else match r
      case Ok(a) =>
        && LowestFit(s, a, size)
        && a + size - 1 <= U64_MAX
        && t == s.(allocs := s.allocs[id := AddressRange(a, a + size - 1)], regions := t.regions)
        && Canonical(t.regions)
        && forall x :: Covered(t.regions, x) <==> Covered(s.regions, x) && !(a <= x < a + size)
      case Err(e) =>
        e == EFAULT && t == s && forall a :: !Fits(s, a, size)
  }

  ghost predicate ReleaseStep(s: State, id: u64, r: Result<AddressRange, Error>, t: State) {
    if id in s.allocs then
      && r == Ok(s.allocs[id])
      && t == s.(allocs := s.allocs - {id}, regions := t.regions)
      && Canonical(t.regions)
      && forall x :: Covered(t.regions, x) <==> Covered(s.regions, x) || s.allocs[id].Has(x)
    else
      r == Err(EINVAL) && t == s
  }

  ghost predicate ReleaseContainingStep(s: State, value: u64, r: Result<AddressRange, Error>, t: State) {
    if Live(s.allocs, value) then
      exists id :: id in s.allocs && s.allocs[id].Has(value) && ReleaseStep(s, id, r, t)
    else
      r == Err(EFAULT) && t == s
  }

  // ----- First fit over regions is lowest fit over addresses -----

  lemma FitLiesInRegion(s: State, size: u64, b: int) returns (i: nat)
    requires Inv(s) && size > 0 && Fits(s, b, size)
    ensures i < |s.regions| && RegionFits(s.minAlign, s.regions[i], size)
    ensures AlignUp(s.regions[i].start, s.minAlign) <= b
  {
    forall x | b <= x <= b + size - 1
      ensures Covered(s.regions, x)
    {
      assert Free(s, x);
    }
    i := RunLiesInOneRange(s.regions, b, b + size - 1);
    AlignUpIsLeast(s.regions[i].start, s.minAlign, b);
  }

  /** The first region with room starts the lowest fit; with no such region nothing fits at all. */
  lemma FirstFitIsLowestFit(s: State, size: u64, i: nat)
    requires Inv(s) && size > 0 && i <= |s.regions| && NoneFitsBefore(s, size, i)
    ensures i < |s.regions| && RegionFits(s.minAlign, s.regions[i], size) ==>
              LowestFit(s, AlignUp(s.regions[i].start, s.minAlign), size)
    ensures i == |s.regions| ==> forall b :: !Fits(s, b, size)
  {
    forall b | Fits(s, b, size)
      ensures i < |s.regions| && AlignUp(s.regions[i].start, s.minAlign) <= b
    {
      var k := FitLiesInRegion(s, size, b);
      assert i <= k;
      AlignUpIsLeast(s.regions[i].start, s.minAlign, AlignUp(s.regions[k].start, s.minAlign));
      AlignUpIsLeast(s.regions[k].start, s.minAlign, 0);
    }
    if i < |s.regions| && RegionFits(s.minAlign, s.regions[i], size) {
      var a := AlignUp(s.regions[i].start, s.minAlign);
      AlignUpIsLeast(s.regions[i].start, s.minAlign, a);
      forall x | a <= x < a + size
        ensures Free(s, x)
      {
        assert s.regions[i].Has(x);
        assert Covered(s.regions, x);
      }
    }
  }

  /** Over disjoint pools that may touch, no region has room exactly when every fit reaches across regions. */
  lemma RefusedExactly(s: State, size: u64)
    requires Partition(s) && size > 0
    ensures NoneFitsBefore(s, size, |s.regions|)
            <==> forall a, i | Fits(s, a, size) && 0 <= i < |s.regions| ::
                   a < s.regions[i].start || s.regions[i].end < a + size - 1
  {
    forall i | 0 <= i < |s.regions|
      ensures RegionFits(s.minAlign, s.regions[i], size) <==>
              exists a :: Fits(s, a, size) && s.regions[i].start <= a && a + size - 1 <= s.regions[i].end
    {
      RegionFitsExactly(s, size, i);
    }
  }

  lemma RegionFitsExactly(s: State, size: u64, i: nat)
    requires Partition(s) && size > 0 && i < |s.regions|
    ensures RegionFits(s.minAlign, s.regions[i], size) <==>
            exists a :: Fits(s, a, size) && s.regions[i].start <= a && a + size - 1 <= s.regions[i].end
  {
    var r := s.regions[i];
    var first := AlignUp(r.start, s.minAlign);
    AlignUpIsLeast(r.start, s.minAlign, 0);
    if RegionFits(s.minAlign, r, size) {
      forall x | first <= x < first + size
        ensures Free(s, x)
      {
        assert r.Has(x) && Covered(s.regions, x);
      }
      assert Fits(s, first, size);
    }
    if a :| Fits(s, a, size) && r.start <= a && a + size - 1 <= r.end {
      AlignUpIsLeast(r.start, s.minAlign, a);
    }
  }

  /** With every pool ending below the last address and a size at most 2^64 - min_align, no sum overflows. */
  lemma WithinBoundsNothingOverflows(s: State, size: u64)
    requires Inv(s) && size > 0
    requires forall i | 0 <= i < |s.pools| :: s.pools[i].end < U64_MAX
    requires size <= U64_MAX + 1 - s.minAlign
    ensures !AllocateOverflows(s, size)
  {
    forall i | 0 <= i < |s.regions|
      ensures s.regions[i].end < U64_MAX
    {
      assert s.regions[i].Has(s.regions[i].end);
      assert Covered(s.regions, s.regions[i].end);
    }
  }

  // ----- The steps over collections refine the steps over addresses -----

  lemma PlaceKeepsWellFormed(s: State, size: u64, id: u64, r: Result<u64, Error>, t: State)
    requires WellFormed(s) && PlaceStep(s, size, id, r, t)
    ensures WellFormed(t) && t.pools == s.pools && t.minAlign == s.minAlign
  {
    hide Carve, AllocateOverflows;
    if r.Ok? {
      var i :| 0 <= i < |s.regions| && PlacedIn(s, size, id, r.value, i, t);
      CarveKeepsSorted(s.regions, i, t.allocs[id]);
      AlignUpIsLeast(s.regions[i].start, s.minAlign, 0);
    }
  }

  lemma GiveBackKeepsWellFormed(s: State, id: u64, r: Result<AddressRange, Error>, t: State)
    requires WellFormed(s) && GiveBackStep(s, id, r, t)
    ensures WellFormed(t) && t.pools == s.pools && t.minAlign == s.minAlign
  {
    hide Coalesce;
    if r.Ok? {
      CoalesceKeepsSorted(s.regions, SplitPoint(s.regions, s.allocs[id]), s.allocs[id]);
    }
  }

  /** What carving does to the addresses, on a disjoint or a canonical list. */
  lemma PlaceCarves(s: State, size: u64, id: u64, a: u64, t: State, gap: nat)
    requires gap <= 1 && Gapped(s.regions, gap) && PlaceStep(s, size, id, Ok(a), t)
    ensures id !in s.allocs && size > 0 && a + size - 1 <= U64_MAX
    ensures t == s.(allocs := s.allocs[id := AddressRange(a, a + size - 1)], regions := t.regions)
    ensures Gapped(t.regions, gap)
    ensures forall x :: Covered(t.regions, x) <==> Covered(s.regions, x) && !(a <= x < a + size)
    ensures forall x | a <= x < a + size :: Covered(s.regions, x)
  {
    hide AllocateOverflows, NoneFitsBefore, Carve;
    var i :| 0 <= i < |s.regions| && PlacedIn(s, size, id, a, i, t);
    AlignUpIsLeast(s.regions[i].start, s.minAlign, 0);
    CarveIsDifference(s.regions, i, AddressRange(a, a + size - 1), gap);
    forall x | a <= x < a + size
      ensures Covered(s.regions, x)
    {
      assert s.regions[i].Has(x);
    }
  }

  lemma GiveBackJoins(s: State, id: u64, r: Result<AddressRange, Error>, t: State, gap: nat)
    requires gap <= 1 && Gapped(s.regions, gap) && id in s.allocs && !s.allocs[id].IsEmpty()
    requires forall x | s.allocs[id].Has(x) :: !Covered(s.regions, x)
    requires GiveBackStep(s, id, r, t)
    ensures r == Ok(s.allocs[id])
    ensures t == s.(allocs := s.allocs - {id}, regions := t.regions)
    ensures Gapped(t.regions, gap)
    ensures forall x :: Covered(t.regions, x) <==> Covered(s.regions, x) || s.allocs[id].Has(x)
  {
    hide Coalesce;
    var range := s.allocs[id];
    OverlapIsLocal(s.regions, range);
    CoalesceIsUnion(s.regions, SplitPoint(s.regions, range), range, gap);
  }

  /** Disjoint pools, touching or not: live and free ranges stay a partition. */
  lemma PlaceKeepsPartition(s: State, size: u64, id: u64, r: Result<u64, Error>, t: State)
    requires Partition(s) && PlaceStep(s, size, id, r, t)
    ensures Partition(t)
  {
    PlaceKeepsWellFormed(s, size, id, r, t);
    if r.Ok? {
      PlaceCarves(s, size, id, r.value, t, 0);
      hide PlaceStep, WellFormed;
      TakenKeepsPartition(s, id, t.allocs[id], t);
    }
  }

  lemma TakenKeepsPartition(s: State, id: u64, range: AddressRange, t: State)
    requires Partition(s) && WellFormed(t) && id !in s.allocs && Gapped(t.regions, 0)
    requires t == s.(allocs := s.allocs[id := range], regions := t.regions)
    requires forall x :: Covered(t.regions, x) <==> Covered(s.regions, x) && !range.Has(x)
    requires forall x | range.Has(x) :: Covered(s.regions, x)
    ensures Partition(t)
  {
    hide Covered, WellFormed;
    forall x
      ensures Live(t.allocs, x) <==> Live(s.allocs, x) || range.Has(x)
    {
      if Live(s.allocs, x) {
        var k :| k in s.allocs && s.allocs[k].Has(x);
        assert t.allocs[k].Has(x);
      }
      assert t.allocs[id] == range;
    }
  }

  /** Over disjoint pools a release of a live id never fails, and keeps the partition. */
  lemma GiveBackKeepsPartition(s: State, id: u64, r: Result<AddressRange, Error>, t: State)
    requires Partition(s) && GiveBackStep(s, id, r, t)
    ensures Partition(t) && (r.Ok? <==> id in s.allocs)
  {
    GiveBackKeepsWellFormed(s, id, r, t);
    if id in s.allocs {
      LiveIsNotFree(s, id);
      GiveBackJoins(s, id, r, t, 0);
      hide GiveBackStep, WellFormed;
      ReturnedKeepsPartition(s, id, t);
    }
  }

  lemma LiveIsNotFree(s: State, id: u64)
    requires Partition(s) && id in s.allocs
    ensures !s.allocs[id].IsEmpty() && forall x | s.allocs[id].Has(x) :: !Covered(s.regions, x)
  {
    forall x | s.allocs[id].Has(x)
      ensures Live(s.allocs, x)
    {
    }
  }

  lemma ReturnedKeepsPartition(s: State, id: u64, t: State)
    requires Partition(s) && WellFormed(t) && id in s.allocs && Gapped(t.regions, 0)
    requires t == s.(allocs := s.allocs - {id}, regions := t.regions)
    requires forall x :: Covered(t.regions, x) <==> Covered(s.regions, x) || s.allocs[id].Has(x)
    ensures Partition(t)
  {
    hide Covered, WellFormed;
    var range := s.allocs[id];
    forall x
      ensures Live(s.allocs, x) <==> Live(t.allocs, x) || range.Has(x)
      ensures !(Live(t.allocs, x) && range.Has(x))
    {
      if Live(s.allocs, x) {
        var k :| k in s.allocs && s.allocs[k].Has(x);
        assert k != id ==> t.allocs[k].Has(x);
      }
    }
  }

  /** First fit over the ordered regions is lowest fit over the addresses. */
  lemma PlaceIsLowestFit(s: State, size: u64, id: u64, r: Result<u64, Error>, t: State)
    requires Inv(s) && PlaceStep(s, size, id, r, t)
    ensures AllocateStep(s, size, id, r, t) && Inv(t)
  {
    hide Inv, Partition, WellFormed, AllocateOverflows, NoneFitsBefore, Carve, LowestFit, Fits, AllocateStep, Canonical;
    CanonicalOfInv(s);
    PlaceKeepsPartition(s, size, id, r, t);
    if id !in s.allocs && size > 0 && !AllocateOverflows(s, size) {
      if r.Ok? {
        PlaceCarves(s, size, id, r.value, t, 1);
        var i :| 0 <= i < |s.regions| && PlacedIn(s, size, id, r.value, i, t);
        FirstFitIsLowestFit(s, size, i);
      } else {
        FirstFitIsLowestFit(s, size, |s.regions|);
      }
    }
    PlaceIsStep(s, size, id, r, t);
  }

  lemma CanonicalOfInv(s: State)
    requires Inv(s)
    ensures Partition(s) && Gapped(s.regions, 1) && Gapped(s.pools, 1)
  {
  }

  lemma PlaceIsStep(s: State, size: u64, id: u64, r: Result<u64, Error>, t: State)
    requires Inv(s) && PlaceStep(s, size, id, r, t) && Partition(t)
    requires id !in s.allocs && size > 0 && !AllocateOverflows(s, size) ==>
               match r
               case Ok(a) =>
                 && LowestFit(s, a, size) && a + size - 1 <= U64_MAX && Gapped(t.regions, 1)
                 && t == s.(allocs := s.allocs[id := AddressRange(a, a + size - 1)], regions := t.regions)
                 && forall x :: Covered(t.regions, x) <==> Covered(s.regions, x) && !(a <= x < a + size)
               case Err(_) => forall a :: !Fits(s, a, size)
    ensures AllocateStep(s, size, id, r, t) && Inv(t)
  {
    hide Partition, WellFormed, AllocateOverflows, NoneFitsBefore, PlacedIn, LowestFit, Fits, Covered;
  }

  lemma GiveBackIsRelease(s: State, id: u64, r: Result<AddressRange, Error>, t: State)
    requires Inv(s) && GiveBackStep(s, id, r, t)
    ensures ReleaseStep(s, id, r, t) && Inv(t)
  {
    GiveBackKeepsPartition(s, id, r, t);
    if id in s.allocs {
      LiveIsNotFree(s, id);
      GiveBackJoins(s, id, r, t, 1);
    }
  }

  // ----- The allocator -----

  /** Distinct non-empty pools are more than `gap` addresses apart. */
  ghost predicate AllApart(pools: seq<AddressRange>, gap: nat) {
    forall p, q | p in pools && q in pools && !p.IsEmpty() && !q.IsEmpty() && p != q :: Apart(p, q, gap)
  }

  class MediaAllocator {
    var minAlign: Align
    var allocs: map<u64, AddressRange>
    var regions: seq<AddressRange>
    ghost var pools: seq<AddressRange>

    ghost function Model(): (m: State)
      reads this
    {
      State(minAlign, pools, allocs, regions)
    }

    ghost predicate Valid()
      reads this
    {
      Inv(Model())
    }

    constructor Init(minAlign: Align, regions: seq<AddressRange>)
      ensures Model() == State(minAlign, regions, map[], regions)
    {
      this.minAlign, this.allocs, this.regions, this.pools := minAlign, map[], regions, regions;
    }

    static method New(pool: AddressRange, minAlign: Option<u64>) returns (r: Result<MediaAllocator, Error>)
      ensures var m := if minAlign.Some? then minAlign.value else 4;
              if !IsPowerOfTwo(m) then r == Err(EBADR)
              else
                && r.Ok? && fresh(r.value) && r.value.Valid()
                && r.value.Model() ==
                     var rs := if pool.IsEmpty() then [] else [pool]; State(m, rs, map[], rs)
    {
      r := NewFromList([pool], minAlign);
      if r.Ok? {
        OnlyElement(r.value.regions, pool);
      }
    }

    /** Overlapping or adjacent pools are not rejected: live and free ranges partition the pools exactly when
        distinct non-empty pools are disjoint, and the free list is canonical exactly when they are separated. */
    static method NewFromList(pools: seq<AddressRange>, minAlign: Option<u64>) returns (r: Result<MediaAllocator, Error>)
      ensures r.Ok? <==> IsPowerOfTwo(if minAlign.Some? then minAlign.value else 4)
      ensures r.Err? ==> r.error == EBADR
      ensures r.Ok? ==>
                && fresh(r.value)
                && r.value.minAlign == (if minAlign.Some? then minAlign.value else 4)
                && r.value.allocs == map[]
                && r.value.pools == r.value.regions
                && Sorted(r.value.regions)
                && (forall p :: p in r.value.regions <==> p in pools && !p.IsEmpty())
                && WellFormed(r.value.Model())
                && (Partition(r.value.Model()) <==> AllApart(pools, 0))
                && (r.value.Valid() <==> AllApart(pools, 1))
    {
      hide Inv, Partition, WellFormed, AllApart, Insert;
      var m := if minAlign.Some? then minAlign.value else 4;
      if !IsPowerOfTwo(m) || m == 0 {
        return Err(EBADR);
      }
      var rs: seq<AddressRange> := [];
      assert Sorted(rs);
      hide Sorted;
      for k := 0 to |pools|
        invariant Sorted(rs)
        invariant forall p :: p in rs <==> p in pools[..k] && !p.IsEmpty()
      {
        if !pools[k].IsEmpty() {
          InsertKeepsSorted(rs, pools[k]);
          rs := Insert(rs, pools[k]);
        }
      }
      var a := new MediaAllocator.Init(m, rs);
      r := Ok(a);
      FreshAllocator(m, pools, rs);
    }

    method AllocateFromSlot(k: nat, range: AddressRange, id: u64) returns (start: u64)
      requires k < |regions|
      modifies this`allocs, this`regions
      ensures start == range.start
      ensures allocs == old(allocs)[id := range]
      ensures regions == Carve(old(regions), k, range)
    {
      var slot := regions[k];
      regions := RemoveAt(regions, k);
      var (before, after) := slot.NonOverlappingRanges(range);
      if !before.IsEmpty() {
        regions := Insert(regions, before);
      }
      if !after.IsEmpty() {
        regions := Insert(regions, after);
      }
      allocs := allocs[id := range];
      start := range.start;
    }

    /** From any pools the first region with room is taken; from separated ones that is the lowest fit. */
    method Allocate(size: u64, id: u64) returns (r: Result<u64, Error>)
      requires WellFormed(Model())
      modifies this`allocs, this`regions
      ensures PlaceStep(old(Model()), size, id, r, Model())
      ensures WellFormed(Model())
      ensures old(Valid()) ==> AllocateStep(old(Model()), size, id, r, Model()) && Valid()
    {
      hide Carve;
      r := Place(size, id);
      PlaceKeepsWellFormed(old(Model()), size, id, r, Model());
      if old(Valid()) {
        PlaceIsLowestFit(old(Model()), size, id, r, Model());
      }
    }

    method Place(size: u64, id: u64) returns (r: Result<u64, Error>)
      requires WellFormed(Model())
      modifies this`allocs, this`regions
      ensures PlaceStep(old(Model()), size, id, r, Model())
    {
      hide Carve, IsPowerOfTwo, AlignUp;
      if id in allocs {
        return Err(EADDRINUSE);
      }
      if size == 0 {
        return Err(EINVAL);
      }
      ghost var s := Model();
      for i := 0 to |regions|
        invariant Model() == s && NoneFitsBefore(s, size, i)
        invariant size - 1 + minAlign > U64_MAX ==> forall j | 0 <= j < i :: regions[j].start % minAlign == 0
      {
        var slot := regions[i];
        var rem := slot.start % minAlign;
        if rem != 0 && size - 1 + minAlign > U64_MAX {
          return Err(Overflow);
        }
        var room := slot.start + (if rem == 0 then size - 1 else size - 1 + minAlign - rem);
        AlignUpByRemainder(slot.start, minAlign);
        if room <= slot.end {
          var start := FirstAligned(slot.start, minAlign);
          if start + size > U64_MAX {
            return Err(Overflow);
          }
          var range := AddressRange(start, start + size - 1);
          NothingElseOverflows(s, size, i);
          var a := AllocateFromSlot(i, range, id);
          assert PlacedIn(s, size, id, a, i, Model());
          return Ok(a);
        }
      }
      NothingElseOverflows(s, size, |regions|);
      r := Err(EFAULT);
    }

    /** Only the neighbours of `slot` in the ordered set are looked at: it is refused exactly when one of them
        reaches into it. On disjoint regions that is when it overlaps any region. */
    method InsertAt(slot: AddressRange) returns (r: Result<(), Error>)
      requires Sorted(regions)
      modifies this`regions
      ensures slot.IsEmpty() ==> r == Err(EINVAL)
      ensures !slot.IsEmpty() ==> r == if NeighbourReaches(old(regions), slot) then Err(EBADR) else Ok(())
      ensures regions == if r.Ok? then Coalesce(old(regions), SplitPoint(old(regions), slot), slot) else old(regions)
      ensures !slot.IsEmpty() && Gapped(old(regions), 0) ==>
                && (r.Ok? <==> !exists i :: 0 <= i < |old(regions)| && old(regions)[i].Overlaps(slot))
                && Gapped(regions, 0)
                && (Canonical(old(regions)) ==> Canonical(regions))
                && (r.Ok? ==> forall x :: Covered(regions, x) <==> Covered(old(regions), x) || slot.Has(x))
    {
      if slot.IsEmpty() {
        return Err(EINVAL);
      }
      GappedInsert(regions, slot);
      hide Covered, Gapped, Coalesce, Sorted;
      var k := 0;
      while k < |regions| && !slot.Less(regions[k])
        invariant 0 <= k <= |regions|
        invariant forall j | 0 <= j < k :: !slot.Less(regions[j])
      {
        k := k + 1;
      }
      SplitIsSplitPoint(regions, slot, k);
      if k > 0 {
        var smaller := regions[k - 1];
        if smaller.end == U64_MAX || smaller.end + 1 > slot.start {
          return Err(EBADR);
        }
      }
      if k < |regions| {
        var larger := regions[k];
        if larger.start == 0 || slot.end > larger.start - 1 {
          return Err(EBADR);
        }
      }
      MergeAt(k, slot);
      r := Ok(());
    }

    /** The neighbours that touch the slot are removed, and it is inserted extended over them. */
    method MergeAt(k: nat, slot: AddressRange)
      requires k <= |regions|
      modifies this`regions
      ensures regions == Coalesce(old(regions), k, slot)
    {
      hide Insert;
      var merged, next := slot, k;
      if k > 0 && regions[k - 1].end + 1 == slot.start {
        merged := merged.(start := regions[k - 1].start);
        regions, next := RemoveAt(regions, k - 1), k - 1;
      }
      if next < |regions| && slot.end == regions[next].start - 1 {
        merged := merged.(end := regions[next].end);
        regions := RemoveAt(regions, next);
      }
      regions := Insert(regions, merged);
    }

    /** The live range leaves `allocs` before it is inserted, so a failed insertion loses it. Over separated
        pools the insertion never fails. */
    method Release(id: u64) returns (r: Result<AddressRange, Error>)
      requires WellFormed(Model())
      modifies this`allocs, this`regions
      ensures GiveBackStep(old(Model()), id, r, Model())
      ensures WellFormed(Model())
      ensures old(Valid()) ==> ReleaseStep(old(Model()), id, r, Model()) && Valid()
    {
      hide Coalesce;
      r := GiveBack(id);
      GiveBackKeepsWellFormed(old(Model()), id, r, Model());
      if old(Valid()) {
        GiveBackIsRelease(old(Model()), id, r, Model());
      }
    }

    method GiveBack(id: u64) returns (r: Result<AddressRange, Error>)
      requires WellFormed(Model())
      modifies this`allocs, this`regions
      ensures GiveBackStep(old(Model()), id, r, Model())
    {
      hide Coalesce, Gapped, Covered;
      if id !in allocs {
        return Err(EINVAL);
      }
      var range := allocs[id];
      allocs := allocs - {id};
      var inserted := InsertAt(range);
      if inserted.Err? {
        return Err(inserted.error);
      }
      r := Ok(range);
    }

    /** The hash map is searched in an unspecified order, so any overlapping entry may be returned. */
    method FindOverlapping(range: AddressRange) returns (found: Option<u64>)
      ensures found.Some? ==> found.value in allocs && allocs[found.value].Overlaps(range)
      ensures found.None? ==> range.IsEmpty() || forall id | id in allocs :: !allocs[id].Overlaps(range)
    {
      if range.IsEmpty() {
        return None;
      }
      if id :| id in allocs && allocs[id].Overlaps(range) {
        return Some(id);
      }
      return None;
    }

    method ReleaseContaining(value: u64) returns (r: Result<AddressRange, Error>)
      requires WellFormed(Model())
      modifies this`allocs, this`regions
      ensures GiveBackContainingStep(old(Model()), value, r, Model())
      ensures WellFormed(Model())
      ensures old(Valid()) ==> ReleaseContainingStep(old(Model()), value, r, Model()) && Valid()
    {
      hide Inv, WellFormed, GiveBackStep, ReleaseStep;
      var probe := AddressRange(value, value);
      assert probe.Has(value);
      var found := FindOverlapping(probe);
      if found.None? {
        return Err(EFAULT);
      }
      r := Release(found.value);
    }
  }

  /** The source's way to the least aligned address; its intermediate sum does not overflow. */
  method FirstAligned(start: u64, minAlign: Align) returns (a: u64)
    requires IsPowerOfTwo(minAlign) && AlignUp(start, minAlign) <= U64_MAX
    ensures a == AlignUp(start, minAlign)
  {
    var rem := start % minAlign;
    if rem == 0 {
      return start;
    }
    AlignUpIntermediate(start, minAlign);
    var bumped: u64 := start + minAlign;
    a := bumped - rem;
  }

  lemma AlignUpByRemainder(a: nat, m: nat)
    requires m > 0
    ensures AlignUp(a, m) == (if a % m == 0 then a else a + m - a % m) && AlignUp(a, m) >= a
  {
  }

  /** On disjoint regions the neighbours decide for all of them, and joining them adds the slot. */
  lemma GappedInsert(rs: seq<AddressRange>, slot: AddressRange)
    requires !slot.IsEmpty()
    ensures Gapped(rs, 0) ==>
              && ((exists i :: 0 <= i < |rs| && rs[i].Overlaps(slot)) <==> NeighbourReaches(rs, slot))
              && (!NeighbourReaches(rs, slot) ==>
                    var qs := Coalesce(rs, SplitPoint(rs, slot), slot);
                    && Gapped(qs, 0)
                    && (Canonical(rs) ==> Canonical(qs))
                    && forall x :: Covered(qs, x) <==> Covered(rs, x) || slot.Has(x))
  {
    hide Coalesce, Covered;
    if Gapped(rs, 0) {
      OverlapIsLocal(rs, slot);
      if !NeighbourReaches(rs, slot) {
        CoalesceIsUnion(rs, SplitPoint(rs, slot), slot, 0);
        if Canonical(rs) {
          CoalesceIsUnion(rs, SplitPoint(rs, slot), slot, 1);
        }
      }
    }
  }

  lemma ReleaseKeepsInv(s: State, id: u64, r: Result<AddressRange, Error>, t: State)
    requires Inv(s) && ReleaseStep(s, id, r, t)
    ensures Inv(t)
  {
    if r.Ok? {
      GappedIsSorted(t.regions, 1);
      assert WellFormed(t);
      ReturnedKeepsPartition(s, id, t);
    }
  }

  lemma FreshAllocator(m: Align, pools: seq<AddressRange>, rs: seq<AddressRange>)
    requires IsPowerOfTwo(m) && Sorted(rs) && forall p :: p in rs <==> p in pools && !p.IsEmpty()
    ensures var s := State(m, rs, map[], rs);
            WellFormed(s) && (Partition(s) <==> AllApart(pools, 0)) && (Inv(s) <==> AllApart(pools, 1))
  {
    SortedApartIsGapped(rs, 0);
    SortedApartIsGapped(rs, 1);
    assert forall x :: !Live(map[], x);
  }

  lemma SortedApartIsGapped(rs: seq<AddressRange>, gap: nat)
    requires Sorted(rs) && forall i | 0 <= i < |rs| :: !rs[i].IsEmpty()
    ensures Gapped(rs, gap) <==> AllApart(rs, gap)
  {
    if AllApart(rs, gap) {
      forall i, j | 0 <= i < j < |rs|
        ensures rs[i].end + gap < rs[j].start
      {
        assert rs[i].Less(rs[j]);
        assert Apart(rs[i], rs[j], gap);
      }
    }
  }

  lemma OnlyElement(rs: seq<AddressRange>, p: AddressRange)
    requires Sorted(rs) && forall q | q in rs :: q == p
    ensures p in rs ==> rs == [p]
    ensures p !in rs ==> rs == []
  {
    assert rs != [] ==> rs[0] in rs;
    assert |rs| > 1 ==> rs[1] in rs;
    assert |rs| > 1 ==> rs[0].Less(rs[1]);
  }

  lemma NothingElseOverflows(s: State, size: u64, i: nat)
    requires size > 0 && i <= |s.regions| && NoneFitsBefore(s, size, i)
    requires size - 1 + s.minAlign > U64_MAX ==> forall j | 0 <= j < i :: s.regions[j].start % s.minAlign == 0
    requires i < |s.regions| ==>
               && RegionFits(s.minAlign, s.regions[i], size)
               && AlignUp(s.regions[i].start, s.minAlign) + size <= U64_MAX
               && (size - 1 + s.minAlign > U64_MAX ==> s.regions[i].start % s.minAlign == 0)
    ensures !AllocateOverflows(s, size)
  {
  }

  lemma AllocateKeepsInv(s: State, size: u64, id: u64, r: Result<u64, Error>, t: State)
    requires Inv(s) && AllocateStep(s, size, id, r, t)
    ensures Inv(t)
  {
    if r.Ok? {
      var range := t.allocs[id];
      forall x
        ensures Live(t.allocs, x) <==> Live(s.allocs, x) || range.Has(x)
      {
        if Live(s.allocs, x) {
          var k :| k in s.allocs && s.allocs[k].Has(x);
          assert t.allocs[k].Has(x);
        }
      }
      forall x | range.Has(x)
        ensures Free(s, x)
      {
      }
    }
  }
}
