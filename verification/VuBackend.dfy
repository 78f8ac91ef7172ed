/** Mapping host buffers into the shared-memory region: the allocator's client in vhost-device-media.

    The frontend is outside the model. Its answer to a map or unmap message is the parameter `accepted`,
    and the ghost field `mapped` is what it has mapped if it does what it accepted. */
module VuBackends {
  import opened Common
  import opened AddressRanges
  import opened SortedRanges
  import opened Alignment
  import opened Allocator
  import opened AllocatorRuns

  const SHMEM_SIZE: u64 := 0x1_0000_0000
  const PAGE: Align := 0x1000

  datatype Message = Map(shmOffset: u64, len: u64, writable: bool) | Unmap(shmOffset: u64, len: u64)

  datatype VuState = VuState(alloc: State, mapped: set<AddressRange>)

  ghost predicate VuInv(s: VuState) {
    && Inv(s.alloc)
    && s.alloc.pools == [AddressRange(0, SHMEM_SIZE - 1)]
    && s.alloc.minAlign == PAGE
  }

  /** The frontend's mappings are the allocator's live ranges. */
  ghost predicate InSync(s: VuState) {
    s.mapped == s.alloc.allocs.Values
  }

  ghost predicate AddStep(s: VuState, length: u64, id: u64, rw: bool, accepted: bool,
                          r: Result<u64, Error>, sent: Option<Message>, t: VuState) {
    if sent.None? then
      && r.Err? && AllocateStep(s.alloc, length, id, r, t.alloc) && t == s
    else if accepted then
      && r.Ok? && AllocateStep(s.alloc, length, id, r, t.alloc)
      && sent == Some(Map(r.value, length, rw))
      && t.mapped == s.mapped + {t.alloc.allocs[id]}
    else
      && r == Err(EINVAL) && t == s
      && id !in s.alloc.allocs
      && sent.value.Map? && sent.value.len == length && sent.value.writable == rw
      && LowestFit(s.alloc, sent.value.shmOffset, length)
  }

  ghost predicate RemoveStep(s: VuState, offset: u64, accepted: bool,
                             r: Result<(), Error>, sent: Option<Message>, t: VuState) {
    if !Live(s.alloc.allocs, offset) then
      r == Err(EFAULT) && sent == None && t == s
    else exists id ::
      && id in s.alloc.allocs
      && var range := s.alloc.allocs[id];
         && range.Has(offset)
         && ReleaseStep(s.alloc, id, Ok(range), t.alloc)
         && sent.Some? && sent.value.Unmap?
         && sent.value.shmOffset == range.start && Some(sent.value.len) == range.Len()
         && r == (if accepted then Ok(()) else Err(EINVAL))
         && t.mapped == if accepted then s.mapped - {range} else s.mapped
  }

  lemma LiveRangesInRegion(s: VuState, id: u64)
    requires VuInv(s) && id in s.alloc.allocs
    ensures s.alloc.allocs[id].end < SHMEM_SIZE
  {
    var range := s.alloc.allocs[id];
    assert range.Has(range.end);
    assert Live(s.alloc.allocs, range.end);
    assert Covered(s.alloc.pools, range.end);
  }

  class VuBackend {
    const allocator: MediaAllocator
    ghost var mapped: set<AddressRange>

    ghost function Model(): (m: VuState)
      reads this, allocator
    {
      VuState(allocator.Model(), mapped)
    }

    ghost predicate Valid()
      reads this, allocator
    {
      VuInv(Model())
    }

    constructor Init(allocator: MediaAllocator)
      ensures this.allocator == allocator && mapped == {}
    {
      this.allocator := allocator;
      mapped := {};
    }

    static method New() returns (r: Result<VuBackend, Error>)
      ensures r.Ok? && fresh(r.value) && fresh(r.value.allocator)
      ensures r.value.Valid() && r.value.allocator.allocs == map[] && r.value.mapped == {}
      ensures r.value.allocator.minAlign == 0x1000 && r.value.allocator.regions == [AddressRange(0, 0xFFFF_FFFF)]
    {
      var a := MediaAllocator.New(AddressRange(0, SHMEM_SIZE - 1), Some(PAGE));
      PageIsPowerOfTwo();
      var vu := new VuBackend.Init(a.value);
      r := Ok(vu);
    }

    method AddMapping(length: u64, offset: u64, rw: bool, accepted: bool)
      returns (r: Result<u64, Error>, sent: Option<Message>)
      requires Valid()
      modifies allocator, this`mapped
      ensures Valid()
      ensures AddStep(old(Model()), length, offset, rw, accepted, r, sent, Model())
      ensures sent.Some? ==> sent.value.Map? && sent.value.len == length && sent.value.writable == rw
      ensures r.Ok? ==>
                && accepted && sent == Some(Map(r.value, length, rw))
                && offset in allocator.allocs && allocator.allocs[offset].start == r.value
    {
      ghost var s := allocator.Model();
      r := allocator.Allocate(length, offset);
      if r.Err? {
        return r, None;
      }
      sent := Some(Map(r.value, length, rw));
      if !accepted {
        ghost var t := allocator.Model();
        var back := allocator.Release(offset);
        ReleaseUndoesAllocate(s, length, offset, r.value, t, back, allocator.Model());
        return Err(EINVAL), sent;
      }
      mapped := mapped + {allocator.allocs[offset]};
    }

    method RemoveMapping(offset: u64, accepted: bool) returns (r: Result<(), Error>, sent: Option<Message>)
      requires Valid()
      modifies allocator, this`mapped
      ensures Valid()
      ensures RemoveStep(old(Model()), offset, accepted, r, sent, Model())
    {
      ghost var s := Model();
      var released := allocator.ReleaseContaining(offset);
      if released.Err? {
        return Err(released.error), None;
      }
      ghost var id :| id in s.alloc.allocs && s.alloc.allocs[id].Has(offset)
                      && ReleaseStep(s.alloc, id, released, allocator.Model());
      LiveRangesInRegion(s, id);
      var len := released.value.Len();
      if len.None? {
        return Err(EINVAL), None;
      }
      sent := Some(Unmap(released.value.start, len.value));
      if !accepted {
        return Err(EINVAL), sent;
      }
      mapped := mapped - {released.value};
      r := Ok(());
    }
  }

  // ----- Runs of map and unmap requests -----

  datatype Request =
    | Add(length: u64, id: u64, rw: bool, accepted: bool)
    | Remove(offset: u64, accepted: bool)

  ghost predicate Step(s: VuState, q: Request, sent: Option<Message>, t: VuState) {
    match q
    case Add(length, id, rw, accepted) =>
      exists r: Result<u64, Error> :: AddStep(s, length, id, rw, accepted, r, sent, t)
    case Remove(offset, accepted) =>
      exists r: Result<(), Error> :: RemoveStep(s, offset, accepted, r, sent, t)
  }

  ghost predicate IsRun(states: seq<VuState>, requests: seq<Request>, sents: seq<Option<Message>>) {
    && |states| == |requests| + 1 == |sents| + 1
    && forall i | 0 <= i < |requests| :: Step(states[i], requests[i], sents[i], states[i + 1])
  }

  lemma LiveRangesDiffer(s: State, a: u64, b: u64)
    requires Inv(s) && a in s.allocs && b in s.allocs && a != b
    ensures s.allocs[a] != s.allocs[b]
  {
    assert s.allocs[a].Has(s.allocs[a].start);
  }

  /** The live range at an address. */
  ghost function RangeAt(s: State, offset: int): (r: Option<AddressRange>)
    ensures r.Some? <==> Live(s.allocs, offset)
    ensures r.Some? ==> r.value in s.allocs.Values && r.value.Has(offset)
  {
    if Live(s.allocs, offset) then
      var id :| id in s.allocs && s.allocs[id].Has(offset);
      Some(s.allocs[id])
    else
      None
  }

  /** A map request makes one range both live and mapped, or changes nothing. */
  lemma AddAddsToBoth(s: VuState, length: u64, id: u64, rw: bool, accepted: bool,
                      r: Result<u64, Error>, sent: Option<Message>, t: VuState)
    requires VuInv(s) && AddStep(s, length, id, rw, accepted, r, sent, t)
    ensures VuInv(t)
    ensures r.Err? ==> t == s
    ensures r.Ok? ==>
              && id in t.alloc.allocs
              && var m := t.alloc.allocs[id];
                 t.alloc.allocs.Values == s.alloc.allocs.Values + {m} && t.mapped == s.mapped + {m}
  {
    if r.Ok? {
      AllocateKeepsInv(s.alloc, length, id, r, t.alloc);
      var range := t.alloc.allocs[id];
      assert t.alloc.allocs == s.alloc.allocs[id := range];
      forall v
        ensures v in t.alloc.allocs.Values <==> v in s.alloc.allocs.Values || v == range
      {
        if v in s.alloc.allocs.Values {
          var k :| k in s.alloc.allocs && s.alloc.allocs[k] == v;
          assert t.alloc.allocs[k] == v;
        }
        assert t.alloc.allocs[id] == range;
      }
    }
  }

  /** An unmap request ends the life of the range at the offset, and its mapping when accepted. */
  lemma RemoveRemovesRange(s: VuState, offset: u64, accepted: bool,
                           r: Result<(), Error>, sent: Option<Message>, t: VuState)
    requires VuInv(s) && RemoveStep(s, offset, accepted, r, sent, t)
    ensures VuInv(t)
    ensures !Live(s.alloc.allocs, offset) ==> t == s
    ensures Live(s.alloc.allocs, offset) ==>
              var m := RangeAt(s.alloc, offset).value;
              && t.alloc.allocs.Values == s.alloc.allocs.Values - {m}
              && t.mapped == (if accepted then s.mapped - {m} else s.mapped)
              && Free(t.alloc, offset)
  {
    if Live(s.alloc.allocs, offset) {
      var id :| id in s.alloc.allocs && s.alloc.allocs[id].Has(offset)
                && ReleaseStep(s.alloc, id, Ok(s.alloc.allocs[id]), t.alloc)
                && t.mapped == if accepted then s.mapped - {s.alloc.allocs[id]} else s.mapped;
      ReleaseKeepsInv(s.alloc, id, Ok(s.alloc.allocs[id]), t.alloc);
      ReleasedValues(s.alloc, id, t.alloc);
      var m := RangeAt(s.alloc, offset).value;
      var k :| k in s.alloc.allocs && s.alloc.allocs[k] == m;
      assert k == id;
      assert Covered(t.alloc.regions, offset);
    }
  }

  lemma ReleasedValues(s: State, id: u64, t: State)
    requires Inv(s) && id in s.allocs && t.allocs == s.allocs - {id}
    ensures t.allocs.Values == s.allocs.Values - {s.allocs[id]}
  {
    hide Partition;
    var range := s.allocs[id];
    forall v
      ensures v in t.allocs.Values <==> v in s.allocs.Values && v != range
    {
      if v in s.allocs.Values && v != range {
        var k :| k in s.allocs && s.allocs[k] == v;
        assert t.allocs[k] == v;
      }
      if v in t.allocs.Values {
        var k :| k in t.allocs && t.allocs[k] == v;
        assert s.allocs[k] == v;
        LiveRangesDiffer(s, k, id);
      }
    }
  }

  /** A map request keeps the two sides in step, whatever the frontend answers. */
  lemma AddKeepsSync(s: VuState, length: u64, id: u64, rw: bool, accepted: bool,
                     r: Result<u64, Error>, sent: Option<Message>, t: VuState)
    requires VuInv(s) && InSync(s) && AddStep(s, length, id, rw, accepted, r, sent, t)
    ensures VuInv(t) && InSync(t)
  {
    AddAddsToBoth(s, length, id, rw, accepted, r, sent, t);
  }

  /** An unmap request keeps them in step exactly when the frontend accepts it or nothing is mapped
      there. A refused unmap leaves a mapping over bytes the allocator holds free. */
  lemma RemoveKeepsSyncIffAccepted(s: VuState, offset: u64, accepted: bool,
                                   r: Result<(), Error>, sent: Option<Message>, t: VuState)
    requires VuInv(s) && InSync(s) && RemoveStep(s, offset, accepted, r, sent, t)
    ensures VuInv(t)
    ensures InSync(t) <==> accepted || !Live(s.alloc.allocs, offset)
    ensures !InSync(t) ==> exists m :: m in t.mapped && m.Has(offset) && Free(t.alloc, offset)
  {
    RemoveRemovesRange(s, offset, accepted, r, sent, t);
    if Live(s.alloc.allocs, offset) && !accepted {
      assert RangeAt(s.alloc, offset).value in t.mapped;
    }
  }

  /** A refused unmap leaves its range stale, an accepted one does not. */
  ghost function NextStale(s: VuState, q: Request, stale: set<AddressRange>): (next: set<AddressRange>) {
    if q.Add? || RangeAt(s.alloc, q.offset).None? then stale
    else if q.accepted then stale - {RangeAt(s.alloc, q.offset).value}
    else stale + {RangeAt(s.alloc, q.offset).value}
  }

  /** What refused unmaps left mapped and no later unmap took back. */
  ghost function Stale(states: seq<VuState>, requests: seq<Request>, i: nat): (stale: set<AddressRange>)
    requires i < |states| <= |requests| + 1
  {
    if i == 0 then {} else NextStale(states[i - 1], requests[i - 1], Stale(states, requests, i - 1))
  }

  lemma StepKeepsStale(s: VuState, q: Request, sent: Option<Message>, t: VuState, stale: set<AddressRange>)
    requires VuInv(s) && Step(s, q, sent, t) && s.mapped == s.alloc.allocs.Values + stale
    ensures VuInv(t) && t.mapped == t.alloc.allocs.Values + NextStale(s, q, stale)
  {
    hide AddStep, RemoveStep, VuInv, RangeAt, Live;
    match q
    case Add(length, id, rw, accepted) =>
      var r: Result<u64, Error> :| AddStep(s, length, id, rw, accepted, r, sent, t);
      AddAddsToBoth(s, length, id, rw, accepted, r, sent, t);
      if r.Ok? {
        OneMoreLive(s.mapped, s.alloc.allocs.Values, stale, t.alloc.allocs[id]);
      }
    case Remove(offset, accepted) =>
      var r: Result<(), Error> :| RemoveStep(s, offset, accepted, r, sent, t);
      RemoveRemovesRange(s, offset, accepted, r, sent, t);
      if Live(s.alloc.allocs, offset) {
        OneLessLive(s.mapped, s.alloc.allocs.Values, stale, RangeAt(s.alloc, offset).value);
      }
  }

  /** In every run, whatever the frontend answers, it maps exactly the live ranges and the stale ones. */
  lemma {:induction false} MappedIsLiveAndStale(states: seq<VuState>, requests: seq<Request>,
                                                sents: seq<Option<Message>>, i: nat)
    requires IsRun(states, requests, sents) && i < |states|
    requires VuInv(states[0]) && InSync(states[0])
    ensures VuInv(states[i])
    ensures states[i].mapped == states[i].alloc.allocs.Values + Stale(states, requests, i)
  {
    hide VuInv, Step, NextStale;
    if i == 0 {
    } else {
      MappedIsLiveAndStale(states, requests, sents, i - 1);
      StepKeepsStale(states[i - 1], requests[i - 1], sents[i - 1], states[i], Stale(states, requests, i - 1));
    }
  }

  lemma OneMoreLive<T>(mapped: set<T>, live: set<T>, stale: set<T>, m: T)
    requires mapped == live + stale
    ensures mapped + {m} == (live + {m}) + stale
  {
  }

  lemma OneLessLive<T>(mapped: set<T>, live: set<T>, stale: set<T>, m: T)
    requires mapped == live + stale && m in live
    ensures mapped - {m} == (live - {m}) + (stale - {m})
    ensures mapped == (live - {m}) + (stale + {m})
  {
  }

  /** One page mapped and its unmap refused: the page is free for the allocator and still mapped. */
  lemma RefusedUnmapStaysMapped(s: VuState, t: VuState, u: VuState)
    requires var region, page := AddressRange(0, SHMEM_SIZE - 1), AddressRange(0, 0xFFF);
             && s == VuState(State(PAGE, [region], map[], [region]), {})
             && t == VuState(State(PAGE, [region], map[7 := page], [AddressRange(0x1000, SHMEM_SIZE - 1)]), {page})
             && u == VuState(State(PAGE, [region], map[], [region]), {page})
    ensures VuInv(s) && InSync(s) && AddStep(s, 0x1000, 7, false, true, Ok(0), Some(Map(0, 0x1000, false)), t)
    ensures RemoveStep(t, 0, false, Err(EINVAL), Some(Unmap(0, 0x1000)), u) && !InSync(u)
  {
    var region, page, rest := AddressRange(0, SHMEM_SIZE - 1), AddressRange(0, 0xFFF), AddressRange(0x1000, SHMEM_SIZE - 1);
    FreshRegion(s.alloc);
    OneRange(region);
    OneRange(rest);
    assert s.alloc.regions[0] == region;
    assert AlignUp(0, PAGE) == 0;
    assert NoneFitsBefore(s.alloc, 0x1000, 0) && RegionFits(PAGE, region, 0x1000);
    FirstFitIsLowestFit(s.alloc, 0x1000, 0);
    assert !AllocateOverflows(s.alloc, 0x1000);
    assert AllocateStep(s.alloc, 0x1000, 7, Ok(0), t.alloc);
    assert t.alloc.allocs[7].Has(0) && Live(t.alloc.allocs, 0);
    assert ReleaseStep(t.alloc, 7, Ok(page), u.alloc);
    assert page in u.mapped;
  }

  lemma FreshRegion(s: State)
    requires s.minAlign == PAGE && s.pools == s.regions == [AddressRange(0, SHMEM_SIZE - 1)] && s.allocs == map[]
    ensures Inv(s)
  {
    PageIsPowerOfTwo();
    OneRange(AddressRange(0, SHMEM_SIZE - 1));
    InitialIsPartition(s);
  }

  lemma PageIsPowerOfTwo()
    ensures IsPowerOfTwo(PAGE)
  {
    assert IsPowerOfTwo(0x10);
    assert IsPowerOfTwo(0x100);
  }

  /** In every run whose unmap requests are accepted, the frontend maps exactly the live ranges. */
  lemma {:induction false} RunStaysInSync(states: seq<VuState>, requests: seq<Request>, sents: seq<Option<Message>>, i: nat)
    requires IsRun(states, requests, sents) && i < |states|
    requires VuInv(states[0]) && InSync(states[0])
    requires forall k | 0 <= k < |requests| && requests[k].Remove? :: requests[k].accepted
    ensures VuInv(states[i]) && InSync(states[i])
  {
    if i == 0 {
    } else {
      RunStaysInSync(states, requests, sents, i - 1);
      var s, sent, t := states[i - 1], sents[i - 1], states[i];
      assert Step(s, requests[i - 1], sent, t);
      match requests[i - 1]
      case Add(length, id, rw, accepted) =>
        var r: Result<u64, Error> :| AddStep(s, length, id, rw, accepted, r, sent, t);
        AddKeepsSync(s, length, id, rw, accepted, r, sent, t);
      case Remove(offset, accepted) =>
        var r: Result<(), Error> :| RemoveStep(s, offset, accepted, r, sent, t);
        RemoveKeepsSyncIffAccepted(s, offset, accepted, r, sent, t);
    }
  }

  /** What the frontend maps in such a run: page-aligned, inside the region, pairwise disjoint. */
  lemma MappingsAreSound(states: seq<VuState>, requests: seq<Request>, sents: seq<Option<Message>>, i: nat)
    requires IsRun(states, requests, sents) && i < |states|
    requires VuInv(states[0]) && InSync(states[0])
    requires forall k | 0 <= k < |requests| && requests[k].Remove? :: requests[k].accepted
    ensures forall m | m in states[i].mapped :: m.start % 0x1000 == 0 && m.start <= m.end <= 0xFFFF_FFFF
    ensures forall m, n | m in states[i].mapped && n in states[i].mapped && m != n :: !m.Overlaps(n)
  {
    RunStaysInSync(states, requests, sents, i);
    var allocs := states[i].alloc.allocs;
    forall m | m in states[i].mapped
      ensures m.start % PAGE == 0 && m.start <= m.end < SHMEM_SIZE
    {
      var id :| id in allocs && allocs[id] == m;
      LiveRangesInRegion(states[i], id);
    }
    forall m, n | m in states[i].mapped && n in states[i].mapped && m != n
      ensures !m.Overlaps(n)
    {
      var a :| a in allocs && allocs[a] == m;
      var b :| b in allocs && allocs[b] == n;
    }
  }

  /** In such a run every unmap message names one outstanding mapping, the only one at that offset, and
      every map message a stretch that meets none. */
  lemma MessagesMatchMappings(states: seq<VuState>, requests: seq<Request>, sents: seq<Option<Message>>, i: nat)
    requires IsRun(states, requests, sents) && i < |requests| && sents[i].Some?
    requires VuInv(states[0]) && InSync(states[0])
    requires forall k | 0 <= k < |requests| && requests[k].Remove? :: requests[k].accepted
    ensures var msg, mapped := sents[i].value, states[i].mapped;
            if requests[i].Remove? then
              && msg.Unmap? && msg.len > 0 && msg.shmOffset + msg.len <= 0x1_0000_0000
              && var m := AddressRange(msg.shmOffset, msg.shmOffset + msg.len - 1);
                 m in mapped && m.Has(requests[i].offset)
                 && (forall n | n in mapped && n.Has(requests[i].offset) :: n == m)
                 && states[i + 1].mapped == mapped - {m}
            else
              && msg.Map? && msg.shmOffset % 0x1000 == 0
              && forall x, n | msg.shmOffset <= x < msg.shmOffset + msg.len && n in mapped :: !n.Has(x)
  {
    hide AddStep, RemoveStep;
    RunStaysInSync(states, requests, sents, i);
    var s, sent, t := states[i], sents[i], states[i + 1];
    assert Step(s, requests[i], sent, t);
    match requests[i]
    case Add(length, id, rw, accepted) =>
      var r: Result<u64, Error> :| AddStep(s, length, id, rw, accepted, r, sent, t);
      MapMeetsNoMapping(s, length, id, rw, accepted, r, sent, t);
    case Remove(offset, accepted) =>
      var r: Result<(), Error> :| RemoveStep(s, offset, accepted, r, sent, t);
      UnmapNamesMapping(s, offset, r, sent, t);
  }

  lemma MapMeetsNoMapping(s: VuState, length: u64, id: u64, rw: bool, accepted: bool,
                          r: Result<u64, Error>, sent: Option<Message>, t: VuState)
    requires VuInv(s) && InSync(s) && AddStep(s, length, id, rw, accepted, r, sent, t) && sent.Some?
    ensures sent.value.Map? && sent.value.shmOffset % PAGE == 0
    ensures forall x, n | sent.value.shmOffset <= x < sent.value.shmOffset + sent.value.len && n in s.mapped :: !n.Has(x)
  {
    forall x, n | sent.value.shmOffset <= x < sent.value.shmOffset + sent.value.len && n in s.mapped
      ensures !n.Has(x)
    {
      assert Free(s.alloc, x);
    }
  }

  lemma UnmapNamesMapping(s: VuState, offset: u64, r: Result<(), Error>, sent: Option<Message>, t: VuState)
    requires VuInv(s) && InSync(s) && RemoveStep(s, offset, true, r, sent, t) && sent.Some?
    ensures sent.value.Unmap? && sent.value.len > 0 && sent.value.shmOffset + sent.value.len <= SHMEM_SIZE
    ensures var m := AddressRange(sent.value.shmOffset, sent.value.shmOffset + sent.value.len - 1);
            && m in s.mapped && m.Has(offset)
            && (forall n | n in s.mapped && n.Has(offset) :: n == m)
            && t.mapped == s.mapped - {m}
  {
    var id :| id in s.alloc.allocs && s.alloc.allocs[id].Has(offset)
              && sent.value.shmOffset == s.alloc.allocs[id].start
              && Some(sent.value.len) == s.alloc.allocs[id].Len()
              && t.mapped == s.mapped - {s.alloc.allocs[id]};
    LiveRangesInRegion(s, id);
  }
}
