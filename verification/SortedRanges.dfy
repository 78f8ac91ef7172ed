/** Ordered sets of address ranges, kept as the sequence they iterate over. */
module SortedRanges {
  import opened Common
  import opened AddressRanges

  /** Non-empty ranges in increasing order, with more than `gap` addresses from one end to the next start. */
  ghost predicate Gapped(rs: seq<AddressRange>, gap: nat) {
    && (forall i | 0 <= i < |rs| :: !rs[i].IsEmpty())
    && (forall i, j | 0 <= i < j < |rs| :: rs[i].end + gap < rs[j].start)
  }

  /** Pairwise disjoint and never adjacent: every range is a maximal run of covered addresses. */
  ghost predicate Canonical(rs: seq<AddressRange>) {
    Gapped(rs, 1)
  }

  ghost predicate Apart(a: AddressRange, b: AddressRange, gap: nat) {
    a.end + gap < b.start || b.end + gap < a.start
  }

  ghost predicate Covered(rs: seq<AddressRange>, x: int) {
    exists i :: 0 <= i < |rs| && rs[i].Has(x)
  }

  /** Inserting into the ordered set. */
  function Insert(rs: seq<AddressRange>, r: AddressRange): (qs: seq<AddressRange>)
    ensures |qs| <= |rs| + 1
    ensures forall q :: q in qs <==> q in rs || q == r
  {
    if rs == [] then [r]
    else if rs[0] == r then rs
    else if r.Less(rs[0]) then [r] + rs
    else
      assert rs == [rs[0]] + rs[1..];
      [rs[0]] + Insert(rs[1..], r)
  }

  /** Removing the element at position `k`. */
  function RemoveAt(rs: seq<AddressRange>, k: nat): (qs: seq<AddressRange>)
    requires k < |rs|
  {
    rs[..k] + rs[k + 1..]
  }

  ghost predicate Sorted(rs: seq<AddressRange>) {
    forall i, j | 0 <= i < j < |rs| :: rs[i].Less(rs[j])
  }

  lemma {:induction false} InsertKeepsSorted(rs: seq<AddressRange>, r: AddressRange)
    requires Sorted(rs)
    ensures Sorted(Insert(rs, r))
  {
    if rs == [] || rs[0] == r || r.Less(rs[0]) {
    } else {
      var tail := Insert(rs[1..], r);
      InsertKeepsSorted(rs[1..], r);
      forall j | 0 <= j < |tail|
        ensures rs[0].Less(tail[j])
      {
        assert tail[j] in tail;
      }
    }
  }

  lemma RemoveKeepsSorted(rs: seq<AddressRange>, k: nat)
    requires Sorted(rs) && k < |rs|
    ensures Sorted(RemoveAt(rs, k))
    ensures forall q :: q in RemoveAt(rs, k) <==> q in rs && q != rs[k]
  {
    forall q
      ensures q in RemoveAt(rs, k) <==> q in rs && q != rs[k]
    {
      if q in rs && q != rs[k] {
        var i :| 0 <= i < |rs| && rs[i] == q;
        assert RemoveAt(rs, k)[if i < k then i else i - 1] == q;
      }
    }
  }

  lemma GappedIsSorted(rs: seq<AddressRange>, gap: nat)
    requires Gapped(rs, gap)
    ensures Sorted(rs)
  {
  }

  lemma CoveredIsMembership(rs: seq<AddressRange>, x: int)
    ensures Covered(rs, x) <==> exists r :: r in rs && r.Has(x)
  {
  }

  lemma InsertCovers(rs: seq<AddressRange>, r: AddressRange)
    ensures forall x :: Covered(Insert(rs, r), x) <==> Covered(rs, x) || r.Has(x)
  {
    forall x
      ensures Covered(Insert(rs, r), x) <==> Covered(rs, x) || r.Has(x)
    {
      CoveredIsMembership(Insert(rs, r), x);
      CoveredIsMembership(rs, x);
    }
  }

  lemma {:induction false} InsertKeepsGaps(rs: seq<AddressRange>, r: AddressRange, gap: nat)
    requires Gapped(rs, gap) && !r.IsEmpty()
    requires forall i | 0 <= i < |rs| :: Apart(rs[i], r, gap)
    ensures Gapped(Insert(rs, r), gap)
    ensures forall x :: Covered(Insert(rs, r), x) <==> Covered(rs, x) || r.Has(x)
  {
    hide Covered;
    InsertCovers(rs, r);
    if rs == [] || rs[0] == r || r.Less(rs[0]) {
    } else {
      var tail := Insert(rs[1..], r);
      InsertKeepsGaps(rs[1..], r, gap);
      forall j | 0 <= j < |tail|
        ensures rs[0].end + gap < tail[j].start
      {
        assert tail[j] in tail;
        assert Apart(rs[0], r, gap);
      }
    }
  }

  lemma RemoveKeepsGaps(rs: seq<AddressRange>, k: nat, gap: nat)
    requires k < |rs| && Gapped(rs, gap)
    ensures Gapped(RemoveAt(rs, k), gap)
    ensures forall x :: Covered(RemoveAt(rs, k), x) <==> Covered(rs, x) && !rs[k].Has(x)
  {
    var qs := RemoveAt(rs, k);
    forall x
      ensures Covered(qs, x) <==> Covered(rs, x) && !rs[k].Has(x)
    {
      if i :| 0 <= i < |rs| && rs[i].Has(x) && i != k {
        assert qs[if i < k then i else i - 1] == rs[i];
      }
    }
  }

  /** A canonical list is determined by the addresses it covers. */
  lemma {:induction false} CanonicalIsUnique(rs: seq<AddressRange>, qs: seq<AddressRange>)
    requires Canonical(rs) && Canonical(qs)
    requires forall x :: Covered(rs, x) <==> Covered(qs, x)
    ensures rs == qs
  {
    if rs != [] {
      assert rs[0].Has(rs[0].start) && Covered(rs, rs[0].start);
    }
    if qs != [] {
      assert qs[0].Has(qs[0].start) && Covered(qs, qs[0].start);
    }
    if rs == [] || qs == [] {
    } else {
      FirstRunStartsLow(rs, qs);
      FirstRunStartsLow(qs, rs);
      FirstRunEndsLow(rs, qs);
      FirstRunEndsLow(qs, rs);
      assert rs[0] == qs[0];
      RemoveKeepsGaps(rs, 0, 1);
      RemoveKeepsGaps(qs, 0, 1);
      assert RemoveAt(rs, 0) == rs[1..] && RemoveAt(qs, 0) == qs[1..];
      CanonicalIsUnique(rs[1..], qs[1..]);
    }
  }

  lemma NothingRightAfter(rs: seq<AddressRange>, i: nat)
    requires Canonical(rs) && i < |rs|
    ensures !Covered(rs, rs[i].end + 1)
  {
    forall j | 0 <= j < |rs|
      ensures !rs[j].Has(rs[i].end + 1)
    {
      assert j < i ==> rs[j].end + 1 < rs[i].start;
      assert i < j ==> rs[i].end + 1 < rs[j].start;
    }
  }

  lemma FirstRunStartsLow(rs: seq<AddressRange>, qs: seq<AddressRange>)
    requires Canonical(rs) && Canonical(qs) && rs != [] && qs != []
    requires forall x :: Covered(rs, x) <==> Covered(qs, x)
    ensures rs[0].start <= qs[0].start
  {
    assert qs[0].Has(qs[0].start);
    assert Covered(qs, qs[0].start);
  }

  lemma FirstRunEndsLow(rs: seq<AddressRange>, qs: seq<AddressRange>)
    requires Canonical(rs) && Canonical(qs) && rs != [] && qs != []
    requires forall x :: Covered(rs, x) <==> Covered(qs, x)
    requires rs[0].start == qs[0].start
    ensures rs[0].end <= qs[0].end
  {
    var next := qs[0].end + 1;
    assert rs[0].Has(next) ==> Covered(rs, next);
    NothingRightAfter(qs, 0);
  }

  /** Covered addresses without a hole lie in a single range of a canonical list. */
  lemma RunLiesInOneRange(rs: seq<AddressRange>, lo: int, hi: int) returns (i: nat)
    requires Canonical(rs) && lo <= hi
    requires forall x | lo <= x <= hi :: Covered(rs, x)
    ensures i < |rs| && rs[i].start <= lo && hi <= rs[i].end
  {
    assert Covered(rs, lo);
    i :| 0 <= i < |rs| && rs[i].Has(lo);
    NothingRightAfter(rs, i);
  }

  // ----- Taking a range out of one region -----

  /** Region `k` without the part `range`: what remains on either side goes back into the set. */
  function Carve(rs: seq<AddressRange>, k: nat, range: AddressRange): (qs: seq<AddressRange>)
    requires k < |rs|
  {
    var (before, after) := rs[k].NonOverlappingRanges(range);
    var left := if before.IsEmpty() then RemoveAt(rs, k) else Insert(RemoveAt(rs, k), before);
    if after.IsEmpty() then left else Insert(left, after)
  }

  lemma CarveKeepsSorted(rs: seq<AddressRange>, k: nat, range: AddressRange)
    requires Sorted(rs) && k < |rs| && forall r | r in rs :: !r.IsEmpty()
    ensures Sorted(Carve(rs, k, range)) && forall r | r in Carve(rs, k, range) :: !r.IsEmpty()
  {
    hide Insert;
    var (before, after) := rs[k].NonOverlappingRanges(range);
    RemoveKeepsSorted(rs, k);
    var left := if before.IsEmpty() then RemoveAt(rs, k) else Insert(RemoveAt(rs, k), before);
    InsertKeepsSorted(RemoveAt(rs, k), before);
    InsertKeepsSorted(left, after);
  }

  /** Carving removes exactly the range and keeps the list disjoint, or canonical. */
  lemma CarveIsDifference(rs: seq<AddressRange>, k: nat, range: AddressRange, gap: nat)
    requires gap <= 1 && Gapped(rs, gap) && k < |rs| && !range.IsEmpty()
    requires rs[k].start <= range.start && range.end <= rs[k].end
    ensures Gapped(Carve(rs, k, range), gap)
    ensures forall x :: Covered(Carve(rs, k, range), x) <==> Covered(rs, x) && !range.Has(x)
  {
    hide Insert, Covered;
    var slot := rs[k];
    var (before, after) := slot.NonOverlappingRanges(range);
    var rest := RemoveAt(rs, k);
    RemoveKeepsGaps(rs, k, gap);
    RestIsApart(rs, k, gap);
    var left := if before.IsEmpty() then rest else Insert(rest, before);
    if !before.IsEmpty() {
      InsertKeepsGaps(rest, before, gap);
    }
    if !after.IsEmpty() {
      forall i | 0 <= i < |left|
        ensures Apart(left[i], after, gap)
      {
        assert left[i] in rest || left[i] == before;
      }
      InsertKeepsGaps(left, after, gap);
    }
    CarvedParts(rs, k, range);
  }

  lemma RestIsApart(rs: seq<AddressRange>, k: nat, gap: nat)
    requires Gapped(rs, gap) && k < |rs|
    ensures forall r, x, y | r in RemoveAt(rs, k) && r.Has(x) && rs[k].Has(y) :: x + gap < y || y + gap < x
    ensures forall r | r in RemoveAt(rs, k) :: Apart(r, rs[k], gap)
  {
  }

  lemma CarvedParts(rs: seq<AddressRange>, k: nat, range: AddressRange)
    requires k < |rs|
    ensures var (before, after) := rs[k].NonOverlappingRanges(range);
            forall x :: before.Has(x) || after.Has(x) <==> rs[k].Has(x) && !range.Has(x)
    ensures forall x :: rs[k].Has(x) ==> Covered(rs, x)
  {
  }

  // ----- Inserting a range between its two neighbours -----

  /** Position `k` splits the set into the elements up to `slot` and those after it. */
  ghost predicate SplitsAt(rs: seq<AddressRange>, k: nat, slot: AddressRange) {
    && k <= |rs|
    && (forall j | 0 <= j < k :: !slot.Less(rs[j]))
    && (k < |rs| ==> slot.Less(rs[k]))
  }

  /** The number of ranges up to `slot`. */
  function SplitPoint(rs: seq<AddressRange>, slot: AddressRange): (k: nat)
    ensures k <= |rs|
    ensures forall j | 0 <= j < k :: !slot.Less(rs[j])
    ensures k < |rs| ==> slot.Less(rs[k])
  {
    if rs == [] || slot.Less(rs[0]) then 0 else 1 + SplitPoint(rs[1..], slot)
  }

  /** One of the two neighbours of `slot` reaches into it. */
  predicate NeighbourReaches(rs: seq<AddressRange>, slot: AddressRange) {
    var k := SplitPoint(rs, slot);
    (k > 0 && slot.start <= rs[k - 1].end) || (k < |rs| && rs[k].start <= slot.end)
  }

  lemma SplitIsSplitPoint(rs: seq<AddressRange>, slot: AddressRange, k: nat)
    requires SplitsAt(rs, k, slot)
    ensures k == SplitPoint(rs, slot)
  {
  }

  /** Of disjoint ranges some one overlaps `slot` exactly when one of its two neighbours reaches into it. */
  lemma OverlapIsLocal(rs: seq<AddressRange>, slot: AddressRange)
    requires Gapped(rs, 0) && !slot.IsEmpty()
    ensures (exists i :: 0 <= i < |rs| && rs[i].Overlaps(slot)) <==> NeighbourReaches(rs, slot)
  {
    var k := SplitPoint(rs, slot);
    if k > 0 && slot.start <= rs[k - 1].end {
      assert rs[k - 1].Has(slot.start) && slot.Has(slot.start);
    }
    if k < |rs| && rs[k].start <= slot.end {
      assert rs[k].Has(rs[k].start) && slot.Has(rs[k].start);
    }
  }

  /** Absorbing the successor of `m` when it starts right after it. */
  function JoinLarger(rs: seq<AddressRange>, k: nat, m: AddressRange): (qs: seq<AddressRange>)
    requires k <= |rs|
  {
    if k < |rs| && m.end == rs[k].start - 1
    then Insert(RemoveAt(rs, k), AddressRange(m.start, rs[k].end))
    else Insert(rs, m)
  }

  function Coalesce(rs: seq<AddressRange>, k: nat, slot: AddressRange): (qs: seq<AddressRange>)
    requires k <= |rs|
  {
    if k > 0 && rs[k - 1].end + 1 == slot.start
    then JoinLarger(RemoveAt(rs, k - 1), k - 1, AddressRange(rs[k - 1].start, slot.end))
    else JoinLarger(rs, k, slot)
  }

  lemma JoinLargerIsUnion(rs: seq<AddressRange>, k: nat, m: AddressRange, gap: nat)
    requires gap <= 1 && Gapped(rs, gap) && !m.IsEmpty() && k <= |rs|
    requires k > 0 ==> rs[k - 1].end + gap < m.start
    requires k < |rs| ==> m.end < rs[k].start
    ensures Gapped(JoinLarger(rs, k, m), gap)
    ensures forall x :: Covered(JoinLarger(rs, k, m), x) <==> Covered(rs, x) || m.Has(x)
  {
    if k < |rs| && m.end == rs[k].start - 1 {
      RemoveKeepsGaps(rs, k, gap);
      InsertKeepsGaps(RemoveAt(rs, k), AddressRange(m.start, rs[k].end), gap);
    } else {
      InsertKeepsGaps(rs, m, gap);
    }
  }

  /** Merging `slot` with the neighbours it touches adds exactly its addresses and keeps the list
      disjoint, or canonical. */
  lemma CoalesceIsUnion(rs: seq<AddressRange>, k: nat, slot: AddressRange, gap: nat)
    requires gap <= 1 && Gapped(rs, gap) && !slot.IsEmpty() && k <= |rs|
    requires k > 0 ==> rs[k - 1].end < slot.start
    requires k < |rs| ==> slot.end < rs[k].start
    ensures Gapped(Coalesce(rs, k, slot), gap)
    ensures forall x :: Covered(Coalesce(rs, k, slot), x) <==> Covered(rs, x) || slot.Has(x)
  {
    if k > 0 && rs[k - 1].end + 1 == slot.start {
      RemoveKeepsGaps(rs, k - 1, gap);
      JoinLargerIsUnion(RemoveAt(rs, k - 1), k - 1, AddressRange(rs[k - 1].start, slot.end), gap);
    } else {
      JoinLargerIsUnion(rs, k, slot, gap);
    }
  }

  lemma CoalesceKeepsSorted(rs: seq<AddressRange>, k: nat, slot: AddressRange)
    requires Sorted(rs) && k <= |rs| && !slot.IsEmpty() && forall r | r in rs :: !r.IsEmpty()
    requires k > 0 ==> rs[k - 1].end < slot.start
    requires k < |rs| ==> slot.end < rs[k].start
    ensures Sorted(Coalesce(rs, k, slot)) && forall r | r in Coalesce(rs, k, slot) :: !r.IsEmpty()
  {
    hide Insert;
    if k > 0 && rs[k - 1].end + 1 == slot.start {
      assert rs[k - 1] in rs;
      RemoveKeepsSorted(rs, k - 1);
      JoinLargerKeepsSorted(RemoveAt(rs, k - 1), k - 1, AddressRange(rs[k - 1].start, slot.end));
    } else {
      JoinLargerKeepsSorted(rs, k, slot);
    }
  }

  lemma JoinLargerKeepsSorted(rs: seq<AddressRange>, k: nat, m: AddressRange)
    requires Sorted(rs) && k <= |rs| && !m.IsEmpty() && forall r | r in rs :: !r.IsEmpty()
    requires k < |rs| ==> m.end < rs[k].start
    ensures Sorted(JoinLarger(rs, k, m)) && forall r | r in JoinLarger(rs, k, m) :: !r.IsEmpty()
  {
    hide Insert;
    if k < |rs| && m.end == rs[k].start - 1 {
      assert rs[k] in rs;
      RemoveKeepsSorted(rs, k);
      InsertKeepsSorted(RemoveAt(rs, k), AddressRange(m.start, rs[k].end));
    } else {
      InsertKeepsSorted(rs, m);
    }
  }
}
