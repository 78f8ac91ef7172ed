/** Inclusive address ranges, as `AddressRange` of vhost-device-media. */
module AddressRanges {
  import opened Common

  datatype AddressRange = AddressRange(start: u64, end: u64) {
    predicate IsEmpty() {
      end < start
    }

    /** The addresses the range stands for. */
    ghost predicate Has(x: int) {
      start <= x <= end
    }

    /** The derived order: by start, then by end. */
    predicate Less(other: AddressRange) {
      start < other.start || (start == other.start && end < other.end)
    }

    function Intersect(other: AddressRange): (r: AddressRange)
      ensures forall x :: r.Has(x) <==> this.Has(x) && other.Has(x)
    {
      AddressRange(Max(start, other.start), Min(end, other.end))
    }

    /** Two ranges overlap exactly when some address belongs to both. */
    predicate Overlaps(other: AddressRange)
      ensures Overlaps(other) <==> exists x :: Has(x) && other.Has(x)
    {
      assert !Intersect(other).IsEmpty() ==> Intersect(other).Has(Intersect(other).start);
      !Intersect(other).IsEmpty()
    }

    /** The number of addresses, absent only for the one range of 2^64 addresses. */
    function Len(): (n: Option<u64>)
      ensures n == if |Interval(start, end)| <= U64_MAX then Some(|Interval(start, end)|) else None
      ensures n.None? <==> start == 0 && end == U64_MAX
    {
      if IsEmpty() then Some(0)
      else if end - start + 1 > U64_MAX then None
      else Some(end - start + 1)
    }

    /** The two pieces together are the set difference for every argument, empty ones included.
        An address sits in both pieces exactly when it lies in the gap of an inverted argument, so
        the pieces are disjoint for every non-empty argument. */
    function NonOverlappingRanges(other: AddressRange): (r: (AddressRange, AddressRange))
      ensures forall x {:trigger r.0.Has(x)} {:trigger r.1.Has(x)} {:trigger this.Has(x)} ::
                && (r.0.Has(x) || r.1.Has(x) <==> this.Has(x) && !other.Has(x))
                && (r.0.Has(x) && r.1.Has(x) <==> this.Has(x) && other.end < x < other.start)
    {
      var before :=
        if start >= other.start then EMPTY
        else AddressRange(Min(start, other.start), Min(Max(start, other.start) - 1, end));
      var after :=
        if end <= other.end then EMPTY
        else AddressRange(Max(Min(end, other.end) + 1, start), Max(end, other.end));
      (before, after)
    }
  }

  const EMPTY := AddressRange(1, 0)

  /** The set of addresses from `lo` to `hi`. */
  ghost function Interval(lo: int, hi: int): (s: set<int>)
    ensures forall x :: x in s <==> lo <= x <= hi
    ensures |s| == if lo <= hi then hi - lo + 1 else 0
    decreases hi - lo + 1
  {
    if lo > hi then {} else Interval(lo, hi - 1) + {hi}
  }
}
