/** The shadow buffer of a scatter-gather list: gathered on creation, written back on drop when dirty. */
module GuestMemoryMappings {
  import opened Common
  import opened GuestMemories

  lemma EntryNotWritten(m: Memory, sg: Extent, bytes: seq<u8>)
    requires |bytes| == sg.len && sg.addr !in m
    ensures WriteEntry(m, sg, bytes) == m
  {
  }

  function TotalSize(sgs: seq<Extent>): (n: nat)
    ensures n == |Flatten(sgs)|
  {
    if sgs == [] then 0 else TotalSize(sgs[..|sgs| - 1]) + sgs[|sgs| - 1].len
  }

  function Zeros(n: nat): (z: seq<u8>)
    ensures |z| == n
  {
    seq(n, i => 0)
  }

  predicate Readable(m: Memory, sg: Extent) {
    sg.len == 0 || sg.addr in m
  }

  /** One gathered entry: the bytes up to the first unmapped address, zeros from there on. */
  ghost function Gathered(m: Memory, sg: Extent): (d: seq<u8>)
    ensures |d| == sg.len
  {
    var n := MappedPrefix(m, sg.addr, sg.len);
    Load(m, Addrs(sg.addr, n)) + Zeros(sg.len - n)
  }

  ghost function Gather(m: Memory, sgs: seq<Extent>): (d: seq<u8>)
    ensures |d| == |Flatten(sgs)|
  {
    if sgs == [] then []
    else Gather(m, sgs[..|sgs| - 1]) + Gathered(m, sgs[|sgs| - 1])
  }

  /** Writing one entry back, up to its first unmapped address. */
  ghost function WriteEntry(m: Memory, sg: Extent, bytes: seq<u8>): (m': Memory)
    requires |bytes| == sg.len
    ensures m'.Keys == m.Keys
  {
    var n := MappedPrefix(m, sg.addr, sg.len);
    Store(m, Addrs(sg.addr, n), bytes[..n])
  }

  ghost function WriteBack(m: Memory, sgs: seq<Extent>, data: seq<u8>): (m': Memory)
    requires |data| == |Flatten(sgs)|
    ensures m'.Keys == m.Keys
  {
    if sgs == [] then m
    else
      var front, last := sgs[..|sgs| - 1], sgs[|sgs| - 1];
      var pos := |Flatten(front)|;
      WriteEntry(WriteBack(m, front, data[..pos]), last, data[pos..])
  }

  lemma OneMoreEntry(sgs: seq<Extent>, k: nat)
    requires k < |sgs|
    ensures sgs[..k + 1][..k] == sgs[..k]
    ensures |Flatten(sgs[..k + 1])| == |Flatten(sgs[..k])| + sgs[k].len <= |Flatten(sgs)|
  {
    FlattenPrefix(sgs, k);
  }

  lemma OneMoreGathered(m: Memory, sgs: seq<Extent>, k: nat)
    requires k < |sgs|
    ensures Gather(m, sgs[..k + 1]) == Gather(m, sgs[..k]) + Gathered(m, sgs[k])
  {
    OneMoreEntry(sgs, k);
  }

  lemma OneMoreWritten(m: Memory, sgs: seq<Extent>, k: nat, data: seq<u8>)
    requires k < |sgs| && |data| == |Flatten(sgs)|
    ensures var pos, next := |Flatten(sgs[..k])|, |Flatten(sgs[..k + 1])|;
            && next == pos + sgs[k].len <= |data|
            && WriteBack(m, sgs[..k + 1], data[..next]) == WriteEntry(WriteBack(m, sgs[..k], data[..pos]), sgs[k], data[pos..next])
  {
    OneMoreEntry(sgs, k);
    var pos, next := |Flatten(sgs[..k])|, |Flatten(sgs[..k + 1])|;
    assert data[..next][..pos] == data[..pos];
    assert data[..next][pos..] == data[pos..next];
  }

  /** Reading one entry into its window of a zeroed buffer. */
  method ReadEntry(mem: GuestMemory, sg: Extent, data: array<u8>, pos: nat) returns (r: Result<(), IoError>)
    requires pos + sg.len <= data.Length && data[pos..] == Zeros(data.Length - pos)
    modifies data
    ensures r.Ok? <==> Readable(mem.bytes, sg)
    ensures r.Ok? ==> data[..] == old(data[..pos]) + Gathered(mem.bytes, sg) + Zeros(data.Length - pos - sg.len)
  {
    var read := mem.Read(sg.len, sg.addr);
    if read.Err? {
      return Err(read.error);
    }
    var bytes := read.value;
    forall i | 0 <= i < |bytes| {
      data[pos + i] := bytes[i];
    }
    r := Ok(());
    forall i | pos + |bytes| <= i < data.Length
      ensures data[i] == 0
    {
      assert old(data[pos..])[i - pos] == 0;
    }
  }

  class GuestMemoryMapping {
    const data: array<u8>
    const mem: GuestMemory
    const sgs: seq<Extent>
    var dirty: bool

    ghost predicate Valid() {
      data.Length == |Flatten(sgs)|
    }

    constructor Init(mem: GuestMemory, sgs: seq<Extent>, data: array<u8>)
      ensures this.mem == mem && this.sgs == sgs && this.data == data && !dirty
    {
      this.mem, this.sgs, this.data, this.dirty := mem, sgs, data, false;
    }

    static method New(mem: GuestMemory, sgs: seq<Extent>) returns (r: Result<GuestMemoryMapping, IoError>)
      ensures r.Ok? <==> forall k | 0 <= k < |sgs| :: Readable(mem.bytes, sgs[k])
      ensures r.Ok? ==>
                && fresh(r.value) && fresh(r.value.data) && r.value.Valid()
                && r.value.mem == mem && r.value.sgs == sgs && !r.value.dirty
                && r.value.data[..] == Gather(mem.bytes, sgs)
    {
      ghost var m := mem.bytes;
      var data := new u8[TotalSize(sgs)](_ => 0);
      var pos := 0;
      assert data[..] == Gather(m, sgs[..0]) + Zeros(data.Length);
      for k := 0 to |sgs|
        invariant pos == |Flatten(sgs[..k])| <= data.Length
        invariant mem.bytes == m && forall j | 0 <= j < k :: Readable(m, sgs[j])
        invariant data[..] == Gather(m, sgs[..k]) + Zeros(data.Length - pos)
      {
        var sg := sgs[k];
        OneMoreEntry(sgs, k);
        OneMoreGathered(m, sgs, k);
        assert data[..][..pos] == data[..pos] && data[..][pos..] == data[pos..];
        var read := ReadEntry(mem, sg, data, pos);
        if read.Err? {
          return Err(read.error);
        }
        pos := pos + sg.len;
      }
      assert sgs[..|sgs|] == sgs;
      assert data[..] == Gather(m, sgs);
      var mapping := new GuestMemoryMapping.Init(mem, sgs, data);
      r := Ok(mapping);
    }

    /** Handing out the buffer for writing is what marks it dirty. */
    method AsMutPtr() returns (p: array<u8>)
      modifies this
      ensures dirty && p == data
    {
      dirty := true;
      p := data;
    }

    /** Write errors are only logged: the position advances past the entry all the same. */
    method Drop()
      requires Valid()
      modifies mem
      ensures mem.bytes == if dirty then WriteBack(old(mem.bytes), sgs, data[..]) else old(mem.bytes)
    {
      hide Store, Mapped, MappedPrefix, Addrs;
      if !dirty {
        return;
      }
      var pos := 0;
      for k := 0 to |sgs|
        invariant pos == |Flatten(sgs[..k])| <= data.Length
        invariant mem.bytes == WriteBack(old(mem.bytes), sgs[..k], data[..pos])
      {
        var sg := sgs[k];
        OneMoreWritten(old(mem.bytes), sgs, k, data[..]);
        assert data[..][..pos] == data[..pos] && data[..][..pos + sg.len] == data[..pos + sg.len];
        ghost var m := mem.bytes;
        var written := mem.Write(data[pos..pos + sg.len], sg.addr);
        if written.Err? {
          EntryNotWritten(m, sg, data[pos..pos + sg.len]);
        }
        pos := pos + sg.len;
      }
      assert sgs[..|sgs|] == sgs;
      assert data[..pos] == data[..];
    }
  }

  // ----- Over fully mapped ranges -----

  /** Gathering returns the concatenation of the ranges. */
  lemma {:induction false} GatherIsConcatenation(m: Memory, sgs: seq<Extent>)
    requires Mapped(m, Flatten(sgs))
    ensures Gather(m, sgs) == Load(m, Flatten(sgs))
  {
    if sgs == [] {
    } else {
      var front, last := sgs[..|sgs| - 1], sgs[|sgs| - 1];
      SplitMapped(m, sgs);
      GatherIsConcatenation(m, front);
      MappedPrefixIsWhole(m, last.addr, last.len);
    }
  }

  lemma SplitMapped(m: Memory, sgs: seq<Extent>)
    requires sgs != [] && Mapped(m, Flatten(sgs))
    ensures Mapped(m, Flatten(sgs[..|sgs| - 1])) && Mapped(m, Addrs(sgs[|sgs| - 1].addr, sgs[|sgs| - 1].len))
  {
    var front := Flatten(sgs[..|sgs| - 1]);
    assert front == Flatten(sgs)[..|front|];
    assert Addrs(sgs[|sgs| - 1].addr, sgs[|sgs| - 1].len) == Flatten(sgs)[|front|..];
  }

  lemma WholeEntry(m: Memory, sg: Extent, bytes: seq<u8>)
    requires |bytes| == sg.len && Mapped(m, Addrs(sg.addr, sg.len))
    ensures WriteEntry(m, sg, bytes) == Store(m, Addrs(sg.addr, sg.len), bytes)
  {
    MappedPrefixIsWhole(m, sg.addr, sg.len);
    assert bytes[..sg.len] == bytes;
  }

  /** Writing back is one store over the flat address list. */
  lemma {:induction false} WriteBackIsStore(m: Memory, sgs: seq<Extent>, data: seq<u8>)
    requires |data| == |Flatten(sgs)| && Mapped(m, Flatten(sgs))
    ensures WriteBack(m, sgs, data) == Store(m, Flatten(sgs), data)
  {
    hide Mapped, WriteEntry, Addrs;
    if sgs == [] {
    } else {
      var front, last := sgs[..|sgs| - 1], sgs[|sgs| - 1];
      var pos := |Flatten(front)|;
      SplitMapped(m, sgs);
      WriteBackIsStore(m, front, data[..pos]);
      SameKeysSameMapped(m, Store(m, Flatten(front), data[..pos]), Addrs(last.addr, last.len));
      WholeEntry(Store(m, Flatten(front), data[..pos]), last, data[pos..]);
      StoreAppends(m, Flatten(front), data[..pos], Addrs(last.addr, last.len), data[pos..]);
      assert data == data[..pos] + data[pos..];
    }
  }

  /** A dirty drop over disjoint ranges makes guest memory hold the shadow there and nothing else changes. */
  lemma DirtyDropWritesShadow(m: Memory, sgs: seq<Extent>, data: seq<u8>)
    requires |data| == |Flatten(sgs)| && Mapped(m, Flatten(sgs)) && DisjointExtents(sgs)
    ensures var m' := WriteBack(m, sgs, data);
            && (forall i | 0 <= i < |data| :: m'[Flatten(sgs)[i]] == data[i])
            && (forall x | x in m && x !in Flatten(sgs) :: m'[x] == m[x])
  {
    var a := Flatten(sgs);
    WriteBackIsStore(m, sgs, data);
    DisjointMeansDistinct(sgs);
    forall i | 0 <= i < |data|
      ensures WriteBack(m, sgs, data)[a[i]] == data[i]
    {
      StoreAt(m, a, data, a[i]);
    }
    forall x | x in m && x !in a
      ensures WriteBack(m, sgs, data)[x] == m[x]
    {
      StoreAt(m, a, data, x);
    }
  }

  /** Gathering after a dirty drop returns the shadow exactly when the shadow agrees with itself wherever
      ranges overlap; disjoint ranges always do. */
  lemma GatherAfterDrop(m: Memory, sgs: seq<Extent>, data: seq<u8>)
    requires |data| == |Flatten(sgs)| && Mapped(m, Flatten(sgs))
    ensures Gather(WriteBack(m, sgs, data), sgs) == data <==> Consistent(Flatten(sgs), data)
    ensures DisjointExtents(sgs) ==> Consistent(Flatten(sgs), data)
  {
    WriteBackIsStore(m, sgs, data);
    GatherIsConcatenation(WriteBack(m, sgs, data), sgs);
    LoadAfterStore(m, Flatten(sgs), data);
    if DisjointExtents(sgs) {
      DisjointMeansDistinct(sgs);
    }
  }

  /** Two ranges on the same byte: the first byte of the shadow does not come back. */
  lemma OverlapReadsBackDifferently(m: Memory)
    requires m == map[0 := 0]
    ensures var sgs := [Extent(0, 1), Extent(0, 1)];
            && Mapped(m, Flatten(sgs)) && |Flatten(sgs)| == 2
            && Gather(WriteBack(m, sgs, [1, 2]), sgs) != [1, 2]
  {
    var sgs := [Extent(0, 1), Extent(0, 1)];
    assert sgs[..1] == [Extent(0, 1)];
    assert Flatten([Extent(0, 1)]) == [0];
    assert Flatten(sgs) == [0, 0];
    GatherAfterDrop(m, sgs, [1, 2]);
  }
}
