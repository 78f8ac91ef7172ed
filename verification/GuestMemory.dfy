/** Guest memory as a map from address to byte, and scattered extents seen as one flat address list. */
module GuestMemories {
  import opened Common

  type Memory = map<int, u8>

  datatype IoError = InvalidGuestAddress | AddressOverflow | WriteZero | UnexpectedEof

  datatype Extent = Extent(addr: u64, len: u32) {
    ghost predicate Has(x: int) {
      addr <= x < addr + len
    }
  }

  /** The `len` addresses from `start` on. */
  function Addrs(start: nat, len: nat): (a: seq<int>)
    ensures |a| == len
  {
    seq(len, i => start + i)
  }

  /** The addresses of all extents, one after the other. */
  function Flatten(es: seq<Extent>): (addrs: seq<int>) {
    if es == [] then []
    else Flatten(es[..|es| - 1]) + Addrs(es[|es| - 1].addr, es[|es| - 1].len)
  }

  predicate Mapped(m: Memory, a: seq<int>) {
    forall i | 0 <= i < |a| :: a[i] in m
  }

  function Load(m: Memory, a: seq<int>): (d: seq<u8>)
    requires Mapped(m, a)
    ensures |d| == |a| && forall i | 0 <= i < |a| :: d[i] == m[a[i]]
  {
    seq(|a|, i requires 0 <= i < |a| => m[a[i]])
  }

  /** Writing the bytes in order, so that a later byte wins at an address listed twice. */
  function Store(m: Memory, a: seq<int>, d: seq<u8>): (m': Memory)
    requires |a| == |d| && Mapped(m, a)
    ensures m'.Keys == m.Keys
  {
    if a == [] then m
    else Store(m, a[..|a| - 1], d[..|a| - 1])[a[|a| - 1] := d[|a| - 1]]
  }

  lemma SameKeysSameMapped(m: Memory, m': Memory, a: seq<int>)
    requires m.Keys == m'.Keys
    ensures Mapped(m, a) <==> Mapped(m', a)
  {
    assert forall x :: x in m <==> x in m.Keys;
    assert forall x :: x in m' <==> x in m'.Keys;
  }

  /** The number of mapped addresses from `start` on, up to `len`. */
  function MappedPrefix(m: Memory, start: nat, len: nat): (n: nat)
    ensures n <= len && Mapped(m, Addrs(start, n))
    ensures n < len ==> start + n !in m
    decreases len
  {
    if len == 0 || start !in m then 0
    else
      var rest := MappedPrefix(m, start + 1, len - 1);
      assert Addrs(start, rest + 1) == [start] + Addrs(start + 1, rest);
      1 + rest
  }

  lemma {:induction false} MappedPrefixIsWhole(m: Memory, start: nat, len: nat)
    requires Mapped(m, Addrs(start, len))
    ensures MappedPrefix(m, start, len) == len
    decreases len
  {
    if len == 0 {
    } else {
      assert Mapped(m, Addrs(start + 1, len - 1)) by {
        assert Addrs(start + 1, len - 1) == Addrs(start, len)[1..];
      }
      assert Addrs(start, len)[0] in m;
      MappedPrefixIsWhole(m, start + 1, len - 1);
    }
  }

  lemma {:induction false} StoreAppends(m: Memory, a: seq<int>, d: seq<u8>, b: seq<int>, e: seq<u8>)
    requires |a| == |d| && |b| == |e| && Mapped(m, a) && Mapped(m, b)
    ensures Mapped(m, a + b)
    ensures Store(Store(m, a, d), b, e) == Store(m, a + b, d + e)
  {
    if b == [] {
      assert a + b == a && d + e == d;
    } else {
      var n := |b| - 1;
      StoreAppends(m, a, d, b[..n], e[..n]);
      assert (a + b)[..|a + b| - 1] == a + b[..n];
      assert (d + e)[..|a + b| - 1] == d + e[..n];
    }
  }

  /** A stored address holds the last byte written to it; every other address is left alone. */
  lemma {:induction false} StoreAt(m: Memory, a: seq<int>, d: seq<u8>, x: int)
    requires |a| == |d| && Mapped(m, a) && x in m
    ensures x !in a ==> Store(m, a, d)[x] == m[x]
    ensures forall i | 0 <= i < |a| && a[i] == x && x !in a[i + 1..] :: Store(m, a, d)[x] == d[i]
  {
    if a == [] {
    } else {
      var n := |a| - 1;
      StoreAt(m, a[..n], d[..n], x);
      forall i | 0 <= i < |a| && a[i] == x && x !in a[i + 1..]
        ensures Store(m, a, d)[x] == d[i]
      {
        if i < n {
          assert a[i + 1..][n - i - 1] == a[n];
          assert a[..n][i + 1..] == a[i + 1..][..n - i - 1];
        }
      }
    }
  }

  ghost predicate Distinct(a: seq<int>) {
    forall i, j | 0 <= i < j < |a| :: a[i] != a[j]
  }

  /** The bytes agree wherever an address is listed twice. */
  ghost predicate Consistent(a: seq<int>, d: seq<u8>)
    requires |a| == |d|
  {
    forall i, j | 0 <= i < j < |a| && a[i] == a[j] :: d[i] == d[j]
  }

  /** Loading what was stored returns it exactly when the bytes agree on repeated addresses. */
  lemma {:induction false} LoadAfterStore(m: Memory, a: seq<int>, d: seq<u8>)
    requires |a| == |d| && Mapped(m, a)
    ensures Load(Store(m, a, d), a) == d <==> Consistent(a, d)
  {
    var back := Load(Store(m, a, d), a);
    if Consistent(a, d) {
      forall i | 0 <= i < |a|
        ensures back[i] == d[i]
      {
        var j := LastIndex(a, i);
        StoreAt(m, a, d, a[j]);
      }
    }
  }

  lemma {:induction false} LastIndex(a: seq<int>, i: nat) returns (j: nat)
    requires i < |a|
    ensures i <= j < |a| && a[j] == a[i] && a[i] !in a[j + 1..]
    decreases |a| - i
  {
    if k :| i + 1 <= k < |a| && a[k] == a[i] {
      j := LastIndex(a, k);
    } else {
      j := i;
    }
  }

  /** Extents that share no address. */
  ghost predicate DisjointExtents(es: seq<Extent>) {
    forall i, j, x | 0 <= i < j < |es| :: !(es[i].Has(x) && es[j].Has(x))
  }

  lemma {:induction false} InSomeExtent(es: seq<Extent>, i: nat) returns (k: nat)
    requires i < |Flatten(es)|
    ensures k < |es| && es[k].Has(Flatten(es)[i])
  {
    var n := |es| - 1;
    if i < |Flatten(es[..n])| {
      k := InSomeExtent(es[..n], i);
    } else {
      k := n;
    }
  }

  lemma {:induction false} DisjointMeansDistinct(es: seq<Extent>)
    requires DisjointExtents(es)
    ensures Distinct(Flatten(es))
  {
    if es == [] {
    } else {
      var n := |es| - 1;
      DisjointMeansDistinct(es[..n]);
      var front := Flatten(es[..n]);
      forall i, j | 0 <= i < |front| <= j < |Flatten(es)|
        ensures Flatten(es)[i] != Flatten(es)[j]
      {
        var k := InSomeExtent(es[..n], i);
        assert es[n].Has(Flatten(es)[j]);
      }
    }
  }

  /** The first `k` extents make up a prefix of the flat list, followed by extent `k`. */
  lemma {:induction false} FlattenPrefix(es: seq<Extent>, k: nat)
    requires k <= |es|
    ensures |Flatten(es[..k])| <= |Flatten(es)|
    ensures Flatten(es)[..|Flatten(es[..k])|] == Flatten(es[..k])
    ensures k < |es| ==>
              var p := |Flatten(es[..k])|;
              p + es[k].len <= |Flatten(es)| && Flatten(es)[p..p + es[k].len] == Addrs(es[k].addr, es[k].len)
    decreases |es|
  {
    if k == |es| {
      assert es[..k] == es;
    } else {
      var n := |es| - 1;
      FlattenPrefix(es[..n], k);
      assert es[..n][..k] == es[..k];
      if k < n {
        var p := |Flatten(es[..k])|;
        assert Flatten(es)[p..p + es[k].len] == Flatten(es[..n])[p..p + es[k].len];
      }
    }
  }

  /** The memory object; its reads and writes stop at the first unmapped address. */
  class GuestMemory {
    var bytes: Memory

    constructor (bytes: Memory)
      ensures this.bytes == bytes
    {
      this.bytes := bytes;
    }

    method Read(len: nat, addr: nat) returns (r: Result<seq<u8>, IoError>)
      ensures r.Err? <==> len > 0 && addr !in bytes
      ensures r.Err? ==> r.error == InvalidGuestAddress
      ensures r.Ok? ==> r.value == Load(bytes, Addrs(addr, MappedPrefix(bytes, addr, len)))
    {
      var n := MappedPrefix(bytes, addr, len);
      if len > 0 && n == 0 {
        return Err(InvalidGuestAddress);
      }
      r := Ok(Load(bytes, Addrs(addr, n)));
    }

    method Write(data: seq<u8>, addr: nat) returns (r: Result<nat, IoError>)
      modifies this
      ensures r.Err? <==> |data| > 0 && addr !in old(bytes)
      ensures r.Err? ==> r.error == InvalidGuestAddress && bytes == old(bytes)
      ensures r.Ok? ==>
                && r.value == MappedPrefix(old(bytes), addr, |data|)
                && bytes == Store(old(bytes), Addrs(addr, r.value), data[..r.value])
    {
      var n := MappedPrefix(bytes, addr, |data|);
      if |data| > 0 && n == 0 {
        return Err(InvalidGuestAddress);
      }
      bytes := Store(bytes, Addrs(addr, n), data[..n]);
      r := Ok(n);
    }
  }
}
