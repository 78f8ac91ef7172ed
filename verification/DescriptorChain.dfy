/** Reader and writer over the scattered descriptors of a chain, as one cursor over a flat address list. */
module DescriptorChains {
  import opened Common
  import opened GuestMemories

  /** A descriptor of the queue, for the device to read or to write. */
  datatype Descriptor = Descriptor(addr: u64, len: u32, writeOnly: bool)

  /** The readable or the writable descriptors, in order. */
  function Side(descriptors: seq<Descriptor>, writable: bool): (chain: seq<Extent>) {
    if descriptors == [] then []
    else
      var d := descriptors[|descriptors| - 1];
      Side(descriptors[..|descriptors| - 1], writable) + if d.writeOnly == writable then [Extent(d.addr, d.len)] else []
  }

  /** `idx` lists the positions of the descriptors of one direction, in order and none left out, and the chain
      is their addresses and lengths. */
  ghost predicate InOrder(descriptors: seq<Descriptor>, writable: bool, chain: seq<Extent>, idx: seq<nat>) {
    && |idx| == |chain|
    && (forall i, j | 0 <= i < j < |idx| :: idx[i] < idx[j])
    && (forall i | 0 <= i < |idx| ::
          && idx[i] < |descriptors| && descriptors[idx[i]].writeOnly == writable
          && chain[i].addr == descriptors[idx[i]].addr && chain[i].len == descriptors[idx[i]].len)
    && (forall k | 0 <= k < |descriptors| && descriptors[k].writeOnly == writable :: k in idx)
  }

  lemma {:induction false} SideInOrder(descriptors: seq<Descriptor>, writable: bool) returns (idx: seq<nat>)
    ensures InOrder(descriptors, writable, Side(descriptors, writable), idx)
  {
    if descriptors == [] {
      idx := [];
    } else {
      hide InOrder;
      var n := |descriptors| - 1;
      var front, d := descriptors[..n], descriptors[n];
      assert descriptors == front + [d];
      idx := SideInOrder(front, writable);
      var chain := Side(front, writable);
      SideGrows(front, d, writable);
      if d.writeOnly == writable {
        InOrderTakes(front, d, chain, idx);
        idx := idx + [n];
      } else {
        InOrderSkips(front, d, writable, chain, idx);
      }
    }
  }

  lemma SideGrows(front: seq<Descriptor>, d: Descriptor, writable: bool)
    ensures Side(front + [d], writable) ==
            Side(front, writable) + if d.writeOnly == writable then [Extent(d.addr, d.len)] else []
    ensures d.writeOnly != writable ==> Side(front + [d], writable) == Side(front, writable)
  {
    assert (front + [d])[..|front|] == front;
  }

  lemma InOrderSkips(front: seq<Descriptor>, d: Descriptor, writable: bool, chain: seq<Extent>, idx: seq<nat>)
    requires InOrder(front, writable, chain, idx) && d.writeOnly != writable
    ensures InOrder(front + [d], writable, chain, idx)
  {
    var all := front + [d];
    assert forall k | 0 <= k < |front| :: all[k] == front[k];
  }

  lemma InOrderTakes(front: seq<Descriptor>, d: Descriptor, chain: seq<Extent>, idx: seq<nat>)
    requires InOrder(front, d.writeOnly, chain, idx)
    ensures InOrder(front + [d], d.writeOnly, chain + [Extent(d.addr, d.len)], idx + [|front|])
  {
    var all, more := front + [d], idx + [|front|];
    assert forall k | 0 <= k < |front| :: all[k] == front[k];
    assert forall i | 0 <= i < |idx| :: more[i] == idx[i] < |front|;
    assert forall k | k in idx :: k in more;
    assert |front| in more;
  }

  /** The position of a cursor: which descriptor is current, and how far into it. */
  datatype Cursor = Cursor(next: nat, current: Option<Extent>, offset: u32)

  /** `next` is the iterator: descriptors before it have been handed out, the last one may be current.
      The queue never yields a chain of more than 2^32 - 1 bytes. */
  ghost predicate CursorValid(c: Cursor, chain: seq<Extent>) {
    && |Flatten(chain)| <= U32_MAX
    && c.next <= |chain|
    && if c.current.None? then c.next == |chain| && c.offset == 0
       else
         && c.next > 0 && c.current == Some(chain[c.next - 1])
         && c.offset <= c.current.value.len && (c.current.value.len > 0 ==> c.offset < c.current.value.len)
  }

  /** The flat position: how many addresses of the chain lie behind the cursor. */
  ghost function Position(c: Cursor, chain: seq<Extent>): (p: nat)
    requires CursorValid(c, chain)
    ensures p <= |Flatten(chain)| <= U32_MAX
  {
    if c.current.None? then |Flatten(chain)|
    else
      FlattenPrefix(chain, c.next - 1);
      |Flatten(chain[..c.next - 1])| + c.offset
  }

  function Start(chain: seq<Extent>): (c: Cursor) {
    if chain == [] then Cursor(0, None, 0) else Cursor(1, Some(chain[0]), 0)
  }

  /** Moving `n` bytes on inside the current descriptor, to the next one when it is used up. */
  function Advance(c: Cursor, chain: seq<Extent>, n: u32): (next: Cursor)
    requires c.current.Some? && c.next <= |chain| && c.offset + n <= U32_MAX
  {
    if c.offset + n == c.current.value.len then
      if c.next < |chain| then Cursor(c.next + 1, Some(chain[c.next]), 0) else Cursor(c.next, None, 0)
    else
      c.(offset := c.offset + n)
  }

  lemma StartIsZero(chain: seq<Extent>)
    requires |Flatten(chain)| <= U32_MAX
    ensures CursorValid(Start(chain), chain) && Position(Start(chain), chain) == 0
  {
    if chain != [] {
      assert chain[..0] == [];
    }
  }

  /** The unread part of the current descriptor is the next stretch of the flat list. */
  lemma CurrentStretch(c: Cursor, chain: seq<Extent>, n: nat)
    requires CursorValid(c, chain) && c.current.Some? && c.offset + n <= c.current.value.len
    ensures Position(c, chain) + n <= |Flatten(chain)|
    ensures Flatten(chain)[Position(c, chain)..Position(c, chain) + n] == Addrs(c.current.value.addr + c.offset, n)
  {
    hide Flatten, Addrs;
    var k := c.next - 1;
    ExtentStretch(chain, k, c.offset, n);
    assert c.current.value == chain[k];
  }

  lemma ExtentStretch(chain: seq<Extent>, k: nat, offset: nat, n: nat)
    requires k < |chain| && offset + n <= chain[k].len
    ensures var p := |Flatten(chain[..k])| + offset;
            p + n <= |Flatten(chain)| && Flatten(chain)[p..p + n] == Addrs(chain[k].addr + offset, n)
  {
    FlattenPrefix(chain, k);
    SubSlice(Flatten(chain), |Flatten(chain[..k])|, chain[k].len, offset, n);
    SubAddrs(chain[k].addr, chain[k].len, offset, n);
  }

  lemma SubAddrs(start: nat, len: nat, offset: nat, n: nat)
    requires offset + n <= len
    ensures Addrs(start, len)[offset..offset + n] == Addrs(start + offset, n)
  {
    assert Addrs(start, len)[offset..offset + n] == Addrs(start + offset, n);
  }

  lemma SubSlice<T>(s: seq<T>, from: nat, len: nat, offset: nat, n: nat)
    requires from + len <= |s| && offset + n <= len
    ensures s[from..from + len][offset..offset + n] == s[from + offset..from + offset + n]
  {
    var a, b := s[from..from + len][offset..offset + n], s[from + offset..from + offset + n];
    assert |a| == |b| && forall i | 0 <= i < n :: a[i] == b[i];
    assert a == b;
  }

  /** Over well-mapped positive descriptors the current stretch can be accessed in full. */
  lemma CurrentIsMapped(c: Cursor, chain: seq<Extent>, m: Memory, n: nat)
    requires CursorValid(c, chain) && c.current.Some? && c.offset + n <= c.current.value.len
    ensures WellMapped(m, chain) && AllPositive(chain) ==>
              && c.current.value.addr + c.offset <= U64_MAX && c.current.value.addr + c.offset in m
              && MappedPrefix(m, c.current.value.addr + c.offset, n) == n
  {
    if WellMapped(m, chain) && AllPositive(chain) {
      var p := Position(c, chain);
      CurrentStretch(c, chain, 1);
      assert Flatten(chain)[p] == Flatten(chain)[p..p + 1][0] == c.current.value.addr + c.offset;
      CurrentStretch(c, chain, n);
      assert Mapped(m, Flatten(chain)[p..p + n]);
      MappedPrefixIsWhole(m, c.current.value.addr + c.offset, n);
    }
  }

  lemma AdvanceMovesPosition(c: Cursor, chain: seq<Extent>, n: u32)
    requires CursorValid(c, chain) && c.current.Some? && c.offset + n <= c.current.value.len
    ensures CursorValid(Advance(c, chain, n), chain)
    ensures Position(Advance(c, chain, n), chain) == Position(c, chain) + n
  {
    var k := c.next - 1;
    assert chain[..k + 1][..k] == chain[..k];
    if k + 1 == |chain| {
      assert chain[..k + 1] == chain;
    }
  }

  ghost predicate AllPositive(chain: seq<Extent>) {
    forall i | 0 <= i < |chain| :: chain[i].len > 0
  }

  /** A mapped address never leaves 64 bits. */
  ghost predicate WellMapped(m: Memory, chain: seq<Extent>) {
    Mapped(m, Flatten(chain)) && forall x | x in m :: 0 <= x <= U64_MAX
  }

  /** How an access of up to `room` bytes at the cursor fails, if it does. */
  function AccessError(c: Cursor, m: Memory, room: nat): (error: Option<IoError>)
    requires c.current.Some? ==> c.offset <= c.current.value.len
  {
    if c.current.None? then None
    else
      var addr := c.current.value.addr + c.offset;
      if addr > U64_MAX then Some(AddressOverflow)
      else if Min(c.current.value.len - c.offset, room) > 0 && addr !in m then Some(InvalidGuestAddress)
      else None
  }

  /** The room in a read buffer, cut to 32 bits. */
  function Room(length: nat): (room: u32) {
    length % (U32_MAX + 1)
  }

  /** An access fails on an address past 64 bits, or when it has a byte to move and the first is not mapped. */
  lemma AccessErrorExactly(c: Cursor, m: Memory, room: nat)
    requires c.current.Some? && c.offset <= c.current.value.len
    ensures var addr, error := c.current.value.addr + c.offset, AccessError(c, m, room);
            && (error == Some(AddressOverflow) <==> addr > 0xFFFF_FFFF_FFFF_FFFF)
            && (error == Some(InvalidGuestAddress) <==>
                  addr <= 0xFFFF_FFFF_FFFF_FFFF && c.offset < c.current.value.len && room > 0 && addr !in m)
            && (error.Some? ==> error.value in {AddressOverflow, InvalidGuestAddress})
  {
  }

  /** How many bytes an access that does not fail moves. */
  function AccessCount(c: Cursor, m: Memory, room: nat): (n: nat)
    requires c.current.Some? ==> c.offset <= c.current.value.len
    ensures n <= room
  {
    if c.current.None? then 0
    else MappedPrefix(m, c.current.value.addr + c.offset, Min(c.current.value.len - c.offset, room))
  }

  /** Over positive descriptors an access that does not fail stalls only at the end or without room. */
  lemma AccessMoves(c: Cursor, chain: seq<Extent>, m: Memory, room: nat)
    requires CursorValid(c, chain) && AllPositive(chain) && AccessError(c, m, room) == None
    ensures AccessCount(c, m, room) == 0 <==> c.current.None? || room == 0
  {
  }

  /** Over positive, mapped descriptors an access takes all that is left of the descriptor and fits the room. */
  lemma AccessWhole(c: Cursor, chain: seq<Extent>, m: Memory, room: nat)
    requires CursorValid(c, chain) && c.current.Some? && WellMapped(m, chain) && AllPositive(chain)
    ensures AccessError(c, m, room) == None
    ensures AccessCount(c, m, room) == Min(c.current.value.len - c.offset, room)
    ensures c.offset < c.current.value.len && Position(c, chain) < |Flatten(chain)|
  {
    hide WellMapped;
    CurrentIsMapped(c, chain, m, Min(c.current.value.len - c.offset, room));
    CurrentStretch(c, chain, 1);
  }

  /** Moving from position `p` to `q` with the bytes `data` stored at the flat addresses in between. */
  ghost predicate Stored(chain: seq<Extent>, p: nat, data: seq<u8>, m: Memory, q: nat, m': Memory) {
    && p + |data| == q <= |Flatten(chain)|
    && Mapped(m, Flatten(chain)[p..q])
    && m' == Store(m, Flatten(chain)[p..q], data)
  }

  lemma AdvanceStores(c: Cursor, chain: seq<Extent>, m: Memory, data: seq<u8>)
    requires CursorValid(c, chain) && c.current.Some? && c.offset + |data| <= c.current.value.len
    requires Mapped(m, Addrs(c.current.value.addr + c.offset, |data|))
    ensures var c' := Advance(c, chain, |data|);
            && CursorValid(c', chain)
            && Stored(chain, Position(c, chain), data, m, Position(c', chain),
                      Store(m, Addrs(c.current.value.addr + c.offset, |data|), data))
  {
    CurrentStretch(c, chain, |data|);
    AdvanceMovesPosition(c, chain, |data|);
  }

  /** The count shared by a writer and its clones. */
  class SharedCount {
    var value: u32

    constructor ()
      ensures value == 0
    {
      value := 0;
    }
  }

  class DescriptorChainWriter {
    const chain: seq<Extent>
    const mem: GuestMemory
    const peak: SharedCount
    var cursor: Cursor
    var written: u32

    /** A writer has written exactly the bytes behind its cursor, and the shared peak is no less. */
    ghost predicate Valid()
      reads this, peak
    {
      CursorValid(cursor, chain) && written == Position(cursor, chain) && written <= peak.value
    }

    constructor (descriptors: seq<Descriptor>, mem: GuestMemory)
      requires |Flatten(Side(descriptors, true))| <= U32_MAX
      ensures Valid() && written == 0 && this.chain == Side(descriptors, true) && this.mem == mem
      ensures exists idx :: InOrder(descriptors, true, chain, idx)
      ensures fresh(peak) && peak.value == 0
    {
      var chain := Side(descriptors, true);
      ghost var idx := SideInOrder(descriptors, true);
      hide InOrder, Side;
      this.chain, this.mem := chain, mem;
      this.cursor, this.written := Start(chain), 0;
      this.peak := new SharedCount();
      StartIsZero(chain);
    }

    constructor CloneOf(w: DescriptorChainWriter)
      requires w.Valid()
      ensures Valid() && written == w.written && cursor == w.cursor
      ensures chain == w.chain && mem == w.mem && peak == w.peak
    {
      this.chain, this.mem, this.peak := w.chain, w.mem, w.peak;
      this.cursor, this.written := w.cursor, w.written;
    }

    method AddWritten(n: u32)
      requires written + n <= U32_MAX
      modifies this`written, peak
      ensures written == old(written) + n && peak.value == Max(old(peak.value), written)
    {
      written := written + n;
      peak.value := Max(peak.value, written);
    }

    /** One write stores a prefix of the buffer at the next flat addresses and moves past exactly those.
        Over positive, mapped descriptors it never fails and moves on unless the chain is used up. */
    method Write(buf: seq<u8>) returns (r: Result<nat, IoError>)
      requires Valid()
      modifies this`cursor, this`written, mem, peak
      ensures Valid()
      ensures match AccessError(old(cursor), old(mem.bytes), |buf|)
              case Some(e) => r == Err(e)
              case None => r == Ok(AccessCount(old(cursor), old(mem.bytes), |buf|))
      ensures r.Err? || old(cursor).current.None? ==>
                cursor == old(cursor) && written == old(written) && mem.bytes == old(mem.bytes) && peak.value == old(peak.value)
      ensures r.Ok? ==>
                && r.value <= |buf|
                && Stored(chain, old(written), buf[..r.value], old(mem.bytes), written, mem.bytes)
                && peak.value == Max(old(peak.value), written)
      ensures WellMapped(old(mem.bytes), chain) && AllPositive(chain) ==>
                r.Ok? && (r.value == 0 <==> buf == [] || old(written) == |Flatten(chain)|)
    {
      if cursor.current.None? {
        assert Flatten(chain)[written..written] == [] && buf[..0] == [];
        return Ok(0);
      }
      r := StoreCurrent(buf);
      if r.Ok? {
        AdvanceStores(cursor, chain, old(mem.bytes), buf[..r.value]);
        cursor := Advance(cursor, chain, r.value);
        AddWritten(r.value);
      }
    }

    /** The memory access of `Write`: what fits into the current descriptor, up to an unmapped address. */
    method StoreCurrent(buf: seq<u8>) returns (r: Result<nat, IoError>)
      requires Valid() && cursor.current.Some?
      modifies mem
      ensures match AccessError(cursor, old(mem.bytes), |buf|)
              case Some(e) => r == Err(e)
              case None => r == Ok(AccessCount(cursor, old(mem.bytes), |buf|))
      ensures r.Err? ==> mem.bytes == old(mem.bytes)
      ensures r.Ok? ==>
                && r.value <= |buf| && cursor.offset + r.value <= cursor.current.value.len
                && var a := Addrs(cursor.current.value.addr + cursor.offset, r.value);
                   Mapped(old(mem.bytes), a) && mem.bytes == Store(old(mem.bytes), a, buf[..r.value])
      ensures WellMapped(old(mem.bytes), chain) && AllPositive(chain) ==>
                r == Ok(Min(cursor.current.value.len - cursor.offset, |buf|))
    {
      hide Flatten, Store, WellMapped, AllPositive;
      var current := cursor.current.value;
      var left: u32 := current.len - cursor.offset;
      var toWrite: u32 := Min(left, |buf|);
      CurrentIsMapped(cursor, chain, mem.bytes, toWrite);
      var addr := current.addr + cursor.offset;
      if addr > U64_MAX {
        return Err(AddressOverflow);
      }
      var part := buf[..toWrite];
      r := mem.Write(part, addr);
      assert r.Ok? ==> part[..r.value] == buf[..r.value];
    }

    /** Writing a whole buffer: retried until it is used up, a write makes no progress, or one fails. */
    method WriteAll(buf: seq<u8>) returns (r: Result<(), IoError>, done: nat)
      requires Valid()
      modifies this`cursor, this`written, mem, peak
      ensures Valid() && done <= |buf| && (r.Ok? <==> done == |buf|)
      ensures Stored(chain, old(written), buf[..done], old(mem.bytes), written, mem.bytes)
      ensures peak.value == Max(old(peak.value), written)
      ensures AllPositive(chain) && r.Err? ==>
                r.error == match AccessError(cursor, mem.bytes, |buf| - done) case Some(e) => e case None => WriteZero
      ensures WellMapped(old(mem.bytes), chain) && AllPositive(chain) ==>
                && done == Min(|buf|, |Flatten(chain)| - old(written))
                && r == if done == |buf| then Ok(()) else Err(WriteZero)
    {
      hide Flatten, Mapped, Store, WellMapped, AllPositive, AccessError, AccessCount;
      ghost var p, m := written, mem.bytes;
      ghost var accessible := WellMapped(m, chain) && AllPositive(chain);
      done := 0;
      StoredNothing(chain, p, m);
      assert buf[..0] == [];
      while done < |buf|
        invariant Valid() && done <= |buf|
        invariant Stored(chain, p, buf[..done], m, written, mem.bytes)
        invariant peak.value == Max(old(peak.value), written)
        invariant accessible ==> WellMapped(mem.bytes, chain)
        decreases |buf| - done
      {
        ghost var q, m1 := written, mem.bytes;
        var rest := buf[done..];
        if AllPositive(chain) && AccessError(cursor, m1, |rest|) == None {
          AccessMoves(cursor, chain, m1, |rest|);
        }
        var n := Write(rest);
        if n.Err? {
          return Err(n.error), done;
        }
        if n.value == 0 {
          StoredIsNothing(chain, q, m1, written, mem.bytes, rest[..0]);
          return Err(WriteZero), done;
        }
        StoredKeepsMapped(chain, q, rest[..n.value], m1, written, mem.bytes);
        StoredGrows(chain, p, buf, done, m, q, m1, rest[..n.value], written, mem.bytes);
        done := done + n.value;
      }
      r := Ok(());
    }
  }

  lemma StoredNothing(chain: seq<Extent>, p: nat, m: Memory)
    requires p <= |Flatten(chain)|
    ensures Stored(chain, p, [], m, p, m)
  {
    assert Flatten(chain)[p..p] == [];
  }

  lemma StoredIsNothing(chain: seq<Extent>, p: nat, m: Memory, q: nat, m': Memory, d: seq<u8>)
    requires Stored(chain, p, d, m, q, m') && d == []
    ensures q == p && m' == m
  {
  }

  lemma StoredAppends(chain: seq<Extent>, p: nat, d: seq<u8>, m: Memory, q: nat, m1: Memory, e: seq<u8>, r: nat, m2: Memory)
    requires Stored(chain, p, d, m, q, m1) && Stored(chain, q, e, m1, r, m2)
    ensures Stored(chain, p, d + e, m, r, m2)
  {
    var a := Flatten(chain);
    assert a[p..r] == a[p..q] + a[q..r];
    StoreAppends(m, a[p..q], d, a[q..r], e);
  }

  lemma StoredGrows(chain: seq<Extent>, p: nat, buf: seq<u8>, done: nat, m: Memory, q: nat, m1: Memory,
                    e: seq<u8>, r: nat, m2: Memory)
    requires done + |e| <= |buf| && e == buf[done..][..|e|]
    requires Stored(chain, p, buf[..done], m, q, m1) && Stored(chain, q, e, m1, r, m2)
    ensures Stored(chain, p, buf[..done + |e|], m, r, m2)
  {
    StoredAppends(chain, p, buf[..done], m, q, m1, e, r, m2);
    assert buf[..done] + e == buf[..done + |e|];
  }

  lemma StoredKeepsMapped(chain: seq<Extent>, p: nat, d: seq<u8>, m: Memory, q: nat, m1: Memory)
    requires Stored(chain, p, d, m, q, m1)
    ensures WellMapped(m, chain) ==> WellMapped(m1, chain)
  {
    assert m1.Keys == m.Keys;
    assert forall x :: x in m1 <==> x in m1.Keys;
  }

  // ----- Reading -----

  /** Moving from position `p` to `q` with the bytes `data` loaded from the flat addresses in between. */
  ghost predicate Loaded(chain: seq<Extent>, p: nat, data: seq<u8>, m: Memory, q: nat) {
    && p + |data| == q <= |Flatten(chain)|
    && Mapped(m, Flatten(chain)[p..q])
    && data == Load(m, Flatten(chain)[p..q])
  }

  lemma LoadedAppends(chain: seq<Extent>, p: nat, d: seq<u8>, m: Memory, q: nat, e: seq<u8>, r: nat)
    requires Loaded(chain, p, d, m, q) && Loaded(chain, q, e, m, r)
    ensures Loaded(chain, p, d + e, m, r)
  {
    var a := Flatten(chain);
    assert a[p..r] == a[p..q] + a[q..r];
  }

  class DescriptorChainReader {
    const chain: seq<Extent>
    const mem: GuestMemory
    var cursor: Cursor

    ghost predicate Valid()
      reads this
    {
      CursorValid(cursor, chain)
    }

    constructor (descriptors: seq<Descriptor>, mem: GuestMemory)
      requires |Flatten(Side(descriptors, false))| <= U32_MAX
      ensures this.chain == Side(descriptors, false) && this.mem == mem && Valid() && Position(cursor, chain) == 0
      ensures exists idx :: InOrder(descriptors, false, chain, idx)
    {
      var chain := Side(descriptors, false);
      ghost var idx := SideInOrder(descriptors, false);
      hide InOrder, Side;
      this.chain, this.mem := chain, mem;
      this.cursor := Start(chain);
      StartIsZero(chain);
    }

    /** One read into the buffer from index `from` on. The room in the buffer is truncated to 32 bits, so
        over positive, mapped descriptors it moves on unless the chain is used up or the room is a
        multiple of 2^32. */
    method Read(buf: array<u8>, from: nat) returns (r: Result<nat, IoError>)
      requires Valid() && from <= buf.Length
      modifies this`cursor, buf
      ensures Valid()
      ensures match AccessError(old(cursor), mem.bytes, Room(buf.Length - from))
              case Some(e) => r == Err(e)
              case None => r == Ok(AccessCount(old(cursor), mem.bytes, Room(buf.Length - from)))
      ensures r.Err? || old(cursor).current.None? ==> cursor == old(cursor) && buf[..] == old(buf[..])
      ensures r == Ok(0) && AllPositive(chain) ==> cursor == old(cursor)
      ensures r.Ok? ==>
                && from + r.value <= buf.Length
                && Loaded(chain, old(Position(cursor, chain)), buf[from..from + r.value], mem.bytes, Position(cursor, chain))
                && buf[..from] == old(buf[..from])
                && buf[from + r.value..] == old(buf[from + r.value..])
      ensures WellMapped(mem.bytes, chain) && AllPositive(chain) ==>
                r.Ok? && (r.value == 0 <==>
                            || Room(buf.Length - from) == 0
                            || old(Position(cursor, chain)) == |Flatten(chain)|)
    {
      ghost var p := Position(cursor, chain);
      if cursor.current.None? {
        assert Flatten(chain)[p..p] == [];
        return Ok(0);
      }
      var read := LoadCurrent(Room(buf.Length - from));
      if read.Err? {
        return Err(read.error);
      }
      var bytes := read.value;
      AdvanceLoads(cursor, chain, mem.bytes, bytes);
      cursor := Advance(cursor, chain, |bytes|);
      CopyInto(buf, from, bytes);
      r := Ok(|bytes|);
    }

    /** The memory access of `Read`: what is left of the current descriptor, up to an unmapped address. */
    method LoadCurrent(room: u32) returns (r: Result<seq<u8>, IoError>)
      requires Valid() && cursor.current.Some?
      ensures match AccessError(cursor, mem.bytes, room)
              case Some(e) => r == Err(e)
              case None => r.Ok? && |r.value| == AccessCount(cursor, mem.bytes, room)
      ensures r.Ok? ==>
                && |r.value| <= room && cursor.offset + |r.value| <= cursor.current.value.len
                && var a := Addrs(cursor.current.value.addr + cursor.offset, |r.value|);
                   Mapped(mem.bytes, a) && r.value == Load(mem.bytes, a)
      ensures WellMapped(mem.bytes, chain) && AllPositive(chain) ==>
                r.Ok? && |r.value| == Min(cursor.current.value.len - cursor.offset, room)
    {
      var current := cursor.current.value;
      var left: u32 := current.len - cursor.offset;
      var toRead: u32 := Min(left, room);
      CurrentIsMapped(cursor, chain, mem.bytes, toRead);
      var addr := current.addr + cursor.offset;
      if addr > U64_MAX {
        return Err(AddressOverflow);
      }
      r := mem.Read(toRead, addr);
    }

    /** Filling a whole buffer: retried until it is full, a read makes no progress, or one fails. As the room
        is cut to 32 bits, no more than the length modulo 2^32 is ever filled. */
    method ReadExact(buf: array<u8>) returns (r: Result<(), IoError>, done: nat)
      requires Valid()
      modifies this`cursor, buf
      ensures Valid() && done <= buf.Length && (r.Ok? <==> done == buf.Length)
      ensures Loaded(chain, old(Position(cursor, chain)), buf[..done], mem.bytes, Position(cursor, chain))
      ensures AllPositive(chain) && r.Err? ==>
                r.error == match AccessError(cursor, mem.bytes, Room(buf.Length - done))
                           case Some(e) => e
                           case None => UnexpectedEof
      ensures WellMapped(mem.bytes, chain) && AllPositive(chain) ==>
                && done == Min(Room(buf.Length), |Flatten(chain)| - old(Position(cursor, chain)))
                && r == if done == buf.Length then Ok(()) else Err(UnexpectedEof)
    {
      hide WellMapped, AllPositive, AccessError, AccessCount, Loaded, Flatten, Room;
      ghost var p, m := Position(cursor, chain), mem.bytes;
      ghost var accessible := WellMapped(m, chain) && AllPositive(chain);
      done := 0;
      LoadedNothing(chain, p, m);
      assert buf[..0] == [];
      while done < buf.Length
        invariant Valid() && done <= buf.Length && mem.bytes == m
        invariant accessible ==> done <= Room(buf.Length)
        invariant Loaded(chain, p, buf[..done], m, Position(cursor, chain))
        decreases buf.Length - done
      {
        ghost var q, before, room := Position(cursor, chain), buf[..done], Room(buf.Length - done);
        LoadedLength(chain, p, before, m, q);
        if AllPositive(chain) && AccessError(cursor, m, room) == None {
          AccessMoves(cursor, chain, m, room);
        }
        RoomLeft(buf.Length, done);
        var n := Read(buf, done);
        if n.Err? {
          assert buf[..done] == before;
          return Err(n.error), done;
        }
        LoadedAppends(chain, p, before, m, q, buf[done..done + n.value], Position(cursor, chain));
        assert buf[..done + n.value] == before + buf[done..done + n.value];
        if n.value == 0 {
          return Err(UnexpectedEof), done;
        }
        done := done + n.value;
      }
      RoomLeft(buf.Length, done);
      LoadedLength(chain, p, buf[..done], m, Position(cursor, chain));
      r := Ok(());
    }
  }

  /** Lengths below 2^32 are kept, and 2^32 more make no difference. */
  lemma RoomExactly(length: nat)
    ensures length < 0x1_0000_0000 ==> Room(length) == length
    ensures Room(length + 0x1_0000_0000) == Room(length)
  {
  }

  lemma RoomLeft(length: nat, done: nat)
    requires done <= length
    ensures Room(length) <= length
    ensures done <= Room(length) ==> Room(length - done) == Room(length) - done
  {
  }

  lemma LoadedNothing(chain: seq<Extent>, p: nat, m: Memory)
    requires p <= |Flatten(chain)|
    ensures Loaded(chain, p, [], m, p)
  {
    assert Flatten(chain)[p..p] == [];
  }

  lemma LoadedLength(chain: seq<Extent>, p: nat, d: seq<u8>, m: Memory, q: nat)
    requires Loaded(chain, p, d, m, q)
    ensures p + |d| == q <= |Flatten(chain)|
  {
  }

  lemma AdvanceLoads(c: Cursor, chain: seq<Extent>, m: Memory, data: seq<u8>)
    requires CursorValid(c, chain) && c.current.Some? && c.offset + |data| <= c.current.value.len
    requires var a := Addrs(c.current.value.addr + c.offset, |data|);
             Mapped(m, a) && data == Load(m, a)
    ensures var c' := Advance(c, chain, |data|);
            CursorValid(c', chain) && Loaded(chain, Position(c, chain), data, m, Position(c', chain))
  {
    CurrentStretch(c, chain, |data|);
    AdvanceMovesPosition(c, chain, |data|);
  }

  /** Copying into a window of the buffer. */
  method CopyInto(buf: array<u8>, from: nat, bytes: seq<u8>)
    requires from + |bytes| <= buf.Length
    modifies buf
    ensures buf[from..from + |bytes|] == bytes
    ensures buf[..from] == old(buf[..from])
    ensures buf[from + |bytes|..] == old(buf[from + |bytes|..])
  {
    forall i | 0 <= i < |bytes| {
      buf[from + i] := bytes[i];
    }
  }

  // ----- Runs of one cursor -----

  function Concat(parts: seq<seq<u8>>): (whole: seq<u8>) {
    if parts == [] then [] else Concat(parts[..|parts| - 1]) + parts[|parts| - 1]
  }

  /** Any sequence of writes, each from where the one before stopped, is a single store of all their bytes
      over the flat addresses: none skipped, none repeated. */
  lemma {:induction false} WritesAreOneStore(chain: seq<Extent>, at: seq<nat>, parts: seq<seq<u8>>, ms: seq<Memory>)
    requires |at| == |ms| == |parts| + 1 && at[0] <= |Flatten(chain)|
    requires forall i | 0 <= i < |parts| :: Stored(chain, at[i], parts[i], ms[i], at[i + 1], ms[i + 1])
    ensures Stored(chain, at[0], Concat(parts), ms[0], at[|parts|], ms[|parts|])
  {
    hide Stored;
    if parts == [] {
      StoredNothing(chain, at[0], ms[0]);
    } else {
      var n := |parts| - 1;
      WritesAreOneStore(chain, at[..n + 1], parts[..n], ms[..n + 1]);
      StoredAppends(chain, at[0], Concat(parts[..n]), ms[0], at[n], ms[n], parts[n], at[n + 1], ms[n + 1]);
    }
  }

  /** Any sequence of reads returns the bytes of the flat addresses passed, in order. */
  lemma {:induction false} ReadsAreOneLoad(chain: seq<Extent>, at: seq<nat>, parts: seq<seq<u8>>, m: Memory)
    requires |at| == |parts| + 1 && at[0] <= |Flatten(chain)|
    requires forall i | 0 <= i < |parts| :: Loaded(chain, at[i], parts[i], m, at[i + 1])
    ensures Loaded(chain, at[0], Concat(parts), m, at[|parts|])
  {
    if parts == [] {
      assert Flatten(chain)[at[0]..at[0]] == [];
    } else {
      hide Loaded;
      var n := |parts| - 1;
      ReadsAreOneLoad(chain, at[..n + 1], parts[..n], m);
      LoadedAppends(chain, at[0], Concat(parts[..n]), m, at[n], parts[n], at[n + 1]);
    }
  }

  /** When a reader's stretch is the same addresses as a writer's, its reads return exactly what was written,
      however the writes and the reads were cut and whatever the two descriptor lists are. */
  lemma ReadsReturnWrites(w: seq<Extent>, at: seq<nat>, written: seq<seq<u8>>, ms: seq<Memory>,
                          r: seq<Extent>, from: seq<nat>, read: seq<seq<u8>>)
    requires |at| == |ms| == |written| + 1 && |from| == |read| + 1 && DisjointExtents(w)
    requires at[0] <= |Flatten(w)| && from[0] <= |Flatten(r)|
    requires forall i | 0 <= i < |written| :: Stored(w, at[i], written[i], ms[i], at[i + 1], ms[i + 1])
    requires forall i | 0 <= i < |read| :: Loaded(r, from[i], read[i], ms[|written|], from[i + 1])
    requires at[0] <= at[|written|] <= |Flatten(w)| && from[0] <= from[|read|] <= |Flatten(r)|
    requires Flatten(w)[at[0]..at[|written|]] == Flatten(r)[from[0]..from[|read|]]
    ensures Concat(read) == Concat(written)
  {
    var m := ms[|written|];
    WritesAreOneStore(w, at, written, ms);
    ReadsAreOneLoad(r, from, read, m);
    DisjointMeansDistinct(w);
    var a := Flatten(w)[at[0]..at[|written|]];
    assert Distinct(a);
    LoadAfterStore(ms[0], a, Concat(written));
  }

  /** No address is in both sides of the chain. */
  ghost predicate SidesApart(r: seq<Extent>, w: seq<Extent>) {
    forall x | x in Flatten(w) :: x !in Flatten(r)
  }

  /** Within one chain, whose readable and writable descriptors share no address, writes leave what reads
      return alone. */
  lemma WritesLeaveReadsAlone(w: seq<Extent>, at: seq<nat>, written: seq<seq<u8>>, ms: seq<Memory>,
                              r: seq<Extent>, p: nat, data: seq<u8>, q: nat)
    requires |at| == |ms| == |written| + 1 && at[0] <= |Flatten(w)| && SidesApart(r, w)
    requires forall i | 0 <= i < |written| :: Stored(w, at[i], written[i], ms[i], at[i + 1], ms[i + 1])
    ensures Loaded(r, p, data, ms[0], q) <==> Loaded(r, p, data, ms[|written|], q)
  {
    WritesAreOneStore(w, at, written, ms);
    var a, m, m' := Flatten(w)[at[0]..at[|written|]], ms[0], ms[|written|];
    assert m'.Keys == m.Keys;
    assert forall x :: x in m' <==> x in m'.Keys;
    assert forall y | y in a :: y in Flatten(w);
    if p <= q <= |Flatten(r)| {
      forall i | p <= i < q
        ensures Flatten(r)[i] in m <==> Flatten(r)[i] in m'
        ensures Flatten(r)[i] in m ==> m'[Flatten(r)[i]] == m[Flatten(r)[i]]
      {
        var x := Flatten(r)[i];
        if x in m {
          StoreAt(m, a, Concat(written), x);
        }
      }
      SameLoads(m, m', Flatten(r)[p..q]);
    }
  }

  lemma SameLoads(m: Memory, m': Memory, a: seq<int>)
    requires forall i | 0 <= i < |a| :: (a[i] in m <==> a[i] in m') && (a[i] in m ==> m'[a[i]] == m[a[i]])
    ensures Mapped(m, a) <==> Mapped(m', a)
    ensures Mapped(m, a) ==> Load(m', a) == Load(m, a)
  {
  }

  // ----- Clones sharing one peak -----

  datatype CloneOp = Clone(of: nat) | Write(of: nat, buf: seq<u8>)

  /** The shared peak is the largest count over all the writers. */
  ghost predicate PeakIsLargest(ws: seq<DescriptorChainWriter>, peak: SharedCount)
    reads ws, peak
  {
    && (forall w | w in ws :: w.peak == peak && w.written <= peak.value)
    && (exists w :: w in ws && w.written == peak.value)
  }

  /** Distinct, valid writers over one chain. */
  ghost predicate Family(ws: seq<DescriptorChainWriter>, mem: GuestMemory, peak: SharedCount)
    reads ws, peak
  {
    && (forall i, j | 0 <= i < j < |ws| :: ws[i] != ws[j])
    && (forall w | w in ws :: w.mem == mem && w.peak == peak && w.Valid())
  }

  method CloneWriter(ws: seq<DescriptorChainWriter>, mem: GuestMemory, peak: SharedCount, of: nat)
    returns (clone: DescriptorChainWriter)
    requires Family(ws, mem, peak) && PeakIsLargest(ws, peak) && of < |ws|
    ensures fresh(clone) && Family(ws + [clone], mem, peak) && PeakIsLargest(ws + [clone], peak)
  {
    hide CursorValid, Position;
    assert ws[of] in ws;
    clone := new DescriptorChainWriter.CloneOf(ws[of]);
  }

  method WriteBy(ws: seq<DescriptorChainWriter>, mem: GuestMemory, peak: SharedCount, of: nat, buf: seq<u8>)
    requires Family(ws, mem, peak) && PeakIsLargest(ws, peak) && of < |ws|
    modifies ws[of], mem, peak
    ensures Family(ws, mem, peak) && PeakIsLargest(ws, peak)
  {
    hide CursorValid, Position, Stored, WellMapped, AllPositive, AccessError, AccessCount;
    ghost var top :| top in ws && top.written == peak.value;
    ghost var before := peak.value;
    var w := ws[of];
    assert w in ws;
    var _ := w.Write(buf);
    assert top != w ==> top.written == before;
    assert w.written <= peak.value && (peak.value == before || w.written == peak.value);
  }

  /** A new writer, cloned and written to in any order, by any of the clones: the peak all of them report is
      the largest count of any. */
  method RunClones(descriptors: seq<Descriptor>, mem: GuestMemory, ops: seq<CloneOp>)
    returns (ws: seq<DescriptorChainWriter>, peak: SharedCount)
    requires |Flatten(Side(descriptors, true))| <= U32_MAX
    modifies mem
    ensures ws != [] && Family(ws, mem, peak) && PeakIsLargest(ws, peak)
  {
    hide InOrder, Side;
    var first := new DescriptorChainWriter(descriptors, mem);
    ws, peak := [first], first.peak;
    assert first in ws;
    hide Family, PeakIsLargest;
    for k := 0 to |ops|
      invariant ws != [] && fresh(peak) && forall i | 0 <= i < |ws| :: fresh(ws[i])
      invariant Family(ws, mem, peak) && PeakIsLargest(ws, peak)
    {
      if ops[k].of < |ws| {
        if ops[k].Clone? {
          var clone := CloneWriter(ws, mem, peak, ops[k].of);
          ws := ws + [clone];
        } else {
          WriteBy(ws, mem, peak, ops[k].of, ops[k].buf);
        }
      }
    }
  }

  /** A buffer with room for 2^32 bytes: nothing is read although a byte is there. */
  method RoomOfTwoToThe32Stalls() returns (r: Result<nat, IoError>, position: nat, total: nat)
    ensures r == Ok(0) && position == 0 && total == 1
  {
    hide InOrder, Loaded, AccessError, AccessCount;
    var mem := new GuestMemory(map[0 := 7]);
    var descriptors := [Descriptor(0, 1, false)];
    OneReadable();
    var reader := new DescriptorChainReader(descriptors, mem);
    var buf := new u8[0x1_0000_0000];
    assert Room(0x1_0000_0000) == 0;
    r := reader.Read(buf, 0);
    position, total := 0, 1;
    assert position == Position(reader.cursor, reader.chain) && total == |Flatten(reader.chain)|;
  }

  lemma OneReadable()
    ensures Side([Descriptor(0, 1, false)], false) == [Extent(0, 1)]
    ensures Flatten([Extent(0, 1)]) == [0] && WellMapped(map[0 := 7], [Extent(0, 1)])
  {
    assert [Descriptor(0, 1, false)][..0] == [];
    assert [Extent(0, 1)][..0] == [];
  }
}
