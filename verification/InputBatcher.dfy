/** The event batcher of vhost-device-input: events wait in a list until a SYN_REPORT closes their batch.

    The ring is what the guest made available to one call, given by how each descriptor chain behaves. */
module InputBatcher {
  import opened Common

  const EV_SYN: u16 := 0
  const SYN_REPORT: u16 := 0

  datatype Event = Event(evType: u16, code: u16, value: u32)

  datatype Chain = Usable | WrongCount | Unwritable | UsedRingFails

  datatype InputError =
    | FetchFailed
    | UnexpectedDescriptorCount
    | WriteDescriptorFailed
    | WriteVringFailed
    | SendNotificationFailed

  predicate IsSync(e: Event) {
    e.evType == EV_SYN && e.code == SYN_REPORT
  }

  /** The last SYN_REPORT, and 0 when there is none; a SYN_REPORT at index 0 therefore counts as none. */
  function LastSync(list: seq<Event>): (i: nat)
    ensures i > 0 ==> i < |list| && IsSync(list[i])
    ensures forall j | i < j < |list| :: !IsSync(list[j])
  {
    if list == [] then 0
    else if IsSync(list[|list| - 1]) then |list| - 1
    else LastSync(list[..|list| - 1])
  }

  /** How many chains are usable before the first that is not. */
  function UsablePrefix(ring: seq<Chain>): (n: nat)
    ensures n <= |ring| && (forall i | 0 <= i < n :: ring[i] == Usable)
    ensures n < |ring| ==> ring[n] != Usable
  {
    if ring == [] || ring[0] != Usable then 0 else 1 + UsablePrefix(ring[1..])
  }

  /** `delivered` and `fetched` are the histories of the used ring and of the device. */
  datatype State = State(fetched: seq<Event>, delivered: seq<Event>, pending: seq<Event>)

  datatype Outcome = Nothing | Sent | Overrun | Broken

  function ChainError(c: Chain): (error: InputError)
    requires c != Usable
  {
    match c
    case WrongCount => UnexpectedDescriptorCount
    case Unwritable => WriteDescriptorFailed
    case UsedRingFails => WriteVringFailed
  }

  function BatchLength(s: State): (n: nat) {
    if LastSync(s.pending) == 0 then 0 else LastSync(s.pending) + 1
  }

  /** How far a call gets: the batch, the usable chains, whichever is shorter. */
  function SentCount(s: State, ring: seq<Chain>): (n: nat) {
    Min(BatchLength(s), UsablePrefix(ring))
  }

  function OutcomeOf(s: State, ring: seq<Chain>): (o: Outcome) {
    var k := SentCount(s, ring);
    if BatchLength(s) == 0 then Nothing
    else if k == BatchLength(s) then Sent
    else if k == |ring| then Overrun
    else Broken
  }

  /** A sent batch leaves the list; an overrun clears the whole list; a broken chain leaves the list as it
      was, with the events before it already delivered. */
  function Process(s: State, ring: seq<Chain>): (t: State) {
    var k := SentCount(s, ring);
    match OutcomeOf(s, ring)
    case Nothing => s
    case Sent => s.(delivered := s.delivered + s.pending[..k], pending := s.pending[k..])
    case Overrun => s.(delivered := s.delivered + s.pending[..k], pending := [])
    case Broken => s.(delivered := s.delivered + s.pending[..k])
  }

  function Fetch(s: State, events: seq<Event>): (t: State) {
    s.(fetched := s.fetched + events, pending := s.pending + events)
  }

  /** What one call does, event by event: it sends the first `k` waiting events over the first `k` chains. */
  ghost predicate CallDoes(s: State, ring: seq<Chain>, o: Outcome, t: State, k: nat) {
    && k <= |s.pending| && k <= |ring|
    && t.fetched == s.fetched
    && t.delivered == s.delivered + s.pending[..k]
    && (forall i | 0 <= i < k :: ring[i] == Usable)
    && match o
       case Nothing =>
         // No SYN_REPORT past index 0.
         k == 0 && t.pending == s.pending
         && forall j | 0 < j < |s.pending| :: !(s.pending[j].evType == 0 && s.pending[j].code == 0)
       case Sent =>
         // Everything up to the last SYN_REPORT.
         && k > 1 && s.pending[k - 1].evType == 0 && s.pending[k - 1].code == 0
         && (forall j | k <= j < |s.pending| :: !(s.pending[j].evType == 0 && s.pending[j].code == 0))
         && t.pending == s.pending[k..]
       case Overrun =>
         // The chains run out before the last SYN_REPORT, and the whole list is dropped.
         && k == |ring| && t.pending == []
         && exists j :: k <= j < |s.pending| && j > 0 && s.pending[j].evType == 0 && s.pending[j].code == 0
       case Broken =>
         // Chain `k` fails before the last SYN_REPORT, and the list stays.
         && k < |ring| && ring[k] != Usable && t.pending == s.pending
         && exists j :: k <= j < |s.pending| && j > 0 && s.pending[j].evType == 0 && s.pending[j].code == 0
  }

  lemma ProcessExactly(s: State, ring: seq<Chain>)
    ensures CallDoes(s, ring, OutcomeOf(s, ring), Process(s, ring), SentCount(s, ring))
  {
    hide LastSync, UsablePrefix;
    var last := LastSync(s.pending);
    if last > 0 {
      assert s.pending[last].evType == 0 && s.pending[last].code == 0;
    }
  }

  // ----- The stream laws -----

  /** Delivered events end at a batch boundary. */
  ghost predicate Framed(delivered: seq<Event>) {
    delivered == [] || IsSync(delivered[|delivered| - 1])
  }

  ghost predicate Conserved(s: State) {
    s.delivered + s.pending == s.fetched
  }

  ghost predicate NoSyncWaits(s: State) {
    forall j | 0 < j < |s.pending| :: !IsSync(s.pending[j])
  }

  /** A call keeps the stream whole exactly when it does not overrun and does not break off midway. */
  lemma ProcessConservesExactly(s: State, ring: seq<Chain>)
    requires Conserved(s)
    ensures Conserved(Process(s, ring)) <==>
            match OutcomeOf(s, ring)
            case Nothing => true
            case Sent => true
            case Overrun => false
            case Broken => SentCount(s, ring) == 0
  {
    var k, t := SentCount(s, ring), Process(s, ring);
    assert s.delivered + s.pending == s.delivered + s.pending[..k] + s.pending[k..];
    assert |s.fetched| == |s.delivered| + |s.pending|;
    match OutcomeOf(s, ring)
    case Nothing =>
    case Sent =>
    case Overrun =>
      assert |t.delivered + t.pending| == |s.delivered| + k;
    case Broken =>
      assert |t.delivered + t.pending| == |s.delivered| + k + |s.pending|;
  }

  /** What is delivered stays framed exactly when the last event a call got to is a SYN_REPORT, if any. */
  lemma ProcessFramesExactly(s: State, ring: seq<Chain>)
    requires Framed(s.delivered)
    ensures var k := SentCount(s, ring);
            && k <= |s.pending|
            && (Framed(Process(s, ring).delivered) <==> k == 0 || IsSync(s.pending[k - 1]))
    ensures OutcomeOf(s, ring) == Sent ==> Framed(Process(s, ring).delivered)
  {
    var k := SentCount(s, ring);
    if k > 0 {
      assert Process(s, ring).delivered == s.delivered + s.pending[..k];
    }
  }

  /** After a call that neither overruns nor breaks off, no closed batch is left waiting. */
  lemma ProcessLeavesNoBatch(s: State, ring: seq<Chain>)
    requires OutcomeOf(s, ring) in {Nothing, Sent}
    ensures NoSyncWaits(Process(s, ring))
  {
    var k := SentCount(s, ring);
    if OutcomeOf(s, ring) == Sent {
      forall j | 0 < j < |s.pending[k..]|
        ensures !IsSync(s.pending[k..][j])
      {
        assert s.pending[k..][j] == s.pending[k + j];
      }
    }
  }

  /** After such a call a SYN_REPORT waits exactly when the list had one at index 0 and none further on. */
  lemma SyncWaitsExactly(s: State, ring: seq<Chain>)
    requires OutcomeOf(s, ring) in {Nothing, Sent}
    ensures (exists j :: 0 <= j < |Process(s, ring).pending| && IsSync(Process(s, ring).pending[j]))
            <==> s.pending != [] && IsSync(s.pending[0]) && NoSyncWaits(s)
  {
    var k, t := SentCount(s, ring), Process(s, ring);
    if OutcomeOf(s, ring) == Sent {
      assert IsSync(s.pending[k - 1]);
      forall j | 0 <= j < |t.pending|
        ensures !IsSync(t.pending[j])
      {
        assert t.pending[j] == s.pending[k + j];
      }
    } else if s.pending != [] && IsSync(s.pending[0]) {
      assert IsSync(t.pending[0]);
    }
  }

  /** A lone SYN_REPORT is not sent although the ring has room. */
  lemma SyncAtZeroWaits()
    ensures var sync := Event(EV_SYN, SYN_REPORT, 0);
            var s := Run([Call([sync], [Usable])]);
            s.pending == [sync] && s.delivered == []
  {
    var sync := Event(EV_SYN, SYN_REPORT, 0);
    var calls := [Call([sync], [Usable])];
    assert Run(calls[..0]) == State([], [], []);
    var f := Fetch(State([], [], []), calls[0].events);
    assert f == State([sync], [], [sync]);
    assert BatchLength(f) == 0;
  }

  /** One call of `process_queue`: the fetched events and the ring it finds. */
  datatype Call = Call(events: seq<Event>, ring: seq<Chain>)

  function Run(calls: seq<Call>): (end: State) {
    if calls == [] then State([], [], [])
    else
      var last := calls[|calls| - 1];
      Process(Fetch(Run(calls[..|calls| - 1]), last.events), last.ring)
  }

  ghost predicate OutcomesIn(calls: seq<Call>, allowed: set<Outcome>) {
    calls != [] ==>
      var last := calls[|calls| - 1];
      && OutcomesIn(calls[..|calls| - 1], allowed)
      && OutcomeOf(Fetch(Run(calls[..|calls| - 1]), last.events), last.ring) in allowed
  }

  /** Runs without errors and overruns: delivered then pending is everything fetched, delivered ends at a
      batch boundary, and no closed batch is left waiting. */
  lemma {:induction false} StreamIsWhole(calls: seq<Call>)
    requires OutcomesIn(calls, {Nothing, Sent})
    ensures Conserved(Run(calls)) && Framed(Run(calls).delivered) && NoSyncWaits(Run(calls))
  {
    if calls == [] {
    } else {
      hide Process, OutcomeOf, Conserved, NoSyncWaits;
      var n, last := |calls| - 1, calls[|calls| - 1];
      StreamIsWhole(calls[..n]);
      var s := Run(calls[..n]);
      var f := Fetch(s, last.events);
      FetchConserves(s, last.events);
      ProcessConservesExactly(f, last.ring);
      ProcessFramesExactly(f, last.ring);
      ProcessLeavesNoBatch(f, last.ring);
      NothingKeepsFrame(f, last.ring);
    }
  }

  /** An overrun is no error, yet it can cut a batch: the closing SYN_REPORT is dropped with the list. */
  lemma OverrunCutsBatch()
    ensures var key, sync := Event(1, 30, 1), Event(EV_SYN, SYN_REPORT, 0);
            var calls := [Call([key, sync], [Usable])];
            && OutcomesIn(calls, {Nothing, Sent, Overrun})
            && Run(calls).delivered == [key]
            && !Framed(Run(calls).delivered)
  {
    var key, sync := Event(1, 30, 1), Event(EV_SYN, SYN_REPORT, 0);
    var calls := [Call([key, sync], [Usable])];
    assert Run(calls[..0]) == State([], [], []);
    var f := Fetch(State([], [], []), calls[0].events);
    assert f == State([key, sync], [], [key, sync]);
    assert BatchLength(f) == 2 && UsablePrefix([Usable]) == 1;
    assert Process(f, [Usable]).delivered == [key];
  }

  lemma FetchConserves(s: State, events: seq<Event>)
    requires Conserved(s)
    ensures Conserved(Fetch(s, events))
  {
    assert s.delivered + (s.pending + events) == (s.delivered + s.pending) + events;
  }

  lemma NothingKeepsFrame(s: State, ring: seq<Chain>)
    ensures OutcomeOf(s, ring) == Nothing ==> Process(s, ring) == s
  {
  }

  /** `idx` places each delivered event in what was fetched, in order and without repetition, before what is
      still pending. */
  ghost predicate Places(s: State, idx: seq<nat>) {
    && |idx| == |s.delivered|
    && |s.pending| <= |s.fetched|
    && s.pending == s.fetched[|s.fetched| - |s.pending|..]
    && (forall i | 0 <= i < |idx| :: idx[i] < |s.fetched| - |s.pending| && s.fetched[idx[i]] == s.delivered[i])
    && (forall i, j | 0 <= i < j < |idx| :: idx[i] < idx[j])
  }

  /** `idx` picks the delivered events out of what was fetched, in order and without repetition. */
  ghost predicate Picks(s: State, idx: seq<nat>) {
    && |idx| == |s.delivered|
    && (forall i | 0 <= i < |idx| :: idx[i] < |s.fetched| && s.fetched[idx[i]] == s.delivered[i])
    && (forall i, j | 0 <= i < j < |idx| :: idx[i] < idx[j])
  }

  lemma {:induction false} RunKeepsPlaces(calls: seq<Call>) returns (idx: seq<nat>)
    requires OutcomesIn(calls, {Nothing, Sent, Overrun})
    ensures Places(Run(calls), idx)
  {
    idx := [];
    if calls == [] {
    } else {
      var n, last := |calls| - 1, calls[|calls| - 1];
      idx := RunKeepsPlaces(calls[..n]);
      var f := Fetch(Run(calls[..n]), last.events);
      FetchKeepsPlaces(Run(calls[..n]), last.events, idx);
      idx := ProcessKeepsPlaces(f, last.ring, idx);
    }
  }

  /** Runs up to and with the first error, which ends the event loop, overruns included: delivered is a
      subsequence of what was fetched. */
  lemma DeliveredIsSubsequence(calls: seq<Call>) returns (idx: seq<nat>)
    requires calls == [] || OutcomesIn(calls[..|calls| - 1], {Nothing, Sent, Overrun})
    ensures Picks(Run(calls), idx)
  {
    idx := [];
    if calls == [] {
    } else {
      var n, last := |calls| - 1, calls[|calls| - 1];
      idx := RunKeepsPlaces(calls[..n]);
      var f := Fetch(Run(calls[..n]), last.events);
      FetchKeepsPlaces(Run(calls[..n]), last.events, idx);
      idx := ProcessPicks(f, last.ring, idx);
    }
  }

  lemma ProcessPicks(s: State, ring: seq<Chain>, idx: seq<nat>) returns (idx': seq<nat>)
    requires Places(s, idx)
    ensures Picks(Process(s, ring), idx')
  {
    hide LastSync, UsablePrefix;
    var k := SentCount(s, ring);
    assert k <= |s.pending|;
    idx' := TakingKeepsPlaces(s, k, idx);
    assert Process(s, ring).delivered == s.delivered + s.pending[..k];
  }

  // What would happen if the loop went on after an error.

  /** A call that breaks off after sending leaves what it sent at the head of the list. */
  lemma BrokenCallLeavesSent(s: State, ring: seq<Chain>)
    requires OutcomeOf(s, ring) == Broken
    ensures var k, t := SentCount(s, ring), Process(s, ring);
            t.pending == s.pending && t.delivered == s.delivered + t.pending[..k]
  {
  }

  /** So the next call on that list would send an event again exactly when both calls send at all. */
  lemma NextCallRepeatsExactly(s: State, ring: seq<Chain>, events: seq<Event>, next: seq<Chain>)
    requires OutcomeOf(s, ring) == Broken
    ensures var k, f := SentCount(s, ring), Fetch(Process(s, ring), events);
            var m := SentCount(f, next);
            && Process(f, next).delivered == s.delivered + s.pending[..k] + f.pending[..m]
            && Min(k, m) <= |s.pending| && s.pending[..Min(k, m)] == f.pending[..Min(k, m)]
            && (Min(k, m) > 0 <==> ring[0] == Usable && next != [] && next[0] == Usable)
  {
    hide IsSync;
    var f := Fetch(Process(s, ring), events);
    BrokenCallLeavesSent(s, ring);
    FetchKeepsBatch(s, events);
    assert s.pending[..Min(SentCount(s, ring), SentCount(f, next))] == f.pending[..Min(SentCount(s, ring), SentCount(f, next))];
  }

  /** More events never undo a closed batch. */
  lemma FetchKeepsBatch(s: State, events: seq<Event>)
    requires BatchLength(s) > 0
    ensures BatchLength(Fetch(s, events)) >= BatchLength(s)
  {
    var i := LastSync(s.pending);
    assert (s.pending + events)[i] == s.pending[i];
  }

  lemma FetchKeepsPlaces(s: State, events: seq<Event>, idx: seq<nat>)
    requires Places(s, idx)
    ensures Places(Fetch(s, events), idx)
  {
    var p := |s.fetched| - |s.pending|;
    assert (s.fetched + events)[p..] == s.fetched[p..] + events;
  }

  lemma ProcessKeepsPlaces(s: State, ring: seq<Chain>, idx: seq<nat>) returns (idx': seq<nat>)
    requires Places(s, idx) && OutcomeOf(s, ring) != Broken
    ensures Places(Process(s, ring), idx')
  {
    var k, t := SentCount(s, ring), Process(s, ring);
    assert k <= |s.pending|;
    idx' := TakingKeepsPlaces(s, k, idx);
    assert t.delivered == s.delivered + s.pending[..k];
    if OutcomeOf(s, ring) == Overrun {
      assert t.fetched[|t.fetched|..] == [];
    }
  }

  lemma TakingKeepsPlaces(s: State, k: nat, idx: seq<nat>) returns (idx': seq<nat>)
    requires Places(s, idx) && k <= |s.pending|
    ensures Places(State(s.fetched, s.delivered + s.pending[..k], s.pending[k..]), idx')
  {
    var p := |s.fetched| - |s.pending|;
    idx' := idx + seq(k, i => p + i);
    assert s.pending[k..] == s.fetched[p + k..];
    forall i | 0 <= i < k
      ensures s.fetched[idx'[|idx| + i]] == s.pending[..k][i]
    {
      assert s.fetched[p..][i] == s.fetched[p + i];
    }
  }

  // ----- The backend -----

  class InputBackend {
    var evList: seq<Event>
    ghost var fetched: seq<Event>
    ghost var delivered: seq<Event>

    ghost function Model(): (m: State)
      reads this
    {
      State(fetched, delivered, evList)
    }

    constructor ()
      ensures Model() == State([], [], [])
    {
      evList, fetched, delivered := [], [], [];
    }

    method LastSyncIndex() returns (index: nat)
      ensures index == LastSync(evList)
    {
      var i := |evList|;
      assert evList[..i] == evList;
      while i > 0
        invariant 0 <= i <= |evList|
        invariant LastSync(evList) == LastSync(evList[..i])
      {
        i := i - 1;
        assert evList[..i + 1][..i] == evList[..i];
        if IsSync(evList[i]) {
          return i;
        }
      }
      index := 0;
    }

    /** Events up to the last SYN_REPORT go out one descriptor chain each. */
    method ProcessEvent(ring: seq<Chain>, signalSucceeds: bool) returns (r: Result<bool, InputError>)
      modifies this`evList, this`delivered
      ensures Model() == Process(old(Model()), ring)
      ensures match OutcomeOf(old(Model()), ring)
              case Nothing => r == Ok(true)
              case Sent => r == Ok(true)
              case Overrun => r == if signalSucceeds then Ok(false) else Err(SendNotificationFailed)
              case Broken => r == Err(ChainError(ring[SentCount(old(Model()), ring)]))
      ensures var k := |delivered| - |old(delivered)|;
              && 0 <= k
              && (r.Ok? && r.value ==>
                    CallDoes(old(Model()), ring, if k == 0 then Nothing else Sent, Model(), k))
              && (r == Ok(false) || r == Err(SendNotificationFailed) ==>
                    CallDoes(old(Model()), ring, Overrun, Model(), k) && evList == [])
              && (r.Err? && r.error != SendNotificationFailed ==>
                    && CallDoes(old(Model()), ring, Broken, Model(), k)
                    && match ring[k]
                       case WrongCount => r.error == UnexpectedDescriptorCount
                       case Unwritable => r.error == WriteDescriptorFailed
                       case UsedRingFails => r.error == WriteVringFailed
                       case Usable => false)
    {
      ProcessExactly(Model(), ring);
      hide LastSync, UsablePrefix, IsSync, CallDoes;
      var last := LastSyncIndex();
      if last == 0 {
        return Ok(true);
      }
      ghost var s := Model();
      var index := 0;
      while index <= last
        invariant 0 <= index <= last + 1 && index <= UsablePrefix(ring)
        invariant evList == s.pending && fetched == s.fetched
        invariant delivered == s.delivered + s.pending[..index]
      {
        var event := evList[index];
        if index == |ring| {
          evList := [];
          if !signalSucceeds {
            return Err(SendNotificationFailed);
          }
          return Ok(false);
        }
        if ring[index] == WrongCount {
          return Err(UnexpectedDescriptorCount);
        }
        if ring[index] == Unwritable {
          return Err(WriteDescriptorFailed);
        }
        if ring[index] == UsedRingFails {
          return Err(WriteVringFailed);
        }
        delivered := delivered + [event];
        index := index + 1;
      }
      evList := evList[last + 1..];
      r := Ok(true);
    }

    /** An overrun is not an error here: the answer is still true. */
    method ProcessQueue(events: Option<seq<Event>>, ring: seq<Chain>, overrunSignalSucceeds: bool, signalSucceeds: bool)
      returns (r: Result<bool, InputError>)
      modifies this
      ensures events.None? ==> r == Err(FetchFailed) && Model() == old(Model())
      ensures events.Some? ==> Model() == Process(Fetch(old(Model()), events.value), ring)
      ensures events.Some? ==>
                var o := OutcomeOf(Fetch(old(Model()), events.value), ring);
                r == Ok(true) <==> o != Broken && (o == Overrun ==> overrunSignalSucceeds) && signalSucceeds
      ensures r != Ok(false)
    {
      if events.None? {
        return Err(FetchFailed);
      }
      var es := events.value;
      ghost var before := evList;
      for i := 0 to |es|
        invariant evList == before + es[..i]
        invariant fetched == old(fetched) + es[..i] && delivered == old(delivered)
      {
        evList := evList + [es[i]];
        fetched := fetched + [es[i]];
      }
      assert es[..|es|] == es;
      var sent := ProcessEvent(ring, overrunSignalSucceeds);
      if sent.Err? {
        return Err(sent.error);
      }
      if !signalSucceeds {
        return Err(SendNotificationFailed);
      }
      r := Ok(true);
    }
  }
}
