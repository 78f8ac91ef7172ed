/** The bandwidth limiter of vhost-device-rng.

    Times are nanoseconds of a clock; what the clock shows, how far a sleep overshoots and how many bytes
    the random source yields are part of each request. */
module RngLimiter {
  import opened Common

  const NS_PER_MS := 1_000_000
  const MAX_PERIOD_MS := 65536

  datatype RngError =
    | UnexpectedDescriptorCount
    | UnexpectedReadDescriptor
    | UnexpectedTimerValue
    | UnexpectedRngSourceAccessError
    | UnexpectedRngSourceError

  datatype Timer = Timer(periodMs: nat, periodStart: nat, maxBytes: nat, quota: nat)

  /** `oversleep` is how much longer than asked a sleep lasts; `poisoned` says whether a panic poisoned the
      lock of the source, `source` what the source could yield. */
  datatype Request = Request(
    descriptors: nat,
    len: u32,
    writeOnly: bool,
    now: nat,
    oversleep: nat,
    poisoned: bool,
    source: Option<nat>)

  ghost predicate TimerValid(t: Timer) {
    0 < t.periodMs <= MAX_PERIOD_MS && t.quota <= t.maxBytes
  }

  ghost function Period(t: Timer): (p: nat)
    ensures t.periodMs > 0 ==> p > 0
  {
    t.periodMs * NS_PER_MS
  }

  /** A new period starts when one has passed, or, with the quota used up, after sleeping the rest of it. */
  function Replenished(t: Timer, now: nat, oversleep: nat): (next: Timer)
    requires 0 < t.periodMs <= MAX_PERIOD_MS && t.periodStart <= now
  {
    var elapsed := (now - t.periodStart) / NS_PER_MS;
    if elapsed >= t.periodMs then t.(periodStart := now, quota := t.maxBytes)
    else if t.quota == 0 then
      t.(periodStart := now + (t.periodMs - elapsed) * NS_PER_MS + oversleep, quota := t.maxBytes)
    else t
  }

  /** The quota is fresh exactly when a whole period has passed by the new start; no other time is lost. */
  lemma ReplenishedExactly(t: Timer, now: nat, oversleep: nat)
    requires TimerValid(t) && t.periodStart <= now
    ensures var next := Replenished(t, now, oversleep);
            && TimerValid(next)
            && (next == t <==> next.periodStart == t.periodStart)
            && (next == t <==> now - t.periodStart < Period(t) && t.quota > 0)
            && (next != t ==> next.quota == t.maxBytes && next.periodStart >= t.periodStart + Period(t))
            && (now - t.periodStart >= Period(t) ==> next.periodStart == now)
            && (next != t && oversleep == 0 ==> next.periodStart < Max(now, t.periodStart + Period(t)) + NS_PER_MS)
  {
    var elapsed := (now - t.periodStart) / NS_PER_MS;
    assert elapsed * NS_PER_MS <= now - t.periodStart < (elapsed + 1) * NS_PER_MS;
  }

  /** How one request ends: the bytes delivered or the error, and the timer left. */
  function Serve(t: Timer, q: Request): (outcome: (Result<nat, RngError>, Timer))
    requires 0 < t.periodMs <= MAX_PERIOD_MS
  {
    if q.descriptors != 1 then (Err(UnexpectedDescriptorCount), t)
    else if !q.writeOnly then (Err(UnexpectedReadDescriptor), t)
    else if q.now < t.periodStart then (Err(UnexpectedTimerValue), t)
    else
      var next := Replenished(t, q.now, q.oversleep);
      if q.poisoned then (Err(UnexpectedRngSourceAccessError), next)
      else if q.source.None? then (Err(UnexpectedRngSourceError), next)
      else
        var len := Min(Min(next.quota, q.len), q.source.value);
        (Ok(len), next.(quota := next.quota - len))
  }

  /** What a request at `now` may draw on: a full quota when a whole period has passed or none is left. */
  ghost predicate Renewed(t: Timer, now: nat, quota: nat) {
    quota == if now - t.periodStart >= t.periodMs * 1_000_000 || t.quota == 0 then t.maxBytes else t.quota
  }

  /** The request is served with `len` bytes: the least of the quota it may draw on, of what it asks for and of
      what the source yields. They are charged. */
  ghost predicate Served(t: Timer, q: Request, len: nat, next: Timer) {
    && q.descriptors == 1 && q.writeOnly && t.periodStart <= q.now && !q.poisoned && q.source.Some?
    && Renewed(t, q.now, next.quota + len)
    && len <= next.quota + len && len <= q.len && len <= q.source.value
    && (next.quota == 0 || len == q.len || len == q.source.value)
    && next.periodMs == t.periodMs && next.maxBytes == t.maxBytes
  }

  /** The error names what is wrong with the request, or with the clock; the order of the checks decides. */
  ghost predicate Refused(t: Timer, q: Request, e: RngError) {
    match e
    case UnexpectedDescriptorCount => q.descriptors != 1
    case UnexpectedReadDescriptor => q.descriptors == 1 && !q.writeOnly
    case UnexpectedTimerValue => q.descriptors == 1 && q.writeOnly && q.now < t.periodStart
    case UnexpectedRngSourceAccessError => q.descriptors == 1 && q.writeOnly && t.periodStart <= q.now && q.poisoned
    case UnexpectedRngSourceError =>
      q.descriptors == 1 && q.writeOnly && t.periodStart <= q.now && !q.poisoned && q.source.None?
  }

  /** Every request is served or refused, for exactly these reasons. */
  lemma ServeExactly(t: Timer, q: Request)
    requires TimerValid(t)
    ensures var (r, next) := Serve(t, q);
            match r
            case Ok(len) => Served(t, q, len, next)
            case Err(e) => Refused(t, q, e)
  {
    if t.periodStart <= q.now {
      ReplenishedExactly(t, q.now, q.oversleep);
    }
  }

  /** A batch, up to its first error: the used lengths, and the error if any. */
  function ServeAll(t: Timer, qs: seq<Request>): (outcome: (seq<nat>, Option<RngError>, Timer))
    requires 0 < t.periodMs <= MAX_PERIOD_MS
    decreases |qs|
  {
    if qs == [] then ([], None, t)
    else
      var (len, next) := Serve(t, qs[0]);
      if len.Err? then ([], Some(len.error), next)
      else
        var (used, error, last) := ServeAll(next, qs[1..]);
        ([len.value] + used, error, last)
  }

  // ----- What a run may deliver -----

  /** One full quota for each whole period in `elapsed`, and one more. */
  ghost function Budget(maxBytes: nat, period: nat, elapsed: nat): (bytes: nat)
    requires period > 0
  {
    maxBytes * (1 + elapsed / period)
  }

  /** `delivered` bytes since `t0`, plus what is left of the quota, fit into the budget of the time from `t0`
      to the start of the current period. */
  ghost predicate Limited(t: Timer, t0: nat, delivered: nat) {
    && TimerValid(t)
    && t0 <= t.periodStart
    && delivered + t.quota <= Budget(t.maxBytes, Period(t), t.periodStart - t0)
  }

  lemma BudgetStartsAtQuota(maxBytes: nat, period: nat)
    requires period > 0
    ensures Budget(maxBytes, period, 0) == maxBytes
  {
  }

  /** A later period starts at least one whole period further on. */
  lemma OneMorePeriod(maxBytes: nat, period: nat, from: nat, to: nat)
    requires period > 0 && from + period <= to
    ensures Budget(maxBytes, period, from) + maxBytes <= Budget(maxBytes, period, to)
  {
    QuotientGrows(from, to, period);
    MulMonotone(2 + from / period, 1 + to / period, maxBytes);
    assert maxBytes * (2 + from / period) == maxBytes * (1 + from / period) + maxBytes;
  }

  lemma BudgetMonotone(maxBytes: nat, period: nat, from: nat, to: nat)
    requires period > 0 && from <= to
    ensures Budget(maxBytes, period, from) <= Budget(maxBytes, period, to)
  {
    DivMonotone(from, to, period);
    MulMonotone(1 + from / period, 1 + to / period, maxBytes);
  }

  /** The shares of `n` backends have no more budget than the whole. */
  lemma SharesOfBudget(share: nat, n: nat, total: nat, period: nat, elapsed: nat)
    requires period > 0 && n * share <= total
    ensures n * Budget(share, period, elapsed) <= Budget(total, period, elapsed)
  {
    var windows := 1 + elapsed / period;
    assert n * (share * windows) == windows * (n * share);
    MulMonotone(n * share, total, windows);
  }

  lemma QuotientGrows(from: nat, to: nat, period: nat)
    requires period > 0 && from + period <= to
    ensures from / period + 1 <= to / period
  {
    var q, p := from / period, to / period;
    assert from == q * period + from % period && to == p * period + to % period;
    MulMonotone(p, q, period);
  }

  lemma DivMonotone(a: nat, b: nat, d: nat)
    requires d > 0 && a <= b
    ensures a / d <= b / d
  {
    var q, p := a / d, b / d;
    assert a == q * d + a % d && b == p * d + b % d;
    MulMonotone(p + 1, q, d);
  }

  /** A reset of the quota keeps the limit when a whole period has passed. */
  lemma ResetKeepsLimit(t: Timer, t0: nat, delivered: nat, start: nat)
    requires Limited(t, t0, delivered) && t.periodStart + Period(t) <= start
    ensures Limited(t.(periodStart := start, quota := t.maxBytes), t0, delivered)
  {
    hide Budget;
    OneMorePeriod(t.maxBytes, Period(t), t.periodStart - t0, start - t0);
  }

  /** What has been delivered never exceeds the budget of the time passed. */
  lemma LimitAt(t: Timer, t0: nat, delivered: nat, time: nat)
    requires Limited(t, t0, delivered) && t.periodStart <= time
    ensures delivered <= Budget(t.maxBytes, Period(t), time - t0)
  {
    hide Budget;
    BudgetMonotone(t.maxBytes, Period(t), t.periodStart - t0, time - t0);
  }

  /** A delivery of `len` bytes at time `at`. */
  datatype Delivery = Delivery(at: nat, len: nat)

  ghost function DeliveredBy(log: seq<Delivery>, time: nat): (bytes: nat) {
    if log == [] then 0
    else
      var last := log[|log| - 1];
      DeliveredBy(log[..|log| - 1], time) + if last.at <= time then last.len else 0
  }

  ghost function Total(log: seq<Delivery>): (bytes: nat) {
    if log == [] then 0 else Total(log[..|log| - 1]) + log[|log| - 1].len
  }

  /** At every time, what was delivered by then is within the budget of the time passed by then. */
  ghost predicate WithinBudget(log: seq<Delivery>, maxBytes: nat, period: nat, t0: nat)
    requires period > 0
  {
    && (forall time: nat :: DeliveredBy(log, time) <= Total(log))
    && (forall time: nat | t0 <= time :: DeliveredBy(log, time) <= Budget(maxBytes, period, time - t0))
    && (forall time: nat | time < t0 :: DeliveredBy(log, time) == 0)
  }

  lemma DeliveryKeepsBudget(t: Timer, t0: nat, log: seq<Delivery>, d: Delivery)
    requires TimerValid(t) && WithinBudget(log, t.maxBytes, Period(t), t0)
    requires Limited(t, t0, Total(log) + d.len) && t.periodStart <= d.at
    ensures Total(log + [d]) == Total(log) + d.len
    ensures WithinBudget(log + [d], t.maxBytes, Period(t), t0)
  {
    hide Budget;
    assert (log + [d])[..|log|] == log;
    forall time: nat
      ensures DeliveredBy(log + [d], time) <= Total(log + [d])
      ensures t0 <= time ==> DeliveredBy(log + [d], time) <= Budget(t.maxBytes, Period(t), time - t0)
      ensures time < t0 ==> DeliveredBy(log + [d], time) == 0
    {
      assert DeliveredBy(log + [d], time) == DeliveredBy(log, time) + if d.at <= time then d.len else 0;
      if d.at <= time {
        LimitAt(t, t0, Total(log) + d.len, time);
      }
    }
  }

  // ----- The backend -----

  class RngBackend {
    var timer: Timer
    ghost const created: nat
    ghost var log: seq<Delivery>

    ghost predicate Valid()
      reads this
    {
      && Limited(timer, created, Total(log))
      && WithinBudget(log, timer.maxBytes, Period(timer), created)
    }

    constructor (periodMs: nat, maxBytes: nat, now: nat)
      requires 0 < periodMs <= MAX_PERIOD_MS
      ensures Valid() && created == now && log == []
      ensures timer == Timer(periodMs, now, maxBytes, maxBytes)
    {
      timer := Timer(periodMs, now, maxBytes, maxBytes);
      created, log := now, [];
      new;
      BudgetStartsAtQuota(maxBytes, Period(timer));
    }

    /** Starting a new period when one has passed, or sleeping for it when the quota is used up. `at` is the
        time afterwards. */
    method Replenish(now: nat, oversleep: nat) returns (r: Result<(), RngError>, ghost at: nat)
      requires Valid()
      modifies this`timer
      ensures Valid()
      ensures r == if now < old(timer.periodStart) then Err(UnexpectedTimerValue) else Ok(())
      ensures timer == if r.Err? then old(timer) else Replenished(old(timer), now, oversleep)
      ensures now <= at && (r.Ok? ==> timer.periodStart <= at)
      ensures r.Ok? && old(timer.quota) == 0 ==> at >= old(timer.periodStart) + old(Period(timer))
    {
      hide Budget;
      at := now;
      if now < timer.periodStart {
        return Err(UnexpectedTimerValue), at;
      }
      ReplenishedExactly(timer, now, oversleep);
      var elapsed := (now - timer.periodStart) / NS_PER_MS;
      if elapsed >= timer.periodMs {
        ResetKeepsLimit(timer, created, Total(log), now);
        timer := timer.(periodStart := now, quota := timer.maxBytes);
      } else if timer.quota == 0 {
        var toSleep: u64 := timer.periodMs - elapsed;
        var woken := now + toSleep * NS_PER_MS + oversleep;
        at := woken;
        ResetKeepsLimit(timer, created, Total(log), woken);
        timer := timer.(periodStart := woken, quota := timer.maxBytes);
      }
      r := Ok(());
    }

    /** One request: at most what is left of the quota is read from the source, and charged. */
    method ProcessRequest(request: Request) returns (r: Result<nat, RngError>)
      requires Valid()
      modifies this`timer, this`log
      ensures Valid()
      ensures (r, timer) == Serve(old(timer), request)
      ensures timer.periodMs == old(timer.periodMs) && timer.maxBytes == old(timer.maxBytes)
      ensures r.Ok? <==> request.descriptors == 1 && request.writeOnly && old(timer.periodStart) <= request.now
                         && !request.poisoned && request.source.Some?
      ensures r.Ok? ==>
                var quota := timer.quota + r.value;
                && quota == (if request.now - old(timer.periodStart) >= old(timer.periodMs) * 1_000_000
                                || old(timer.quota) == 0
                             then old(timer.maxBytes) else old(timer.quota))
                && r.value <= quota && r.value <= request.len && r.value <= request.source.value
                && (r.value == quota || r.value == request.len || r.value == request.source.value)
      ensures r.Err? ==> Refused(old(timer), request, r.error)
      ensures r.Err? ==> log == old(log)
      ensures r.Ok? ==> exists at: nat :: request.now <= at && log == old(log) + [Delivery(at, r.value)]
    {
      ServeExactly(timer, request);
      hide Budget, Total, WithinBudget;
      if request.descriptors != 1 {
        return Err(UnexpectedDescriptorCount);
      }
      if !request.writeOnly {
        return Err(UnexpectedReadDescriptor);
      }
      var replenished, at := Replenish(request.now, request.oversleep);
      if replenished.Err? {
        return Err(replenished.error);
      }
      var toRead := if timer.quota < request.len then timer.quota else request.len;
      if request.poisoned {
        return Err(UnexpectedRngSourceAccessError);
      }
      if request.source.None? {
        return Err(UnexpectedRngSourceError);
      }
      var len := Min(toRead, request.source.value);
      timer := timer.(quota := timer.quota - len);
      DeliveryKeepsBudget(timer, created, log, Delivery(at, len));
      log := log + [Delivery(at, len)];
      r := Ok(len);
    }

    /** A batch stops at the first error. Validity is the bound over the whole life of the backend. */
    method ProcessRequests(requests: seq<Request>)
      returns (r: Result<bool, RngError>, used: seq<nat>, ghost timers: seq<Timer>)
      requires Valid()
      modifies this`timer, this`log
      ensures Valid()
      ensures (used, if r.Err? then Some(r.error) else None, timer) == ServeAll(old(timer), requests)
      ensures r != Ok(false)
      ensures ServedInTurn(requests, used, if r.Err? then Some(r.error) else None, timers)
      ensures timers[0] == old(timer)
      ensures |log| == |old(log)| + |used| && log[..|old(log)|] == old(log)
      ensures forall k | 0 <= k < |used| :: log[|old(log)| + k].len == used[k]
    {
      assert 0 < timer.periodMs <= MAX_PERIOD_MS;
      ghost var first := timer;
      hide Limited, WithinBudget, Serve, Served, Refused;
      timers := ServeAllExactly(first, requests);
      used := [];
      assert requests[0..] == requests;
      assert [] + ServeAll(timer, requests).0 == ServeAll(timer, requests).0;
      for k := 0 to |requests|
        invariant Valid() && timer.periodMs == old(timer.periodMs) && timer.maxBytes == old(timer.maxBytes)
        invariant |used| == k && |log| == |old(log)| + k && log[..|old(log)|] == old(log)
        invariant forall i | 0 <= i < k :: log[|old(log)| + i].len == used[i]
        invariant var (rest, error, last) := ServeAll(timer, requests[k..]);
                  ServeAll(old(timer), requests) == (used + rest, error, last)
      {
        assert requests[k..][0] == requests[k] && requests[k..][1..] == requests[k + 1..];
        var len := ProcessRequest(requests[k]);
        if len.Err? {
          assert used + [] == used;
          return Err(len.error), used, timers;
        }
        ghost var (rest, error, last) := ServeAll(timer, requests[k + 1..]);
        assert used + ([len.value] + rest) == used + [len.value] + rest;
        used := used + [len.value];
      }
      assert used + [] == used;
      r := Ok(true);
    }
  }

  /** `timers` are the states between the requests: each request up to the first error is served in turn, and
      that error is what is wrong with the next one. */
  ghost predicate ServedInTurn(qs: seq<Request>, used: seq<nat>, error: Option<RngError>, timers: seq<Timer>) {
    && |timers| == |used| + 1 && |used| <= |qs|
    && (forall k | 0 <= k < |used| :: Served(timers[k], qs[k], used[k], timers[k + 1]))
    && (error == None ==> |used| == |qs|)
    && (error.Some? ==> |used| < |qs| && Refused(timers[|used|], qs[|used|], error.value))
  }

  lemma {:induction false} ServeAllExactly(t: Timer, qs: seq<Request>) returns (timers: seq<Timer>)
    requires TimerValid(t)
    ensures ServedInTurn(qs, ServeAll(t, qs).0, ServeAll(t, qs).1, timers) && timers[0] == t
    decreases |qs|
  {
    timers := [t];
    if qs == [] {
    } else {
      ServeExactly(t, qs[0]);
      if Serve(t, qs[0]).0.Ok? {
        var rest := ServeAllExactly(Serve(t, qs[0]).1, qs[1..]);
        hide Serve, Served, Refused;
        var used := ServeAll(Serve(t, qs[0]).1, qs[1..]).0;
        var len := Serve(t, qs[0]).0.value;
        timers := [t] + rest;
        forall k | 0 <= k < |used| + 1
          ensures Served(timers[k], qs[k], ([len] + used)[k], timers[k + 1])
        {
          if k > 0 {
            assert qs[1..][k - 1] == qs[k];
          }
        }
      }
    }
  }

  /** What was delivered is never more than asked for, nor than what a period allows. */
  lemma {:induction false} UsedWithinAsked(t: Timer, qs: seq<Request>)
    requires TimerValid(t)
    ensures var used := ServeAll(t, qs).0;
            |used| <= |qs| && forall k | 0 <= k < |used| :: used[k] <= qs[k].len && used[k] <= t.maxBytes
    decreases |qs|
  {
    if qs == [] || Serve(t, qs[0]).0.Err? {
    } else {
      UsedWithinAsked(Serve(t, qs[0]).1, qs[1..]);
    }
  }

  // ----- Splitting the configured bandwidth -----

  datatype ConfigError = InvalidPeriodInput | InvalidSocketCount

  datatype Config = Config(periodMs: nat, maxBytes: nat, count: nat)

  /** Accepted exactly for a period in range and at least one socket; the shares never add up to more than
      the configured total. */
  function TryFrom(period: nat, maxBytes: nat, sockets: nat): (r: Result<Config, ConfigError>)
    ensures r.Ok? <==> 0 < period <= 65536 && sockets > 0
    ensures r.Ok? ==>
              && r.value.periodMs == period && r.value.count == sockets
              && r.value.count * r.value.maxBytes <= maxBytes < r.value.count * (r.value.maxBytes + 1)
  {
    if period == 0 || period > MAX_PERIOD_MS then Err(InvalidPeriodInput)
    else if sockets == 0 then Err(InvalidSocketCount)
    else
      assert maxBytes == sockets * (maxBytes / sockets) + maxBytes % sockets;
      Ok(Config(period, maxBytes / sockets, sockets))
  }

  ghost function DeliveredByAll(logs: seq<seq<Delivery>>, time: nat): (bytes: nat) {
    if logs == [] then 0
    else DeliveredByAll(logs[..|logs| - 1], time) + DeliveredBy(logs[|logs| - 1], time)
  }

  /** All backends of one configuration, each created at or after `t0` and never recreated, together stay at
      every time within the budget of a single limiter with the configured total. */
  lemma TotalWithinConfigured(period: nat, total: nat, sockets: nat, logs: seq<seq<Delivery>>, created: seq<nat>,
                              t0: nat, time: nat)
    requires TryFrom(period, total, sockets).Ok? && |logs| == |created| == sockets && t0 <= time
    requires forall i | 0 <= i < sockets ::
               && t0 <= created[i]
               && WithinBudget(logs[i], TryFrom(period, total, sockets).value.maxBytes, period * NS_PER_MS, created[i])
    ensures DeliveredByAll(logs, time) <= Budget(total, period * NS_PER_MS, time - t0)
  {
    hide Budget;
    var share, ns := TryFrom(period, total, sockets).value.maxBytes, period * NS_PER_MS;
    forall i | 0 <= i < sockets
      ensures DeliveredBy(logs[i], time) <= Budget(share, ns, time - t0)
    {
      assert WithinBudget(logs[i], share, ns, created[i]);
      if created[i] <= time {
        BudgetMonotone(share, ns, time - created[i], time - t0);
      }
    }
    SumBound(logs, time, Budget(share, ns, time - t0));
    SharesOfBudget(share, sockets, total, ns, time - t0);
  }

  lemma {:induction false} SumBound(logs: seq<seq<Delivery>>, time: nat, bound: nat)
    requires forall i | 0 <= i < |logs| :: DeliveredBy(logs[i], time) <= bound
    ensures DeliveredByAll(logs, time) <= |logs| * bound
  {
    if logs == [] {
    } else {
      SumBound(logs[..|logs| - 1], time, bound);
      assert |logs| * bound == (|logs| - 1) * bound + bound;
    }
  }
}
