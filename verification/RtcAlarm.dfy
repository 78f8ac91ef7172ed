/** The alarm protocol of vhost-device-rtc (section 5.23.6.6 of VIRTIO v1.4).

    Guest requests and worker threads interleave. Everything done under the device lock is one action,
    and so is a worker's read of its cancellation token, which takes no lock. Clock readings, the passing
    of time and the success of writing a notification are parameters of the actions. */
module RtcAlarms {
  import opened Common

  /** `Checked`: past the token, not yet inside the lock. `Waiting`: on the condition variable, lock released.
      `Fired`: took a buffer. `Done`: ended without one. */
  datatype Pc = Sleeping | Checked | Waiting | Fired | Done

  /** `reading` and `dur` are the clock reading and the sleep computed when the alarm was enabled; the
      sleep ends no earlier than host time `due`. `obsolete` is the cancellation token. */
  datatype Worker = Worker(clock: nat, reading: u64, dur: u64, due: nat, obsolete: bool, pc: Pc)

  datatype Alarm = Alarm(alarmTime: u64, enabled: bool, worker: Option<nat>)

  datatype Status = S_OK | S_EINVAL | S_EIO

  datatype Event =
    | TimeSet(clock: nat, time: u64)
    | Enabled(clock: nat, worker: nat, at: nat)
    | Disabled(clock: nat)
    | Pushed(buf: nat)
    | Popped(clock: nat, worker: nat, buf: nat, at: nat, delivered: bool)

  /** Buffers are numbered in the order the guest submits them. */
  datatype Device = Device(
    haveAlarm: bool,
    now: nat,
    clocks: seq<Option<Alarm>>,
    buffers: seq<nat>,
    pushed: nat,
    workers: seq<Worker>,
    log: seq<Event>)

  datatype Action =
    | SetAlarm(clock: nat, reading: Option<u64>, time: u64, enable: bool)
    | SetAlarmEnabled(clock: nat, reading: Option<u64>, enable: bool)
    | PushBuffer
    | Elapse(ns: nat)
    | CheckToken(worker: nat)
    | EnterSection(worker: nat, writeSucceeds: bool)

  // ----- The transition function -----

  predicate HasAlarm(d: Device, clock: nat) {
    clock < |d.clocks| && d.clocks[clock].Some?
  }

  /** Dropping a worker handle sets its token. */
  function Cancel(workers: seq<Worker>, w: Option<nat>): (next: seq<Worker>) {
    if w.Some? && w.value < |workers| then workers[w.value := workers[w.value].(obsolete := true)] else workers
  }

  /** The new worker is spawned before the old handle is dropped. */
  function Enable(d: Device, clock: nat, reading: u64, dur: u64): (e: Device)
    requires HasAlarm(d, clock)
  {
    var alarm := d.clocks[clock].value;
    var spawned := Worker(clock, reading, dur, d.now + dur, false, Sleeping);
    d.(workers := Cancel(d.workers + [spawned], alarm.worker),
       clocks := d.clocks[clock := Some(alarm.(enabled := true, worker := Some(|d.workers|)))],
       log := d.log + [Enabled(clock, |d.workers|, d.now)])
  }

  function Disable(d: Device, clock: nat): (e: Device)
    requires HasAlarm(d, clock)
  {
    var alarm := d.clocks[clock].value;
    d.(workers := Cancel(d.workers, alarm.worker),
       clocks := d.clocks[clock := Some(alarm.(enabled := false, worker := None))],
       log := d.log + [Disabled(clock)])
  }

  function SetTime(d: Device, clock: nat, time: u64): (e: Device)
    requires HasAlarm(d, clock)
  {
    d.(clocks := d.clocks[clock := Some(d.clocks[clock].value.(alarmTime := time))],
       log := d.log + [TimeSet(clock, time)])
  }

  /** Worker `w` finds its alarm enabled and a buffer to take. */
  predicate TakesBuffer(d: Device, w: nat)
    requires w < |d.workers|
  {
    var c := d.workers[w].clock;
    HasAlarm(d, c) && d.clocks[c].value.enabled && d.buffers != []
  }

  /** One pass of the worker's loop under the lock: give up when the alarm is disabled, take the last
      buffer when there is one, else wait. */
  function Section(d: Device, w: nat, writeSucceeds: bool): (e: Device)
    requires w < |d.workers|
  {
    var worker := d.workers[w];
    if !(HasAlarm(d, worker.clock) && d.clocks[worker.clock].value.enabled) then
      d.(workers := d.workers[w := worker.(pc := Done)])
    else if d.buffers == [] then
      d.(workers := d.workers[w := worker.(pc := Waiting)])
    else
      var last := |d.buffers| - 1;
      d.(workers := d.workers[w := worker.(pc := Fired)],
         buffers := d.buffers[..last],
         log := d.log + [Popped(worker.clock, w, d.buffers[last], d.now, writeSucceeds)])
  }

  function StatusOf(d: Device, clock: nat, reading: Option<u64>): (status: Status) {
    if !d.haveAlarm || !HasAlarm(d, clock) then S_EINVAL else if reading.None? then S_EIO else S_OK
  }

  function After(d: Device, a: Action): (e: Device) {
    match a
    case SetAlarm(clock, reading, time, enable) =>
      if StatusOf(d, clock, reading) != S_OK then d
      else
        var e := SetTime(d, clock, time);
        if enable then Enable(e, clock, reading.value, Max(time, reading.value) - reading.value)
        else Disable(e, clock)
    case SetAlarmEnabled(clock, reading, enable) =>
      if StatusOf(d, clock, reading) != S_OK then d
      else if enable then
        Enable(d, clock, reading.value, Max(d.clocks[clock].value.alarmTime - reading.value, 0))
      else Disable(d, clock)
    case PushBuffer =>
      if !d.haveAlarm then d
      else d.(buffers := d.buffers + [d.pushed], pushed := d.pushed + 1, log := d.log + [Pushed(d.pushed)])
    case Elapse(ns) =>
      d.(now := d.now + ns)
    case CheckToken(w) =>
      if w < |d.workers| && d.workers[w].pc == Sleeping && d.workers[w].due <= d.now then
        d.(workers := d.workers[w := d.workers[w].(pc := if d.workers[w].obsolete then Done else Checked)])
      else d
    case EnterSection(w, writeSucceeds) =>
      if w < |d.workers| && d.workers[w].pc in {Checked, Waiting} then Section(d, w, writeSucceeds) else d
  }

  predicate Initial(d: Device) {
    && d.buffers == [] && d.pushed == 0 && d.workers == [] && d.log == []
    && forall c | 0 <= c < |d.clocks| :: d.clocks[c].Some? ==> d.clocks[c].value == Alarm(0, false, None)
  }

  function Run(d: Device, actions: seq<Action>): (end: Device) {
    if actions == [] then d else After(Run(d, actions[..|actions| - 1]), actions[|actions| - 1])
  }

  // ----- What each action does, field by field -----

  /** The request reaches an alarm: there is one for the clock, and the clock can be read. */
  predicate Reaches(d: Device, clock: nat, reading: Option<u64>) {
    d.haveAlarm && clock < |d.clocks| && d.clocks[clock].Some? && reading.Some?
  }

  /** An accepted request leaves the alarm with `time`, off and without a worker, or on and with a new one
      that sleeps until then. The token of the worker held before is set; nothing else changes. */
  ghost predicate Switched(d: Device, e: Device, clock: nat, reading: u64, time: u64, enable: bool, times: seq<Event>)
    requires clock < |d.clocks| && d.clocks[clock].Some?
  {
    var n, held, wait := |d.workers|, d.clocks[clock].value.worker, if time > reading then time - reading else 0;
    && e.clocks == d.clocks[clock := Some(Alarm(time, enable, if enable then Some(n) else None))]
    && |e.workers| == (if enable then n + 1 else n)
    && (enable ==> e.workers[n] == Worker(clock, reading, wait, d.now + wait, held == Some(n), Sleeping))
    && (forall w | 0 <= w < n ::
          e.workers[w] == if held == Some(w) then d.workers[w].(obsolete := true) else d.workers[w])
    && e.log == d.log + times + [if enable then Enabled(clock, n, d.now) else Disabled(clock)]
    && e.buffers == d.buffers && e.pushed == d.pushed && e.now == d.now && e.haveAlarm == d.haveAlarm
  }

  /** Setting an alarm stores its time and switches it by the flag. */
  lemma SetAlarmExactly(d: Device, clock: nat, reading: Option<u64>, time: u64, enable: bool)
    ensures var e := After(d, SetAlarm(clock, reading, time, enable));
            if Reaches(d, clock, reading) then
              Switched(d, e, clock, reading.value, time, enable, [TimeSet(clock, time)])
            else e == d
  {
    if Reaches(d, clock, reading) && enable {
      assert d.log + [TimeSet(clock, time)] + [Enabled(clock, |d.workers|, d.now)]
          == After(d, SetAlarm(clock, reading, time, enable)).log;
    }
  }

  /** Switching an alarm keeps its time. */
  lemma SetAlarmEnabledExactly(d: Device, clock: nat, reading: Option<u64>, enable: bool)
    ensures var e := After(d, SetAlarmEnabled(clock, reading, enable));
            if Reaches(d, clock, reading) then
              Switched(d, e, clock, reading.value, d.clocks[clock].value.alarmTime, enable, [])
            else e == d
  {
    assert d.log + [] == d.log;
  }

  lemma PushBufferExactly(d: Device)
    ensures var e := After(d, PushBuffer);
            if d.haveAlarm then
              e == d.(buffers := d.buffers + [d.pushed], pushed := d.pushed + 1, log := d.log + [Pushed(d.pushed)])
            else e == d
  {
  }

  /** A worker whose sleep is over ends when its token is set, and goes on otherwise. */
  lemma CheckTokenExactly(d: Device, w: nat)
    ensures var e := After(d, CheckToken(w));
            if w < |d.workers| && d.workers[w].pc == Sleeping && d.workers[w].due <= d.now then
              && e.workers[w].pc == (if d.workers[w].obsolete then Done else Checked)
              && e == d.(workers := d.workers[w := d.workers[w].(pc := e.workers[w].pc)])
            else e == d
  {
  }

  /** In the lock a worker ends without a buffer when its alarm is off, waits when there is no buffer, and
      takes the last one otherwise. */
  lemma EnterSectionExactly(d: Device, w: nat, writeSucceeds: bool)
    requires w < |d.workers| && d.workers[w].pc in {Checked, Waiting}
    ensures var e, c := After(d, EnterSection(w, writeSucceeds)), d.workers[w].clock;
            var on := c < |d.clocks| && d.clocks[c].Some? && d.clocks[c].value.enabled;
            && |e.workers| == |d.workers|
            && e.workers[w].pc == (if !on then Done else if d.buffers == [] then Waiting else Fired)
            && e.workers == d.workers[w := d.workers[w].(pc := e.workers[w].pc)]
            && (if on && d.buffers != [] then
                  && d.buffers == e.buffers + [d.buffers[|d.buffers| - 1]]
                  && e.log == d.log + [Popped(c, w, d.buffers[|d.buffers| - 1], d.now, writeSucceeds)]
                else e.buffers == d.buffers && e.log == d.log)
            && e.clocks == d.clocks && e.pushed == d.pushed && e.now == d.now && e.haveAlarm == d.haveAlarm
  {
  }

  // ----- What every reachable state keeps -----

  /** The last switch of the clock in the log, and the last time set. */
  ghost predicate Armed(log: seq<Event>, clock: nat) {
    if log == [] then false
    else
      var last := log[|log| - 1];
      if last.Enabled? && last.clock == clock then true
      else if last == Disabled(clock) then false
      else Armed(log[..|log| - 1], clock)
  }

  ghost function LastTime(log: seq<Event>, clock: nat): (time: u64) {
    if log == [] then 0
    else
      var last := log[|log| - 1];
      if last.TimeSet? && last.clock == clock then last.time else LastTime(log[..|log| - 1], clock)
  }

  /** The alarm is what the log says; an enabled one holds a live worker of its clock, which (unless
      `pending`) is due at the alarm time, or at once when that time had passed on enabling. */
  ghost predicate ClockOk(d: Device, c: nat, pending: bool)
    requires c < |d.clocks| && d.clocks[c].Some?
  {
    var alarm := d.clocks[c].value;
    && alarm.enabled == alarm.worker.Some? == Armed(d.log, c)
    && alarm.alarmTime == LastTime(d.log, c)
    && (alarm.enabled ==>
          && alarm.worker.value < |d.workers|
          && var worker := d.workers[alarm.worker.value];
             && worker.clock == c && !worker.obsolete
             && (pending || worker.reading + worker.dur == Max(alarm.alarmTime, worker.reading)))
  }

  /** A worker whose token is not set is the one its clock holds. */
  ghost predicate WorkerOk(d: Device, w: nat)
    requires w < |d.workers|
  {
    !d.workers[w].obsolete ==>
      HasAlarm(d, d.workers[w].clock) && d.clocks[d.workers[w].clock].value.worker == Some(w)
  }

  ghost predicate AlarmsInv(d: Device, pendingClock: int := -1) {
    && (forall c | 0 <= c < |d.clocks| && d.clocks[c].Some? :: ClockOk(d, c, c == pendingClock))
    && (forall w | 0 <= w < |d.workers| :: WorkerOk(d, w))
  }

  /** Event `k` is the enable that spawned worker `w`, for as long as the clock had left to the alarm time. */
  ghost predicate Spawns(log: seq<Event>, k: nat, w: nat, worker: Worker)
    requires k < |log|
  {
    && log[k].Enabled? && log[k].clock == worker.clock && log[k].worker == w
    && log[k].at + worker.dur == worker.due
    && worker.dur == Max(LastTime(log[..k], worker.clock) - worker.reading, 0)
  }

  ghost predicate SpawnedBefore(log: seq<Event>, j: nat, w: nat, worker: Worker)
    requires j <= |log|
  {
    exists k :: 0 <= k < j && Spawns(log, k, w, worker)
  }

  lemma SpawnedPersists(log: seq<Event>, longer: seq<Event>, j: nat, w: nat, a: Worker, b: Worker)
    requires j <= |log| <= |longer| && longer[..|log|] == log && SameTimes(a, b)
    requires SpawnedBefore(log, j, w, a)
    ensures SpawnedBefore(longer, j, w, b) && SpawnedBefore(longer, |longer|, w, b)
  {
    var k :| 0 <= k < j && Spawns(log, k, w, a);
    assert longer[..k] == log[..k];
    assert Spawns(longer, k, w, b);
  }

  /** Every worker was spawned by an enable of its clock. */
  ghost predicate OriginsInv(d: Device) {
    forall w | 0 <= w < |d.workers| :: SpawnedBefore(d.log, |d.log|, w, d.workers[w])
  }

  /** A taken buffer went to a worker of that clock, past its due time, while the clock was armed. */
  ghost predicate EventOk(d: Device, j: nat)
    requires j < |d.log|
  {
    var e := d.log[j];
    e.Popped? ==>
      && Armed(d.log[..j], e.clock)
      && e.worker < |d.workers|
      && d.workers[e.worker].clock == e.clock
      && d.workers[e.worker].pc == Fired
      && d.workers[e.worker].due <= e.at
      && SpawnedBefore(d.log, j, e.worker, d.workers[e.worker])
  }

  ghost predicate LogInv(d: Device) {
    && (forall w | 0 <= w < |d.workers| && d.workers[w].pc in {Checked, Waiting} :: d.workers[w].due <= d.now)
    && (forall j | 0 <= j < |d.log| :: EventOk(d, j))
  }

  lemma LogExtends(log: seq<Event>, e: Event, clock: nat)
    ensures Armed(log + [e], clock) ==
            ((e.Enabled? && e.clock == clock) || (e != Disabled(clock) && Armed(log, clock)))
    ensures LastTime(log + [e], clock) == if e.TimeSet? && e.clock == clock then e.time else LastTime(log, clock)
  {
    assert (log + [e])[..|log|] == log;
  }

  lemma SetTimeKeepsAlarms(d: Device, clock: nat, time: u64)
    requires AlarmsInv(d) && HasAlarm(d, clock)
    ensures AlarmsInv(SetTime(d, clock, time), clock)
  {
    var e := SetTime(d, clock, time);
    forall c | 0 <= c < |e.clocks| && e.clocks[c].Some?
      ensures ClockOk(e, c, c == clock)
    {
      LogExtends(d.log, TimeSet(clock, time), c);
      assert ClockOk(d, c, false);
    }
    forall w | 0 <= w < |e.workers|
      ensures WorkerOk(e, w)
    {
      assert WorkerOk(d, w);
    }
  }

  lemma EnableKeepsAlarms(d: Device, clock: nat, reading: u64, dur: u64)
    requires HasAlarm(d, clock) && AlarmsInv(d, clock)
    requires reading + dur == Max(d.clocks[clock].value.alarmTime, reading)
    ensures AlarmsInv(Enable(d, clock, reading, dur))
  {
    var e := Enable(d, clock, reading, dur);
    forall c | 0 <= c < |e.clocks| && e.clocks[c].Some?
      ensures ClockOk(e, c, false)
    {
      LogExtends(d.log, Enabled(clock, |d.workers|, d.now), c);
      assert ClockOk(d, c, c == clock);
    }
    forall w | 0 <= w < |e.workers|
      ensures WorkerOk(e, w)
    {
      assert w < |d.workers| ==> WorkerOk(d, w);
      assert ClockOk(d, clock, true);
    }
  }

  lemma DisableKeepsAlarms(d: Device, clock: nat)
    requires HasAlarm(d, clock) && AlarmsInv(d, clock)
    ensures AlarmsInv(Disable(d, clock))
  {
    var e := Disable(d, clock);
    forall c | 0 <= c < |e.clocks| && e.clocks[c].Some?
      ensures ClockOk(e, c, false)
    {
      LogExtends(d.log, Disabled(clock), c);
      assert ClockOk(d, c, c == clock);
    }
    forall w | 0 <= w < |e.workers|
      ensures WorkerOk(e, w)
    {
      assert WorkerOk(d, w);
      assert ClockOk(d, clock, true);
    }
  }

  predicate SameTimes(a: Worker, b: Worker) {
    a.clock == b.clock && a.reading == b.reading && a.dur == b.dur && a.due == b.due
  }

  lemma UntouchedAlarms(d: Device, e: Device)
    requires AlarmsInv(d) && e.clocks == d.clocks && |e.workers| == |d.workers|
    requires forall w | 0 <= w < |d.workers| ::
               SameTimes(d.workers[w], e.workers[w]) && d.workers[w].obsolete == e.workers[w].obsolete
    requires forall c: nat :: Armed(e.log, c) == Armed(d.log, c) && LastTime(e.log, c) == LastTime(d.log, c)
    ensures AlarmsInv(e)
  {
    hide Armed, LastTime;
    forall c | 0 <= c < |e.clocks| && e.clocks[c].Some?
      ensures ClockOk(e, c, false)
    {
      assert ClockOk(d, c, false);
    }
    forall w | 0 <= w < |e.workers|
      ensures WorkerOk(e, w)
    {
      assert WorkerOk(d, w);
    }
  }

  /** Nothing but the requests touches alarms, tokens or switches. */
  lemma OtherStepsKeepAlarms(d: Device, a: Action)
    requires AlarmsInv(d) && !a.SetAlarm? && !a.SetAlarmEnabled?
    ensures AlarmsInv(After(d, a))
  {
    hide Armed, LastTime, AlarmsInv;
    var e := After(d, a);
    forall c: nat
      ensures Armed(e.log, c) == Armed(d.log, c) && LastTime(e.log, c) == LastTime(d.log, c)
    {
      if e.log != d.log {
        LogExtends(d.log, e.log[|d.log|], c);
      }
    }
    UntouchedAlarms(d, e);
  }

  lemma WeakenPending(d: Device, clock: nat)
    requires AlarmsInv(d) && HasAlarm(d, clock)
    ensures AlarmsInv(d, clock)
  {
    forall c | 0 <= c < |d.clocks| && d.clocks[c].Some?
      ensures ClockOk(d, c, c == clock)
    {
      assert ClockOk(d, c, false);
    }
  }

  lemma StepKeepsAlarms(d: Device, a: Action)
    requires AlarmsInv(d)
    ensures AlarmsInv(After(d, a))
  {
    if (a.SetAlarm? || a.SetAlarmEnabled?) && StatusOf(d, a.clock, a.reading) == S_OK {
      var e := d;
      if a.SetAlarm? {
        e := SetTime(d, a.clock, a.time);
        SetTimeKeepsAlarms(d, a.clock, a.time);
      } else {
        WeakenPending(d, a.clock);
      }
      if a.enable {
        var time := e.clocks[a.clock].value.alarmTime;
        EnableKeepsAlarms(e, a.clock, a.reading.value, Max(time - a.reading.value, 0));
      } else {
        DisableKeepsAlarms(e, a.clock);
      }
    } else if !a.SetAlarm? && !a.SetAlarmEnabled? {
      OtherStepsKeepAlarms(d, a);
    }
  }

  /** Steps that take no buffer and leave the states of the existing workers alone, or move one from
      sleeping or waiting, once due. */
  lemma QuietStepKeepsLog(d: Device, e: Device)
    requires LogInv(d)
    requires |d.log| <= |e.log| && e.log[..|d.log|] == d.log && d.now <= e.now
    requires forall j | |d.log| <= j < |e.log| :: !e.log[j].Popped?
    requires |d.workers| <= |e.workers|
    requires forall w | 0 <= w < |e.workers| ::
               if w < |d.workers| then
                 && SameTimes(d.workers[w], e.workers[w])
                 && (e.workers[w].pc != d.workers[w].pc ==> d.workers[w].pc != Fired && d.workers[w].due <= e.now)
               else e.workers[w].pc == Sleeping
    ensures LogInv(e)
  {
    hide SpawnedBefore;
    forall j | 0 <= j < |e.log|
      ensures EventOk(e, j)
    {
      if j < |d.log| {
        OldEventOk(d, e, j);
      }
    }
  }

  lemma OldEventOk(d: Device, e: Device, j: nat)
    requires |d.log| <= |e.log| && e.log[..|d.log|] == d.log
    requires |d.workers| <= |e.workers|
    requires forall w | 0 <= w < |d.workers| ::
               SameTimes(d.workers[w], e.workers[w]) && (d.workers[w].pc == Fired ==> e.workers[w].pc == Fired)
    requires j < |d.log| && EventOk(d, j)
    ensures EventOk(e, j)
  {
    hide SpawnedBefore;
    assert e.log[..j] == d.log[..j];
    if e.log[j].Popped? {
      var w := e.log[j].worker;
      SpawnedPersists(d.log, e.log, j, w, d.workers[w], e.workers[w]);
    }
  }

  lemma OriginsPersist(d: Device, e: Device)
    requires OriginsInv(d)
    requires |d.log| <= |e.log| && e.log[..|d.log|] == d.log
    requires |d.workers| == |e.workers| && forall w | 0 <= w < |d.workers| :: SameTimes(d.workers[w], e.workers[w])
    ensures OriginsInv(e)
  {
    forall w | 0 <= w < |e.workers|
      ensures SpawnedBefore(e.log, |e.log|, w, e.workers[w])
    {
      SpawnedPersists(d.log, e.log, |d.log|, w, d.workers[w], e.workers[w]);
    }
  }

  lemma EnableKeepsOrigins(d: Device, clock: nat, reading: u64)
    requires HasAlarm(d, clock) && AlarmsInv(d, clock) && OriginsInv(d)
    ensures OriginsInv(Enable(d, clock, reading, Max(d.clocks[clock].value.alarmTime - reading, 0)))
  {
    var e := Enable(d, clock, reading, Max(d.clocks[clock].value.alarmTime - reading, 0));
    var n := |d.workers|;
    assert e.log[..|d.log|] == d.log;
    forall w | 0 <= w < |e.workers|
      ensures SpawnedBefore(e.log, |e.log|, w, e.workers[w])
    {
      if w < n {
        SpawnedPersists(d.log, e.log, |d.log|, w, d.workers[w], e.workers[w]);
      } else {
        assert ClockOk(d, clock, true);
        assert Spawns(e.log, |d.log|, n, e.workers[n]);
      }
    }
  }

  lemma StepKeepsOrigins(d: Device, a: Action)
    requires AlarmsInv(d) && OriginsInv(d)
    ensures OriginsInv(After(d, a))
  {
    hide OriginsInv, Armed, LastTime;
    if (a.SetAlarm? || a.SetAlarmEnabled?) && StatusOf(d, a.clock, a.reading) == S_OK {
      var e := d;
      if a.SetAlarm? {
        e := SetTime(d, a.clock, a.time);
        SetTimeKeepsAlarms(d, a.clock, a.time);
        OriginsPersist(d, e);
      } else {
        WeakenPending(d, a.clock);
      }
      if a.enable {
        EnableKeepsOrigins(e, a.clock, a.reading.value);
      } else {
        OriginsPersist(e, Disable(e, a.clock));
      }
    } else if !a.SetAlarm? && !a.SetAlarmEnabled? {
      OriginsPersist(d, After(d, a));
    }
  }

  lemma SectionKeepsLog(d: Device, w: nat, writeSucceeds: bool)
    requires AlarmsInv(d) && OriginsInv(d) && LogInv(d)
    requires w < |d.workers| && d.workers[w].pc in {Checked, Waiting}
    ensures LogInv(Section(d, w, writeSucceeds))
  {
    hide SpawnedBefore, LastTime, Armed;
    var e := Section(d, w, writeSucceeds);
    var worker := d.workers[w];
    if e.log == d.log {
      QuietStepKeepsLog(d, e);
    } else {
      assert e.log[..|d.log|] == d.log;
      assert ClockOk(d, worker.clock, false);
      SpawnedPersists(d.log, e.log, |d.log|, w, worker, e.workers[w]);
      forall j | 0 <= j < |e.log|
        ensures EventOk(e, j)
      {
        if j < |d.log| {
          OldEventOk(d, e, j);
        }
      }
    }
  }

  lemma StepKeepsLog(d: Device, a: Action)
    requires AlarmsInv(d) && OriginsInv(d) && LogInv(d)
    ensures LogInv(After(d, a))
  {
    if a.EnterSection? && a.worker < |d.workers| && d.workers[a.worker].pc in {Checked, Waiting} {
      SectionKeepsLog(d, a.worker, a.writeSucceeds);
    } else {
      hide EventOk, Armed;
      assert After(d, a).log[..|d.log|] == d.log;
      QuietStepKeepsLog(d, After(d, a));
    }
  }

  lemma {:induction false} RunKeepsInv(d: Device, actions: seq<Action>)
    requires Initial(d)
    ensures AlarmsInv(Run(d, actions)) && OriginsInv(Run(d, actions)) && LogInv(Run(d, actions))
  {
    if actions == [] {
    } else {
      var before := Run(d, actions[..|actions| - 1]);
      RunKeepsInv(d, actions[..|actions| - 1]);
      StepKeepsAlarms(before, actions[|actions| - 1]);
      StepKeepsOrigins(before, actions[|actions| - 1]);
      StepKeepsLog(before, actions[|actions| - 1]);
    }
  }

  // ----- Theorems over whole runs -----

  lemma {:induction false} ArmedSinceDisable(log: seq<Event>, clock: nat, i: nat) returns (k: nat)
    requires Armed(log, clock) && i < |log| && log[i] == Disabled(clock)
    ensures i < k < |log| && log[k].Enabled? && log[k].clock == clock
  {
    var n := |log| - 1;
    if log[n].Enabled? && log[n].clock == clock {
      k := n;
    } else {
      k := ArmedSinceDisable(log[..n], clock, i);
    }
  }

  /** A request accepted for `clock` with the flag set, or clear. */
  predicate Switches(d: Device, a: Action, clock: nat, enable: bool) {
    match a
    case SetAlarm(c, reading, _, flag) => c == clock && flag == enable && Reaches(d, clock, reading)
    case SetAlarmEnabled(c, reading, flag) => c == clock && flag == enable && Reaches(d, clock, reading)
    case _ => false
  }

  /** A buffer leaves the pending ones and goes to a worker of `clock`. */
  predicate TakesFor(d: Device, a: Action, clock: nat) {
    && a.EnterSection? && a.worker < |d.workers| && d.workers[a.worker].clock == clock
    && |After(d, a).buffers| < |d.buffers|
  }

  lemma SwitchSetsEnabled(d: Device, a: Action, clock: nat)
    requires clock < |d.clocks| && d.clocks[clock].Some?
    ensures var e := After(d, a);
            && clock < |e.clocks| && e.clocks[clock].Some?
            && (Switches(d, a, clock, true) ==> e.clocks[clock].value.enabled)
            && (Switches(d, a, clock, false) ==> !e.clocks[clock].value.enabled)
            && (!Switches(d, a, clock, true) && !Switches(d, a, clock, false) ==>
                  e.clocks[clock].value.enabled == d.clocks[clock].value.enabled)
  {
  }

  lemma OnlyEnabledTakes(d: Device, a: Action, clock: nat)
    requires TakesFor(d, a, clock)
    ensures clock < |d.clocks| && d.clocks[clock].Some? && d.clocks[clock].value.enabled
  {
  }

  /** From a state in which the alarm is off to one in which it is on there is an accepted enable. */
  lemma {:induction false} EnabledAgain(d: Device, actions: seq<Action>, clock: nat, i: nat, j: nat) returns (k: nat)
    requires i <= j <= |actions|
    requires var off := Run(d, actions[..i]); clock < |off.clocks| && off.clocks[clock].Some?
    requires !Run(d, actions[..i]).clocks[clock].value.enabled
    requires var on := Run(d, actions[..j]);
             clock < |on.clocks| && on.clocks[clock].Some? && on.clocks[clock].value.enabled
    ensures i <= k < j && Switches(Run(d, actions[..k]), actions[k], clock, true)
    decreases j
  {
    hide After, Switches;
    StillHasAlarm(d, actions, clock, i, j - 1);
    var before := Run(d, actions[..j - 1]);
    RunPrefix(d, actions, j - 1);
    SwitchSetsEnabled(before, actions[j - 1], clock);
    if before.clocks[clock].value.enabled {
      k := EnabledAgain(d, actions, clock, i, j - 1);
    } else {
      k := j - 1;
    }
  }

  lemma RunPrefix(d: Device, actions: seq<Action>, i: nat)
    requires i < |actions|
    ensures Run(d, actions[..i + 1]) == After(Run(d, actions[..i]), actions[i])
  {
    assert actions[..i + 1][..i] == actions[..i];
  }

  lemma {:induction false} StillHasAlarm(d: Device, actions: seq<Action>, clock: nat, i: nat, j: nat)
    requires i <= j <= |actions|
    requires var e := Run(d, actions[..i]); clock < |e.clocks| && e.clocks[clock].Some?
    ensures var e := Run(d, actions[..j]); clock < |e.clocks| && e.clocks[clock].Some?
    decreases j
  {
    hide After, Switches;
    if i == j {
    } else {
      StillHasAlarm(d, actions, clock, i, j - 1);
      RunPrefix(d, actions, j - 1);
      SwitchSetsEnabled(Run(d, actions[..j - 1]), actions[j - 1], clock);
    }
  }

  /** In every interleaving, from any state: after an accepted disable request of a clock no buffer is taken for
      it before a later accepted enable request. */
  lemma NoNotificationUntilReenabled(d: Device, actions: seq<Action>, clock: nat, i: nat, j: nat)
    requires i < j < |actions|
    requires Switches(Run(d, actions[..i]), actions[i], clock, false)
    requires TakesFor(Run(d, actions[..j]), actions[j], clock)
    ensures exists k :: i < k < j && Switches(Run(d, actions[..k]), actions[k], clock, true)
  {
    RunPrefix(d, actions, i);
    SwitchSetsEnabled(Run(d, actions[..i]), actions[i], clock);
    OnlyEnabledTakes(Run(d, actions[..j]), actions[j], clock);
    hide After, Run;
    var k := EnabledAgain(d, actions, clock, i + 1, j);
  }

  /** The same over the log: a buffer taken after a disable has an enable in between. */
  lemma NoPopUntilEnabled(d: Device, actions: seq<Action>, i: nat, j: nat)
    requires Initial(d)
    requires var log := Run(d, actions).log; i < j < |log| && log[j].Popped? && log[i] == Disabled(log[j].clock)
    ensures var log := Run(d, actions).log;
            exists k :: i < k < j && log[k].Enabled? && log[k].clock == log[j].clock
  {
    RunKeepsInv(d, actions);
    var e := Run(d, actions);
    assert EventOk(e, j);
    var k := ArmedSinceDisable(e.log[..j], e.log[j].clock, i);
    assert e.log[..j][k] == e.log[k];
  }

  /** `pop` answers the enable at `k`, no earlier than the alarm time then set: as much host time has passed
      since as the clock, then reading `reading`, had left to run to it. */
  ghost predicate AnswersInTime(log: seq<Event>, k: nat, pop: Event, reading: u64)
    requires k < |log| && pop.Popped?
  {
    && log[k].Enabled? && log[k].clock == pop.clock && log[k].worker == pop.worker
    && pop.at >= log[k].at + Max(LastTime(log[..k], pop.clock) - reading, 0)
  }

  /** Every buffer taken goes back to an earlier enable of its clock, and comes in time for it. */
  lemma NoNotificationBeforeAlarmTime(d: Device, actions: seq<Action>, j: nat)
    requires Initial(d)
    requires j < |Run(d, actions).log| && Run(d, actions).log[j].Popped?
    ensures var e := Run(d, actions);
            && e.log[j].worker < |e.workers|
            && exists k :: 0 <= k < j && AnswersInTime(e.log, k, e.log[j], e.workers[e.log[j].worker].reading)
  {
    RunKeepsInv(d, actions);
    PopAnswersEnable(Run(d, actions), j);
  }

  lemma PopAnswersEnable(e: Device, j: nat)
    requires j < |e.log| && e.log[j].Popped? && EventOk(e, j)
    ensures e.log[j].worker < |e.workers|
    ensures exists k :: 0 <= k < j && AnswersInTime(e.log, k, e.log[j], e.workers[e.log[j].worker].reading)
  {
    hide Armed, LastTime;
    var worker := e.workers[e.log[j].worker];
    var k :| 0 <= k < j && Spawns(e.log, k, e.log[j].worker, worker);
    assert AnswersInTime(e.log, k, e.log[j], worker.reading);
  }

  /** An enabled alarm always holds a live worker of its clock whose sleep ends at the alarm time, or
      right away if that time had passed when it was enabled. */
  lemma EnabledAlarmHoldsWorker(d: Device, actions: seq<Action>, c: nat)
    requires Initial(d)
    requires HasAlarm(Run(d, actions), c) && Run(d, actions).clocks[c].value.enabled
    ensures var e := Run(d, actions);
            var alarm := e.clocks[c].value;
            && alarm.worker.Some? && alarm.worker.value < |e.workers|
            && var worker := e.workers[alarm.worker.value];
               && worker.clock == c && !worker.obsolete
               && worker.reading + worker.dur == Max(alarm.alarmTime, worker.reading)
  {
    RunKeepsInv(d, actions);
    assert ClockOk(Run(d, actions), c, false);
  }

  // Notifications never outnumber enables: enables are spawned workers, notifications are fired ones.

  ghost function Spawned(workers: seq<Worker>, c: nat): (ws: set<nat>) {
    set w: nat | w < |workers| && workers[w].clock == c
  }

  ghost function FiredOf(workers: seq<Worker>, c: nat): (ws: set<nat>) {
    set w: nat | w < |workers| && workers[w].clock == c && workers[w].pc == Fired
  }

  ghost function Enables(log: seq<Event>, c: nat): (n: nat) {
    if log == [] then 0
    else
      var last := log[|log| - 1];
      Enables(log[..|log| - 1], c) + if last.Enabled? && last.clock == c then 1 else 0
  }

  ghost function Pops(log: seq<Event>, c: nat): (n: nat) {
    if log == [] then 0
    else
      var last := log[|log| - 1];
      Pops(log[..|log| - 1], c) + if last.Popped? && last.clock == c then 1 else 0
  }

  ghost predicate CountInv(d: Device, c: nat) {
    Enables(d.log, c) == |Spawned(d.workers, c)| && Pops(d.log, c) == |FiredOf(d.workers, c)|
  }

  lemma CountsExtend(log: seq<Event>, e: Event, c: nat)
    ensures Enables(log + [e], c) == Enables(log, c) + if e.Enabled? && e.clock == c then 1 else 0
    ensures Pops(log + [e], c) == Pops(log, c) + if e.Popped? && e.clock == c then 1 else 0
  {
    assert (log + [e])[..|log|] == log;
  }

  lemma CancelKeepsSets(workers: seq<Worker>, w: Option<nat>, c: nat)
    ensures Spawned(Cancel(workers, w), c) == Spawned(workers, c)
    ensures FiredOf(Cancel(workers, w), c) == FiredOf(workers, c)
  {
  }

  lemma SpawnAddsOne(workers: seq<Worker>, spawned: Worker, c: nat)
    requires spawned.pc == Sleeping
    ensures |Spawned(workers + [spawned], c)| == |Spawned(workers, c)| + if spawned.clock == c then 1 else 0
    ensures FiredOf(workers + [spawned], c) == FiredOf(workers, c)
  {
    assert Spawned(workers + [spawned], c) == Spawned(workers, c) + if spawned.clock == c then {|workers|} else {};
  }

  lemma EnableCounts(d: Device, clock: nat, reading: u64, dur: u64, c: nat)
    requires CountInv(d, c) && HasAlarm(d, clock)
    ensures CountInv(Enable(d, clock, reading, dur), c)
  {
    hide Enables, Pops;
    CountsExtend(d.log, Enabled(clock, |d.workers|, d.now), c);
    var spawned := Worker(clock, reading, dur, d.now + dur, false, Sleeping);
    SpawnAddsOne(d.workers, spawned, c);
    CancelKeepsSets(d.workers + [spawned], d.clocks[clock].value.worker, c);
  }

  lemma DisableCounts(d: Device, clock: nat, c: nat)
    requires CountInv(d, c) && HasAlarm(d, clock)
    ensures CountInv(Disable(d, clock), c)
  {
    hide Enables, Pops;
    CountsExtend(d.log, Disabled(clock), c);
    CancelKeepsSets(d.workers, d.clocks[clock].value.worker, c);
  }

  lemma SetTimeCounts(d: Device, clock: nat, time: u64, c: nat)
    requires CountInv(d, c) && HasAlarm(d, clock)
    ensures CountInv(SetTime(d, clock, time), c)
  {
    hide Enables, Pops;
    CountsExtend(d.log, TimeSet(clock, time), c);
    assert Spawned(SetTime(d, clock, time).workers, c) == Spawned(d.workers, c);
    assert FiredOf(SetTime(d, clock, time).workers, c) == FiredOf(d.workers, c);
  }

  lemma SectionCounts(d: Device, w: nat, writeSucceeds: bool, c: nat)
    requires CountInv(d, c) && w < |d.workers| && d.workers[w].pc in {Checked, Waiting}
    ensures CountInv(Section(d, w, writeSucceeds), c)
  {
    hide Enables, Pops;
    var e := Section(d, w, writeSucceeds);
    StateChanges(d.workers, w, e.workers[w].pc, c);
    if TakesBuffer(d, w) {
      CountsExtend(d.log, Popped(d.workers[w].clock, w, d.buffers[|d.buffers| - 1], d.now, writeSucceeds), c);
    }
  }

  lemma StateChanges(workers: seq<Worker>, w: nat, pc: Pc, c: nat)
    requires w < |workers| && workers[w].pc != Fired
    ensures var after := workers[w := workers[w].(pc := pc)];
            && Spawned(after, c) == Spawned(workers, c)
            && |FiredOf(after, c)| == |FiredOf(workers, c)| + if pc == Fired && workers[w].clock == c then 1 else 0
  {
    var after := workers[w := workers[w].(pc := pc)];
    assert Spawned(after, c) == Spawned(workers, c);
    var before, added := FiredOf(workers, c), if pc == Fired && workers[w].clock == c then {w} else {};
    assert before !! added;
    forall x: nat
      ensures x in FiredOf(after, c) <==> x in before || x in added
    {
      assert x != w ==> (x < |after| <==> x < |workers|) && (x < |after| ==> after[x] == workers[x]);
    }
    assert FiredOf(after, c) == before + added;
  }

  lemma OtherStepsCount(d: Device, a: Action, c: nat)
    requires CountInv(d, c) && !a.SetAlarm? && !a.SetAlarmEnabled?
    ensures CountInv(After(d, a), c)
  {
    hide Enables, Pops, Section, Spawned, FiredOf;
    var e := After(d, a);
    if e != d {
      match a
      case PushBuffer =>
        CountsExtend(d.log, Pushed(d.pushed), c);
      case Elapse(_) =>
      case CheckToken(w) =>
        StateChanges(d.workers, w, e.workers[w].pc, c);
      case EnterSection(w, writeSucceeds) =>
        SectionCounts(d, w, writeSucceeds, c);
    }
  }

  lemma StepCounts(d: Device, a: Action, c: nat)
    requires CountInv(d, c)
    ensures CountInv(After(d, a), c)
  {
    if (a.SetAlarm? || a.SetAlarmEnabled?) && StatusOf(d, a.clock, a.reading) == S_OK {
      var e := d;
      if a.SetAlarm? {
        e := SetTime(d, a.clock, a.time);
        SetTimeCounts(d, a.clock, a.time, c);
      }
      if a.enable {
        EnableCounts(e, a.clock, a.reading.value, Max(e.clocks[a.clock].value.alarmTime - a.reading.value, 0), c);
      } else {
        DisableCounts(e, a.clock, c);
      }
    } else if !a.SetAlarm? && !a.SetAlarmEnabled? {
      OtherStepsCount(d, a, c);
    }
  }

  /** Over every run, the buffers taken for a clock never outnumber the enables of its alarm. */
  lemma {:induction false} NotificationsWithinEnables(d: Device, actions: seq<Action>, c: nat)
    requires Initial(d)
    ensures CountInv(Run(d, actions), c)
    ensures Pops(Run(d, actions).log, c) <= Enables(Run(d, actions).log, c)
  {
    if actions == [] {
      assert Spawned(d.workers, c) == {} && FiredOf(d.workers, c) == {};
    } else {
      NotificationsWithinEnables(d, actions[..|actions| - 1], c);
      StepCounts(Run(d, actions[..|actions| - 1]), actions[|actions| - 1], c);
    }
    SubsetSize(FiredOf(Run(d, actions).workers, c), Spawned(Run(d, actions).workers, c));
  }

  lemma {:induction false} SubsetSize<T>(a: set<T>, b: set<T>)
    requires a <= b
    ensures |a| <= |b|
  {
    assert b == a + (b - a);
  }

  /** Every worker takes at most one buffer, so every enable is answered at most once. */
  lemma {:induction false} WorkersFireOnce(d: Device, actions: seq<Action>, i: nat, j: nat)
    requires Initial(d)
    requires var log := Run(d, actions).log; i < j < |log| && log[i].Popped? && log[j].Popped?
    ensures Run(d, actions).log[i].worker != Run(d, actions).log[j].worker
  {
    var before, a := Run(d, actions[..|actions| - 1]), actions[|actions| - 1];
    var log := Run(d, actions).log;
    RunKeepsInv(d, actions[..|actions| - 1]);
    StepExtendsLog(before, a);
    if j < |before.log| {
      WorkersFireOnce(d, actions[..|actions| - 1], i, j);
      assert before.log[i] == log[i] && before.log[j] == log[j];
    } else {
      assert before.log[i] == log[i];
      assert EventOk(before, i);
    }
  }

  /** Only a worker that has not fired takes a buffer, and that is the last event of the step. */
  lemma StepExtendsLog(d: Device, a: Action)
    ensures d.log <= After(d, a).log
    ensures forall j | |d.log| <= j < |After(d, a).log| && After(d, a).log[j].Popped? ::
              var w := After(d, a).log[j].worker;
              j == |d.log| && w < |d.workers| && d.workers[w].pc != Fired
  {
  }

  // Buffers: what was pushed is pending or was taken once.

  ghost function Taken(log: seq<Event>): (bufs: multiset<nat>) {
    if log == [] then multiset{}
    else
      var last := log[|log| - 1];
      Taken(log[..|log| - 1]) + if last.Popped? then multiset{last.buf} else multiset{}
  }

  lemma TakenExtends(log: seq<Event>, e: Event)
    ensures Taken(log + [e]) == Taken(log) + if e.Popped? then multiset{e.buf} else multiset{}
  {
    assert (log + [e])[..|log|] == log;
  }

  lemma TakesNothing(d: Device, a: Action)
    requires (a.SetAlarm? || a.SetAlarmEnabled?) && StatusOf(d, a.clock, a.reading) == S_OK
    ensures After(d, a).buffers == d.buffers && After(d, a).pushed == d.pushed
    ensures Taken(After(d, a).log) == Taken(d.log)
  {
    var log := d.log;
    if a.SetAlarm? {
      TakenExtends(log, TimeSet(a.clock, a.time));
      log := log + [TimeSet(a.clock, a.time)];
    }
    TakenExtends(log, if a.enable then Enabled(a.clock, |d.workers|, d.now) else Disabled(a.clock));
  }

  ghost predicate BuffersInv(d: Device) {
    multiset(d.buffers) + Taken(d.log) == Upto(d.pushed)
  }

  lemma SectionKeepsBuffers(d: Device, w: nat, writeSucceeds: bool)
    requires BuffersInv(d) && w < |d.workers|
    ensures BuffersInv(Section(d, w, writeSucceeds))
  {
    hide Taken, Upto;
    if TakesBuffer(d, w) {
      var last := |d.buffers| - 1;
      TakenExtends(d.log, Popped(d.workers[w].clock, w, d.buffers[last], d.now, writeSucceeds));
      assert d.buffers == d.buffers[..last] + [d.buffers[last]];
    }
  }

  lemma PushKeepsBuffers(d: Device)
    requires BuffersInv(d)
    ensures BuffersInv(After(d, PushBuffer))
  {
    hide Taken;
    TakenExtends(d.log, Pushed(d.pushed));
  }

  lemma StepKeepsBuffers(d: Device, a: Action)
    requires BuffersInv(d)
    ensures BuffersInv(After(d, a))
  {
    hide Taken, Upto, Section;
    match a
    case SetAlarm(_, _, _, _) =>
      if StatusOf(d, a.clock, a.reading) == S_OK {
        TakesNothing(d, a);
      }
    case SetAlarmEnabled(_, _, _) =>
      if StatusOf(d, a.clock, a.reading) == S_OK {
        TakesNothing(d, a);
      }
    case PushBuffer =>
      PushKeepsBuffers(d);
    case Elapse(_) =>
    case CheckToken(_) =>
    case EnterSection(w, ok) =>
      if w < |d.workers| {
        SectionKeepsBuffers(d, w, ok);
      }
  }

  /** Pushed buffers are exactly the pending and the taken ones, each of them once. */
  lemma {:induction false} BuffersTakenAtMostOnce(d: Device, actions: seq<Action>, b: nat)
    requires Initial(d)
    ensures var e := Run(d, actions);
            && BuffersInv(e)
            && multiset(e.buffers)[b] + Taken(e.log)[b] == if b < e.pushed then 1 else 0
  {
    if actions == [] {
    } else {
      BuffersTakenAtMostOnce(d, actions[..|actions| - 1], b);
      StepKeepsBuffers(Run(d, actions[..|actions| - 1]), actions[|actions| - 1]);
    }
    UptoOnce(Run(d, actions).pushed, b);
  }

  // Cancellation.

  lemma {:induction false} RunAppends(d: Device, first: seq<Action>, rest: seq<Action>)
    ensures Run(d, first + rest) == Run(Run(d, first), rest)
  {
    if rest == [] {
      assert first + rest == first;
    } else {
      var n := |rest| - 1;
      assert (first + rest)[..|first + rest| - 1] == first + rest[..n];
      RunAppends(d, first, rest[..n]);
    }
  }

  /** A worker cancelled before its token check never takes a buffer, whatever happens afterwards. */
  lemma CancelledWorkerTakesNothing(d: Device, first: seq<Action>, rest: seq<Action>, w: nat)
    requires Initial(d)
    requires var e := Run(d, first); w < |e.workers| && e.workers[w].obsolete && e.workers[w].pc == Sleeping
    ensures forall j | 0 <= j < |Run(d, first + rest).log| ::
              Run(d, first + rest).log[j].Popped? ==> Run(d, first + rest).log[j].worker != w
  {
    RunAppends(d, first, rest);
    CancelledStaysQuiet(Run(d, first), rest, w);
    RunKeepsInv(d, first + rest);
    forall j | 0 <= j < |Run(d, first + rest).log|
      ensures Run(d, first + rest).log[j].Popped? ==> Run(d, first + rest).log[j].worker != w
    {
      assert EventOk(Run(d, first + rest), j);
    }
  }

  lemma {:induction false} CancelledStaysQuiet(d: Device, rest: seq<Action>, w: nat)
    requires w < |d.workers| && d.workers[w].obsolete && d.workers[w].pc == Sleeping
    ensures var e := Run(d, rest);
            w < |e.workers| && e.workers[w].obsolete && e.workers[w].pc in {Sleeping, Done}
  {
    hide After;
    if rest == [] {
    } else {
      CancelledStaysQuiet(d, rest[..|rest| - 1], w);
      CancelledStep(Run(d, rest[..|rest| - 1]), rest[|rest| - 1], w);
    }
  }

  lemma CancelledStep(d: Device, a: Action, w: nat)
    requires w < |d.workers| && d.workers[w].obsolete && d.workers[w].pc in {Sleeping, Done}
    ensures var e := After(d, a);
            w < |e.workers| && e.workers[w].obsolete && e.workers[w].pc in {Sleeping, Done}
  {
  }

  /** A worker that takes a buffer acts for the alarm as it is now exactly when its token is not set. */
  lemma FiringIsCurrentIffNotObsolete(d: Device, actions: seq<Action>, w: nat)
    requires Initial(d)
    requires w < |Run(d, actions).workers| && TakesBuffer(Run(d, actions), w)
    ensures var e := Run(d, actions);
            e.clocks[e.workers[w].clock].value.worker == Some(w) <==> !e.workers[w].obsolete
  {
    RunKeepsInv(d, actions);
    var e := Run(d, actions);
    assert ClockOk(e, e.workers[w].clock, false);
    assert WorkerOk(e, w);
  }

  lemma RunOneMore(d: Device, actions: seq<Action>, a: Action)
    ensures Run(d, actions + [a]) == After(Run(d, actions), a)
  {
    assert (actions + [a])[..|actions|] == actions;
  }

  /** A worker past its token check can act after its token was set: an alarm re-set from reading 20 to 100
      is answered at once by the worker of the earlier setting, 80 ns before it is due. */
  lemma ObsoleteWorkerCanFire(d: Device) returns (actions: seq<Action>)
    requires d == Device(true, 0, [Some(Alarm(0, false, None))], [], 0, [], [])
    ensures var e := Run(d, actions);
            && |e.workers| == 2 && e.workers[0].obsolete && e.workers[1].due == 90
            && e.clocks == [Some(Alarm(100, true, Some(1)))]
            && |e.log| > 0 && e.log[|e.log| - 1] == Popped(0, 0, 0, 10, true)
  {
    var e := d;
    actions := [];
    actions, e := Extend(d, actions, e, SetAlarm(0, Some(10), 20, true));
    actions, e := Extend(d, actions, e, Elapse(10));
    actions, e := Extend(d, actions, e, CheckToken(0));
    var checked := Worker(0, 10, 10, 10, false, Checked);
    assert e == Device(true, 10, [Some(Alarm(20, true, Some(0)))], [], 0, [checked], e.log) by {
      hide Run;
    }
    actions, e := FireObsolete(d, actions, e);
  }

  lemma FireObsolete(d: Device, actions: seq<Action>, e: Device) returns (longer: seq<Action>, last: Device)
    requires Run(d, actions) == e
    requires e == Device(true, 10, [Some(Alarm(20, true, Some(0)))], [], 0, [Worker(0, 10, 10, 10, false, Checked)], e.log)
    ensures Run(d, longer) == last
    ensures last.clocks == [Some(Alarm(100, true, Some(1)))] && |last.log| > 0
    ensures last.log[|last.log| - 1] == Popped(0, 0, 0, 10, true)
    ensures |last.workers| == 2 && last.workers[0].obsolete && last.workers[1].due == 90
  {
    hide Run;
    longer, last := Extend(d, actions, e, SetAlarm(0, Some(20), 100, true));
    assert last.workers == [Worker(0, 10, 10, 10, true, Checked), Worker(0, 20, 80, 90, false, Sleeping)];
    longer, last := Extend(d, longer, last, PushBuffer);
    longer, last := Extend(d, longer, last, EnterSection(0, true));
  }

  lemma Extend(d: Device, actions: seq<Action>, e: Device, a: Action) returns (longer: seq<Action>, next: Device)
    requires Run(d, actions) == e
    ensures next == After(e, a) && Run(d, longer) == next
  {
    RunOneMore(d, actions, a);
    longer, next := actions + [a], After(e, a);
  }

  // ----- The device as the threads share it -----

  // Every action that is code of the device is one method; `Elapse` is no code.

  class RtcDevice {
    const haveAlarm: bool
    var clocks: seq<Option<Alarm>>
    var alarmNotifBuffers: seq<nat>
    var workers: seq<Worker>
    var now: nat
    var pushed: nat
    ghost var log: seq<Event>

    ghost function Model(): (m: Device)
      reads this
    {
      Device(haveAlarm, now, clocks, alarmNotifBuffers, pushed, workers, log)
    }

    /** `alarms[c]` says whether clock `c` has an alarm. */
    constructor (haveAlarm: bool, alarms: seq<bool>)
      ensures Initial(Model()) && this.haveAlarm == haveAlarm && |clocks| == |alarms|
      ensures forall c | 0 <= c < |alarms| :: clocks[c].Some? == alarms[c]
    {
      this.haveAlarm := haveAlarm;
      this.clocks := seq(|alarms|, c requires 0 <= c < |alarms| => if alarms[c] then Some(Alarm(0, false, None)) else None);
      this.alarmNotifBuffers, this.workers, this.now, this.pushed, this.log := [], [], 0, 0, [];
    }

    /** Overwriting the worker handle drops the old one, which sets its token. */
    method ReplaceWorker(clock: nat, enabled: bool, worker: Option<nat>)
      requires clock < |clocks| && clocks[clock].Some?
      modifies this`clocks, this`workers
      ensures workers == Cancel(old(workers), old(clocks)[clock].value.worker)
      ensures clocks == old(clocks)[clock := Some(Alarm(old(clocks)[clock].value.alarmTime, enabled, worker))]
    {
      var alarm := clocks[clock].value;
      clocks := clocks[clock := Some(alarm.(enabled := enabled, worker := worker))];
      if alarm.worker.Some? && alarm.worker.value < |workers| {
        var dropped := alarm.worker.value;
        workers := workers[dropped := workers[dropped].(obsolete := true)];
      }
    }

    method EnableAlarm(clock: nat, reading: u64, dur: u64)
      requires clock < |clocks| && clocks[clock].Some?
      modifies this
      ensures Model() == Enable(old(Model()), clock, reading, dur)
    {
      var id := |workers|;
      workers := workers + [Worker(clock, reading, dur, now + dur, false, Sleeping)];
      ReplaceWorker(clock, true, Some(id));
      log := log + [Enabled(clock, id, now)];
    }

    method DisableAlarm(clock: nat)
      requires clock < |clocks| && clocks[clock].Some?
      modifies this
      ensures Model() == Disable(old(Model()), clock)
    {
      ReplaceWorker(clock, false, None);
      log := log + [Disabled(clock)];
    }

    method SetAlarm(clock: nat, reading: Option<u64>, time: u64, enable: bool) returns (status: Status)
      modifies this
      ensures status == StatusOf(old(Model()), clock, reading)
      ensures Model() == After(old(Model()), Action.SetAlarm(clock, reading, time, enable))
      ensures status == S_OK <==> old(Reaches(Model(), clock, reading))
      ensures status == S_EINVAL <==> !haveAlarm || clock >= |old(clocks)| || old(clocks)[clock].None?
      ensures status != S_OK ==> Model() == old(Model())
      ensures status == S_OK ==>
                && clocks[clock] == Some(Alarm(time, enable, if enable then Some(|old(workers)|) else None))
                && Switched(old(Model()), Model(), clock, reading.value, time, enable, [TimeSet(clock, time)])
    {
      SetAlarmExactly(Model(), clock, reading, time, enable);
      if !haveAlarm || clock >= |clocks| || clocks[clock].None? {
        return S_EINVAL;
      }
      if reading.None? {
        return S_EIO;
      }
      clocks := clocks[clock := Some(clocks[clock].value.(alarmTime := time))];
      log := log + [TimeSet(clock, time)];
      var alarmTime := time;
      if alarmTime < reading.value {
        alarmTime := reading.value;
      }
      if enable {
        EnableAlarm(clock, reading.value, alarmTime - reading.value);
      } else {
        DisableAlarm(clock);
      }
      status := S_OK;
    }

    method SetAlarmEnabled(clock: nat, reading: Option<u64>, enable: bool) returns (status: Status)
      modifies this
      ensures status == StatusOf(old(Model()), clock, reading)
      ensures Model() == After(old(Model()), Action.SetAlarmEnabled(clock, reading, enable))
      ensures status == S_OK <==> old(Reaches(Model(), clock, reading))
      ensures status == S_EINVAL <==> !haveAlarm || clock >= |old(clocks)| || old(clocks)[clock].None?
      ensures status != S_OK ==> Model() == old(Model())
      ensures status == S_OK ==>
                && clocks[clock] == Some(Alarm(old(clocks)[clock].value.alarmTime, enable,
                                               if enable then Some(|old(workers)|) else None))
                && Switched(old(Model()), Model(), clock, reading.value, old(clocks)[clock].value.alarmTime, enable, [])
    {
      SetAlarmEnabledExactly(Model(), clock, reading, enable);
      if !haveAlarm || clock >= |clocks| || clocks[clock].None? {
        return S_EINVAL;
      }
      if reading.None? {
        return S_EIO;
      }
      if enable {
        var alarmTime := clocks[clock].value.alarmTime;
        var dur := if alarmTime > reading.value then alarmTime - reading.value else 0;
        EnableAlarm(clock, reading.value, dur);
      } else {
        DisableAlarm(clock);
      }
      status := S_OK;
    }

    /** The reply is the last time set and whether the last switch was an enable. */
    method ReadAlarm(clock: nat) returns (r: Option<(u64, bool)>)
      requires AlarmsInv(Model())
      ensures r.Some? <==> haveAlarm && HasAlarm(Model(), clock)
      ensures r.Some? ==> r.value == (clocks[clock].value.alarmTime, clocks[clock].value.enabled)
      ensures r.Some? ==> r.value == (LastTime(log, clock), Armed(log, clock))
    {
      if !haveAlarm || clock >= |clocks| || clocks[clock].None? {
        return None;
      }
      assert ClockOk(Model(), clock, false);
      r := Some((clocks[clock].value.alarmTime, clocks[clock].value.enabled));
    }

    method ProcessAlarmBuffer()
      modifies this
      ensures Model() == After(old(Model()), PushBuffer)
      ensures haveAlarm ==> alarmNotifBuffers == old(alarmNotifBuffers) + [old(pushed)] && pushed == old(pushed) + 1
    {
      if haveAlarm {
        alarmNotifBuffers := alarmNotifBuffers + [pushed];
        log := log + [Pushed(pushed)];
        pushed := pushed + 1;
      }
    }

    /** A worker whose sleep is over reads its token. */
    method WakeAndCheckToken(w: nat)
      requires w < |workers| && workers[w].pc == Sleeping && workers[w].due <= now
      modifies this`workers
      ensures Model() == After(old(Model()), CheckToken(w))
      ensures workers[w].pc == if old(workers)[w].obsolete then Done else Checked
    {
      if workers[w].obsolete {
        workers := workers[w := workers[w].(pc := Done)];
      } else {
        workers := workers[w := workers[w].(pc := Checked)];
      }
    }

    /** One stay of a worker inside the lock, from entering it or being woken to leaving it or waiting. */
    method WorkerSection(w: nat, writeSucceeds: bool)
      requires w < |workers| && workers[w].pc in {Checked, Waiting}
      modifies this
      ensures Model() == After(old(Model()), EnterSection(w, writeSucceeds))
      ensures var c := old(workers)[w].clock;
              var on := c < |old(clocks)| && old(clocks)[c].Some? && old(clocks)[c].value.enabled;
              && workers[w].pc == (if !on then Done else if old(alarmNotifBuffers) == [] then Waiting else Fired)
              && (workers[w].pc == Fired ==> old(alarmNotifBuffers) == alarmNotifBuffers + [log[|log| - 1].buf])
              && (workers[w].pc != Fired ==> old(alarmNotifBuffers) == alarmNotifBuffers)
    {
      var clock := workers[w].clock;
      if !(clock < |clocks| && clocks[clock].Some? && clocks[clock].value.enabled) {
        workers := workers[w := workers[w].(pc := Done)];
        return;
      }
      if |alarmNotifBuffers| == 0 {
        workers := workers[w := workers[w].(pc := Waiting)];
        return;
      }
      var last := |alarmNotifBuffers| - 1;
      var buf := alarmNotifBuffers[last];
      alarmNotifBuffers := alarmNotifBuffers[..last];
      workers := workers[w := workers[w].(pc := Fired)];
      log := log + [Popped(clock, w, buf, now, writeSucceeds)];
    }
  }
}
