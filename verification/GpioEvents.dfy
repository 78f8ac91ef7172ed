/** The interrupt protocol of vhost-device-gpio (section 5.18 of VIRTIO v1.2).

    One backend thread handles both queues. It takes the event buffers of the queue in batches and works
    through a batch in order; every armed buffer gets a waiter thread. The backend holds the `handles` lock
    from looking at a line's slot to storing the new waiter in it, and a waiter takes the lock to clear its
    slot. An error returned from a queue ends the backend's event loop, and so does a panic. Device answers are
    parameters of the actions. */
module GpioEvents {
  import opened Common

  const IRQ_NONE: u16 := 0x00
  const IRQ_ALL: u16 := 0x0F

  const SIZE_OF_REQUEST := 2
  const SIZE_OF_RESPONSE := 1

  datatype IrqStatus = Invalid | Valid

  datatype Descriptor = Descriptor(writeOnly: bool, len: u32)

  /** An event buffer as the guest submits it; `request` is what reading its first descriptor gives. */
  datatype Buffer = Buffer(descriptors: seq<Descriptor>, request: Option<u16>)

  datatype EventError =
    | UnexpectedDescriptorCount(count: nat)
    | UnexpectedWriteOnlyDescriptor(index: nat)
    | UnexpectedReadableDescriptor(index: nat)
    | UnexpectedDescriptorSize(expected: nat, found: u32)
    | DescriptorReadFailed

  /** `Died`: found the lock poisoned. */
  datatype Pc = Listening | Answered | Cleared | Died

  datatype Waiter = Waiter(line: nat, buf: nat, pc: Pc)

  /** `Working`: between two buffers of a batch. `Holding` and `Spawned` own the `handles` lock. `Dead` says
      whether a panic poisoned it. */
  datatype Backend =
    | Idle
    | Working
    | Holding(line: nat, buf: nat)
    | Spawned(line: nat, waiter: nat)
    | Dead(poisoned: bool)

  /** `received` is every buffer that left the queue, in order; the backend has got to the first `reached` of
      them. */
  datatype State = State(
    irq: seq<u16>,
    slots: seq<Option<nat>>,
    backend: Backend,
    waiters: seq<Waiter>,
    received: seq<Buffer>,
    reached: nat,
    answers: seq<(nat, IrqStatus)>)

  /** `FailRequest`: a malformed request makes the request queue return an error. */
  datatype Action =
    | TakeBatch(batch: seq<Buffer>)
    | NextBuffer
    | Decide
    | StoreHandle
    | SetIrqType(line: nat, value: u32, accepted: bool)
    | FailRequest
    | Answer(waiter: nat, interrupted: bool)
    | Clear(waiter: nat)

  /** The error is true of the buffer. */
  ghost predicate ErrorHolds(b: Buffer, error: EventError) {
    match error
    case UnexpectedDescriptorCount(count) => count == |b.descriptors| != 2
    case UnexpectedWriteOnlyDescriptor(i) => i == 0 < |b.descriptors| && b.descriptors[0].writeOnly
    case UnexpectedReadableDescriptor(i) => i == 1 < |b.descriptors| && !b.descriptors[1].writeOnly
    case UnexpectedDescriptorSize(expected, found) =>
      && |b.descriptors| == 2
      && (if expected == 2 then found == b.descriptors[0].len != 2
          else expected == 1 && found == b.descriptors[1].len != 1)
    case DescriptorReadFailed => b.request == None
  }

  /** The line a buffer names, if it is well formed. */
  function CheckBuffer(b: Buffer): (line: Result<u16, EventError>)
    ensures line.Ok? <==>
            && |b.descriptors| == 2 && !b.descriptors[0].writeOnly && b.descriptors[1].writeOnly
            && b.descriptors[0].len == 2 && b.descriptors[1].len == 1
            && b.request.Some?
    ensures line.Ok? ==> b.request == Some(line.value)
    ensures line.Err? ==> ErrorHolds(b, line.error)
  {
    if |b.descriptors| != 2 then Err(UnexpectedDescriptorCount(|b.descriptors|))
    else if b.descriptors[0].writeOnly then Err(UnexpectedWriteOnlyDescriptor(0))
    else if b.descriptors[0].len != SIZE_OF_REQUEST then Err(UnexpectedDescriptorSize(SIZE_OF_REQUEST, b.descriptors[0].len))
    else if b.request.None? then Err(DescriptorReadFailed)
    else if !b.descriptors[1].writeOnly then Err(UnexpectedReadableDescriptor(1))
    else if b.descriptors[1].len != SIZE_OF_RESPONSE then Err(UnexpectedDescriptorSize(SIZE_OF_RESPONSE, b.descriptors[1].len))
    else Ok(b.request.value)
  }

  /** Malformed, or for a line past the end. */
  predicate Bad(b: Buffer, lines: nat) {
    CheckBuffer(b).Err? || CheckBuffer(b).value >= lines
  }

  /** `Panicked`: the line is past the end, which ends the backend thread. */
  datatype IrqError = TypeInvalid | NoChange | OldTypeValid | DeviceRefused | Panicked

  /** The 32-bit request value is cut to 16 bits; a set type is only left through NONE. */
  function IrqVerdict(current: u16, value: u32, accepted: bool): (r: Result<u16, IrqError>) {
    var irqType := value % (U16_MAX + 1);
    if irqType > IRQ_ALL then Err(TypeInvalid)
    else if irqType == current then Err(NoChange)
    else if current != IRQ_NONE && irqType != IRQ_NONE then Err(OldTypeValid)
    else if !accepted then Err(DeviceRefused)
    else Ok(irqType)
  }

  predicate Armed(s: State, line: nat) {
    line < |s.irq| && s.irq[line] != IRQ_NONE
  }

  predicate Refuses(s: State, line: nat) {
    !Armed(s, line) || (line < |s.slots| && s.slots[line].Some?)
  }

  predicate Listens(s: State, w: nat) {
    w < |s.waiters| && s.waiters[w].pc == Listening
  }

  predicate MayClear(s: State, w: nat) {
    w < |s.waiters| && s.waiters[w].pc == Answered && !LockHeld(s)
  }

  function SetPc(s: State, w: nat, pc: Pc): (t: State)
    requires w < |s.waiters|
  {
    s.(waiters := s.waiters[w := s.waiters[w].(pc := pc)])
  }

  /** The next buffer of the batch: a malformed one is an error, which ends the loop; a line past the end
      panics while the lock is held, which poisons it. */
  function AfterNext(s: State): (t: State)
    requires s.backend.Working?
  {
    if s.reached >= |s.received| then s.(backend := Idle)
    else
      match CheckBuffer(s.received[s.reached])
      case Err(_) => s.(backend := Dead(false))
      case Ok(line) =>
        if line < |s.slots| then s.(reached := s.reached + 1, backend := Holding(line, s.reached))
        else s.(backend := Dead(true))
  }

  /** Refused buffers are answered at once; for the others a waiter is spawned. */
  function AfterDecide(s: State): (t: State)
    requires s.backend.Holding?
  {
    var line, buf := s.backend.line, s.backend.buf;
    if Refuses(s, line) then s.(backend := Working, answers := s.answers + [(buf, Invalid)])
    else s.(backend := Spawned(line, |s.waiters|), waiters := s.waiters + [Waiter(line, buf, Listening)])
  }

  function AfterAnswer(s: State, w: nat, interrupted: bool): (t: State)
    requires Listens(s, w)
  {
    SetPc(s, w, Answered).(answers := s.answers + [(s.waiters[w].buf, if interrupted then Valid else Invalid)])
  }

  function AfterClear(s: State, w: nat): (t: State)
    requires MayClear(s, w)
  {
    var line := s.waiters[w].line;
    if s.backend == Dead(true) then SetPc(s, w, Died)
    else SetPc(s, w, Cleared).(slots := if line < |s.slots| then s.slots[line := None] else s.slots)
  }

  function AfterSetIrq(s: State, line: nat, value: u32, accepted: bool): (t: State) {
    if value % (U16_MAX + 1) > IRQ_ALL then s
    else if line >= |s.irq| then s.(backend := Dead(false))
    else
      var verdict := IrqVerdict(s.irq[line], value, accepted);
      if verdict.Ok? then s.(irq := s.irq[line := verdict.value]) else s
  }

  function After(s: State, a: Action): (t: State) {
    match a
    case TakeBatch(batch) =>
      if s.backend.Idle? then s.(received := s.received + batch, backend := Working) else s
    case NextBuffer => if s.backend.Working? then AfterNext(s) else s
    case Decide => if s.backend.Holding? then AfterDecide(s) else s
    case StoreHandle =>
      if s.backend.Spawned? && s.backend.line < |s.slots|
      then s.(backend := Working, slots := s.slots[s.backend.line := Some(s.backend.waiter)])
      else s
    case SetIrqType(line, value, accepted) => if s.backend.Idle? then AfterSetIrq(s, line, value, accepted) else s
    case FailRequest => if s.backend.Idle? then s.(backend := Dead(false)) else s
    case Answer(w, interrupted) => if Listens(s, w) then AfterAnswer(s, w, interrupted) else s
    case Clear(w) => if MayClear(s, w) then AfterClear(s, w) else s
  }

  predicate LockHeld(s: State) {
    s.backend.Holding? || s.backend.Spawned?
  }

  predicate Initial(s: State) {
    && |s.irq| == |s.slots|
    && (forall i | 0 <= i < |s.irq| :: s.irq[i] == IRQ_NONE && s.slots[i] == None)
    && s.backend == Idle && s.waiters == [] && s.received == [] && s.reached == 0 && s.answers == []
  }

  function Run(s: State, actions: seq<Action>): (end: State) {
    if actions == [] then s else After(Run(s, actions[..|actions| - 1]), actions[|actions| - 1])
  }

  // ----- What each action does, field by field -----

  /** The whole queue is received, in order, behind what was received before. */
  lemma TakeBatchExactly(s: State, batch: seq<Buffer>)
    requires s.backend == Idle
    ensures var t := After(s, TakeBatch(batch));
            && t.received == s.received + batch && t.backend == Working && t.reached == s.reached
            && t.irq == s.irq && t.slots == s.slots && t.waiters == s.waiters && t.answers == s.answers
  {
  }

  /** A good buffer is held under the lock; a bad one ends the backend, and a line past the end poisons. */
  lemma NextBufferExactly(s: State)
    requires s.backend == Working
    ensures var t, k := After(s, NextBuffer), s.reached;
            && (k >= |s.received| ==> t.backend == Idle && t.reached == k)
            && (k < |s.received| ==>
                  match CheckBuffer(s.received[k])
                  case Err(_) => t.backend == Dead(false) && t.reached == k
                  case Ok(line) =>
                    if line < |s.slots| then t.backend == Holding(line, k) && t.reached == k + 1
                    else t.backend == Dead(true) && t.reached == k)
            && t.irq == s.irq && t.slots == s.slots && t.waiters == s.waiters && t.answers == s.answers
            && t.received == s.received
  {
    hide CheckBuffer;
  }

  /** An armed line without a waiter gets one and no answer; any other buffer is answered Invalid at once. */
  lemma DecideExactly(s: State)
    requires s.backend.Holding?
    ensures var t, line, buf := After(s, Decide), s.backend.line, s.backend.buf;
            && (if line < |s.irq| && s.irq[line] != 0 && (line < |s.slots| ==> s.slots[line] == None) then
                  && t.waiters == s.waiters + [Waiter(line, buf, Listening)] && t.answers == s.answers
                  && t.backend == Spawned(line, |s.waiters|)
                else
                  && t.answers == s.answers + [(buf, Invalid)] && t.waiters == s.waiters && t.backend == Working)
            && t.irq == s.irq && t.slots == s.slots && t.received == s.received && t.reached == s.reached
  {
  }

  /** The waiter's handle goes into the slot of its line, and the lock is released. */
  lemma StoreHandleExactly(s: State)
    requires s.backend.Spawned? && s.backend.line < |s.slots|
    ensures var t := After(s, StoreHandle);
            && |t.slots| == |s.slots| && t.backend == Working
            && (forall i | 0 <= i < |s.slots| ::
                  t.slots[i] == if i == s.backend.line then Some(s.backend.waiter) else s.slots[i])
            && t.irq == s.irq && t.waiters == s.waiters && t.answers == s.answers
            && t.received == s.received && t.reached == s.reached
  {
  }

  /** A waiter answers its own buffer, Valid exactly on an interrupt. */
  lemma AnswerExactly(s: State, w: nat, interrupted: bool)
    requires w < |s.waiters| && s.waiters[w].pc == Listening
    ensures var t := After(s, Answer(w, interrupted));
            && t.answers == s.answers + [(s.waiters[w].buf, if interrupted then Valid else Invalid)]
            && |t.waiters| == |s.waiters| && t.waiters[w] == s.waiters[w].(pc := Answered)
            && (forall v | 0 <= v < |s.waiters| && v != w :: t.waiters[v] == s.waiters[v])
            && t.irq == s.irq && t.slots == s.slots && t.backend == s.backend
            && t.received == s.received && t.reached == s.reached
  {
  }

  /** An answered waiter empties the slot of its line once the lock is free, or finds the lock poisoned. */
  lemma ClearExactly(s: State, w: nat)
    requires w < |s.waiters| && s.waiters[w].pc == Answered
    ensures var t := After(s, Clear(w));
            if s.backend.Holding? || s.backend.Spawned? then t == s
            else
              && |t.waiters| == |s.waiters|
              && t.waiters[w] == s.waiters[w].(pc := if s.backend == Dead(true) then Died else Cleared)
              && (forall v | 0 <= v < |s.waiters| && v != w :: t.waiters[v] == s.waiters[v])
              && |t.slots| == |s.slots|
              && (forall i | 0 <= i < |s.slots| ::
                    t.slots[i] == if i == s.waiters[w].line && s.backend != Dead(true) then None else s.slots[i])
              && t.irq == s.irq && t.answers == s.answers && t.backend == s.backend
              && t.received == s.received && t.reached == s.reached
  {
  }

  /** The type is the low half of the value, from 0 to 15; it changes from or to none only. */
  lemma SetIrqTypeExactly(s: State, line: nat, value: u32, accepted: bool)
    requires s.backend == Idle
    ensures var t, irqType := After(s, SetIrqType(line, value, accepted)), value % 0x1_0000;
            && |t.irq| == |s.irq|
            && (forall i | 0 <= i < |s.irq| ::
                  t.irq[i] == if i == line && irqType <= 15 && accepted && (s.irq[i] == 0 || irqType == 0)
                              then irqType else s.irq[i])
            && t.backend == (if irqType <= 15 && line >= |s.irq| then Dead(false) else Idle)
            && t.slots == s.slots && t.waiters == s.waiters && t.answers == s.answers
            && t.received == s.received && t.reached == s.reached
  {
  }

  /** A buffer held for an armed line without a waiter gets one, which is stored and answers it. */
  lemma ArmedBufferIsAnswered(s: State, interrupted: bool)
    requires s.backend.Holding? && s.backend.line < |s.irq| == |s.slots|
    requires s.irq[s.backend.line] != 0 && s.slots[s.backend.line] == None
    ensures var line, buf, n := s.backend.line, s.backend.buf, |s.waiters|;
            var t := Run(s, [Decide, StoreHandle, Answer(n, interrupted)]);
            && t.slots == s.slots[line := Some(n)] && t.backend == Working
            && t.waiters == s.waiters + [Waiter(line, buf, Answered)]
            && t.answers == s.answers + [(buf, if interrupted then Valid else Invalid)]
  {
    assert Run(s, []) == s;
    hide Run, After;
    var n := |s.waiters|;
    var actions, t := Extend(s, [], s, Decide);
    DecideExactly(s);
    var spawned := t;
    actions, t := Extend(s, actions, t, StoreHandle);
    StoreHandleExactly(spawned);
    var stored := t;
    actions, t := Extend(s, actions, t, Answer(n, interrupted));
    AnswerExactly(stored, n, interrupted);
    assert actions == [Decide, StoreHandle, Answer(n, interrupted)];
    assert t.waiters == s.waiters + [Waiter(s.backend.line, s.backend.buf, Answered)];
    assert t.slots == s.slots[s.backend.line := Some(n)];
  }

  /** From the start: a line is armed, its buffer gets a waiter and is answered Valid on the interrupt. */
  lemma InterruptIsReported(s: State) returns (actions: seq<Action>)
    requires s == State([IRQ_NONE], [None], Idle, [], [], 0, [])
    ensures Initial(s)
    ensures var e := Run(s, actions);
            && e.irq == [1] && e.slots == [None] && e.backend == Working
            && e.waiters == [Waiter(0, 0, Cleared)] && e.answers == [(0, Valid)]
  {
    assert Run(s, []) == s;
    hide Run, After, CheckBuffer, EventBuffer;
    var e;
    actions, e := Extend(s, [], s, SetIrqType(0, 1, true));
    SetIrqTypeExactly(s, 0, 1, true);
    assert e == s.(irq := [1]);
    actions, e := Extend(s, actions, e, TakeBatch([EventBuffer(0)]));
    TakeBatchExactly(s.(irq := [1]), [EventBuffer(0)]);
    assert e == State([1], [None], Working, [], [EventBuffer(0)], 0, []);
    NextBufferExactly(e);
    actions, e := Extend(s, actions, e, NextBuffer);
    assert e == State([1], [None], Holding(0, 0), [], [EventBuffer(0)], 1, []);
    actions := ReportInterrupt(s, actions, e);
  }

  lemma ReportInterrupt(s: State, actions: seq<Action>, e: State) returns (longer: seq<Action>)
    requires Run(s, actions) == e == State([1], [None], Holding(0, 0), [], [EventBuffer(0)], 1, [])
    ensures var t := Run(s, longer);
            && t.irq == [1] && t.slots == [None] && t.backend == Working
            && t.waiters == [Waiter(0, 0, Cleared)] && t.answers == [(0, Valid)]
  {
    hide Run, CheckBuffer, EventBuffer;
    var t := e;
    longer := actions;
    longer, t := Extend(s, longer, t, Decide);
    longer, t := Extend(s, longer, t, StoreHandle);
    assert t == State([1], [Some(0)], Working, [Waiter(0, 0, Listening)], [EventBuffer(0)], 1, []);
    longer, t := Extend(s, longer, t, Answer(0, true));
    longer, t := Extend(s, longer, t, Clear(0));
  }

  // ----- One waiter per line -----

  predicate Uncleared(s: State, w: nat) {
    w < |s.waiters| && s.waiters[w].pc != Cleared
  }

  /** A stored waiter is uncleared and of that line. */
  ghost predicate LineOk(s: State, line: nat)
    requires line < |s.slots|
  {
    s.slots[line].Some? ==>
      Uncleared(s, s.slots[line].value) && s.waiters[s.slots[line].value].line == line
  }

  /** An uncleared waiter is stored in its line's slot, or about to be. */
  ghost predicate WaiterOk(s: State, w: nat)
    requires w < |s.waiters|
  {
    var line := s.waiters[w].line;
    Uncleared(s, w) ==> line < |s.slots| && (s.slots[line] == Some(w) || s.backend == Spawned(line, w))
  }

  ghost predicate BackendOk(s: State) {
    && (LockHeld(s) ==> s.backend.line < |s.slots|)
    && (s.backend.Spawned? ==>
          && Uncleared(s, s.backend.waiter) && s.waiters[s.backend.waiter].line == s.backend.line
          && s.slots[s.backend.line] == None)
  }

  ghost predicate SlotsInv(s: State) {
    && |s.irq| == |s.slots|
    && BackendOk(s)
    && (forall line | 0 <= line < |s.slots| :: LineOk(s, line))
    && (forall w | 0 <= w < |s.waiters| :: WaiterOk(s, w))
  }

  lemma ClearKeepsSlots(s: State, v: nat)
    requires SlotsInv(s) && MayClear(s, v)
    ensures SlotsInv(AfterClear(s, v))
  {
    var t := AfterClear(s, v);
    assert WaiterOk(s, v);
    forall line | 0 <= line < |t.slots|
      ensures LineOk(t, line)
    {
      assert LineOk(s, line);
    }
    forall w | 0 <= w < |t.waiters|
      ensures WaiterOk(t, w)
    {
      assert WaiterOk(s, w);
    }
  }

  lemma StepKeepsSlots(s: State, a: Action)
    requires SlotsInv(s)
    ensures SlotsInv(After(s, a))
  {
    hide AfterClear, IrqVerdict, CheckBuffer;
    if a.Clear? {
      if MayClear(s, a.waiter) {
        ClearKeepsSlots(s, a.waiter);
      }
    } else {
      var t := After(s, a);
      forall line | 0 <= line < |t.slots|
        ensures LineOk(t, line)
      {
        assert LineOk(s, line);
      }
      forall w | 0 <= w < |t.waiters|
        ensures WaiterOk(t, w)
      {
        assert w < |s.waiters| ==> WaiterOk(s, w);
      }
    }
  }

  lemma {:induction false} RunKeepsSlots(s: State, actions: seq<Action>)
    requires Initial(s)
    ensures SlotsInv(Run(s, actions))
  {
    if actions == [] {
    } else {
      RunKeepsSlots(s, actions[..|actions| - 1]);
      StepKeepsSlots(Run(s, actions[..|actions| - 1]), actions[|actions| - 1]);
    }
  }

  /** In every interleaving, outside the stretch between spawning and storing, a slot holds a waiter exactly
      while that waiter has not cleared it. */
  lemma SlotHoldsUnclearedWaiter(s: State, actions: seq<Action>, line: nat, w: nat)
    requires Initial(s) && line < |s.slots|
    requires var e := Run(s, actions); !(e.backend.Spawned? && e.backend.line == line)
    ensures var e := Run(s, actions);
            && |e.slots| == |s.slots|
            && (e.slots[line] == Some(w) <==> Uncleared(e, w) && e.waiters[w].line == line)
  {
    RunKeepsSlots(s, actions);
    RunKeepsLines(s, actions);
    var e := Run(s, actions);
    assert LineOk(e, line);
    assert w < |e.waiters| ==> WaiterOk(e, w);
  }

  lemma {:induction false} RunKeepsLines(s: State, actions: seq<Action>)
    ensures |Run(s, actions).slots| == |s.slots| && |Run(s, actions).irq| == |s.irq|
  {
    hide After;
    if actions == [] {
    } else {
      RunKeepsLines(s, actions[..|actions| - 1]);
      StepKeepsLines(Run(s, actions[..|actions| - 1]), actions[|actions| - 1]);
    }
  }

  lemma StepKeepsLines(s: State, a: Action)
    ensures |After(s, a).slots| == |s.slots| && |After(s, a).irq| == |s.irq|
  {
  }

  /** At no time do two uncleared waiters share a line. */
  lemma OneWaiterPerLine(s: State, actions: seq<Action>, v: nat, w: nat)
    requires Initial(s)
    requires Uncleared(Run(s, actions), v) && Uncleared(Run(s, actions), w)
    requires Run(s, actions).waiters[v].line == Run(s, actions).waiters[w].line
    ensures v == w
  {
    RunKeepsSlots(s, actions);
    assert WaiterOk(Run(s, actions), v) && WaiterOk(Run(s, actions), w);
  }

  // ----- Every buffer is answered at most once -----

  ghost function AnsweredBufs(answers: seq<(nat, IrqStatus)>): (bufs: multiset<nat>) {
    if answers == [] then multiset{}
    else AnsweredBufs(answers[..|answers| - 1]) + multiset{answers[|answers| - 1].0}
  }

  ghost function ListeningBufs(waiters: seq<Waiter>): (bufs: multiset<nat>) {
    if waiters == [] then multiset{}
    else
      var last := waiters[|waiters| - 1];
      ListeningBufs(waiters[..|waiters| - 1]) + if last.pc == Listening then multiset{last.buf} else multiset{}
  }

  ghost function HeldBuf(b: Backend): (bufs: multiset<nat>) {
    if b.Holding? then multiset{b.buf} else multiset{}
  }

  ghost predicate BuffersInv(s: State) {
    AnsweredBufs(s.answers) + ListeningBufs(s.waiters) + HeldBuf(s.backend) == Upto(s.reached)
  }

  lemma AnswersExtend(answers: seq<(nat, IrqStatus)>, a: (nat, IrqStatus))
    ensures AnsweredBufs(answers + [a]) == AnsweredBufs(answers) + multiset{a.0}
  {
    assert (answers + [a])[..|answers|] == answers;
  }

  lemma WaitersExtend(waiters: seq<Waiter>, w: Waiter)
    requires w.pc == Listening
    ensures ListeningBufs(waiters + [w]) == ListeningBufs(waiters) + multiset{w.buf}
  {
    assert (waiters + [w])[..|waiters|] == waiters;
  }

  lemma {:induction false} WaiterStops(waiters: seq<Waiter>, w: nat, pc: Pc)
    requires w < |waiters| && pc != Listening
    ensures var after := waiters[w := waiters[w].(pc := pc)];
            ListeningBufs(waiters) == ListeningBufs(after) + if waiters[w].pc == Listening then multiset{waiters[w].buf} else multiset{}
  {
    var n := |waiters| - 1;
    var after := waiters[w := waiters[w].(pc := pc)];
    assert after[n] == if w == n then waiters[w].(pc := pc) else waiters[n];
    if w < n {
      WaiterStops(waiters[..n], w, pc);
      assert after[..n] == waiters[..n][w := waiters[w].(pc := pc)];
    } else {
      assert after[..n] == waiters[..n];
    }
  }

  lemma DecideKeepsBuffers(s: State)
    requires BuffersInv(s) && s.backend.Holding?
    ensures BuffersInv(AfterDecide(s))
  {
    hide AnsweredBufs, ListeningBufs, Upto;
    AnswersExtend(s.answers, (s.backend.buf, Invalid));
    WaitersExtend(s.waiters, Waiter(s.backend.line, s.backend.buf, Listening));
  }

  lemma AnswerKeepsBuffers(s: State, w: nat, interrupted: bool)
    requires BuffersInv(s) && Listens(s, w)
    ensures BuffersInv(AfterAnswer(s, w, interrupted))
  {
    hide AnsweredBufs, ListeningBufs, Upto;
    AnswersExtend(s.answers, (s.waiters[w].buf, if interrupted then Valid else Invalid));
    WaiterStops(s.waiters, w, Answered);
  }

  lemma ClearKeepsBuffers(s: State, w: nat)
    requires BuffersInv(s) && MayClear(s, w)
    ensures BuffersInv(AfterClear(s, w))
  {
    hide AnsweredBufs, ListeningBufs, Upto;
    WaiterStops(s.waiters, w, Cleared);
    WaiterStops(s.waiters, w, Died);
  }

  lemma NextKeepsBuffers(s: State)
    requires BuffersInv(s) && s.backend.Working?
    ensures BuffersInv(AfterNext(s))
  {
    hide AnsweredBufs, ListeningBufs, Upto, CheckBuffer;
    var t := AfterNext(s);
    assert t.answers == s.answers && t.waiters == s.waiters;
    if t.backend.Holding? {
      TakenInHand(s, t.backend.line);
    }
  }

  lemma TakenInHand(s: State, line: nat)
    requires BuffersInv(s) && s.backend.Working?
    ensures BuffersInv(s.(reached := s.reached + 1, backend := Holding(line, s.reached)))
  {
    hide AnsweredBufs, ListeningBufs;
    var done := AnsweredBufs(s.answers) + ListeningBufs(s.waiters);
    assert done + HeldBuf(s.backend) == done;
    assert Upto(s.reached + 1) == Upto(s.reached) + multiset{s.reached};
  }

  lemma SetIrqKeepsBuffers(s: State, line: nat, value: u32, accepted: bool)
    requires BuffersInv(s) && s.backend.Idle?
    ensures BuffersInv(AfterSetIrq(s, line, value, accepted))
  {
    hide AnsweredBufs, ListeningBufs, Upto, IrqVerdict;
  }

  lemma StepKeepsBuffers(s: State, a: Action)
    requires BuffersInv(s)
    ensures BuffersInv(After(s, a))
  {
    hide AnsweredBufs, ListeningBufs, Upto, AfterNext, AfterDecide, AfterAnswer, AfterClear, AfterSetIrq;
    match a
    case TakeBatch(_) =>
    case NextBuffer =>
      if s.backend.Working? {
        NextKeepsBuffers(s);
      }
    case Decide =>
      if s.backend.Holding? {
        DecideKeepsBuffers(s);
      }
    case StoreHandle =>
    case SetIrqType(line, value, accepted) =>
      if s.backend.Idle? {
        SetIrqKeepsBuffers(s, line, value, accepted);
      }
    case FailRequest =>
    case Answer(w, interrupted) =>
      if Listens(s, w) {
        AnswerKeepsBuffers(s, w, interrupted);
      }
    case Clear(w) =>
      if MayClear(s, w) {
        ClearKeepsBuffers(s, w);
      }
  }

  // ----- Which buffers are lost -----

  /** Nothing will happen to the buffer any more: the backend ended before it got to it. */
  predicate Lost(s: State, k: nat) {
    s.backend.Dead? && s.reached <= k < |s.received|
  }

  /** The buffers the backend got to were good; it ends within a batch only at a bad one. */
  ghost predicate BatchInv(s: State) {
    && s.reached <= |s.received|
    && (s.backend.Idle? ==> s.reached == |s.received|)
    && (forall k | 0 <= k < s.reached :: !Bad(s.received[k], |s.slots|))
    && (s.backend.Dead? && s.reached < |s.received| ==> Bad(s.received[s.reached], |s.slots|))
  }

  lemma StepKeepsBatch(s: State, a: Action)
    requires BatchInv(s)
    ensures BatchInv(After(s, a))
  {
    hide CheckBuffer, IrqVerdict;
  }

  lemma {:induction false} RunKeepsBatch(s: State, actions: seq<Action>)
    requires Initial(s)
    ensures BatchInv(Run(s, actions))
  {
    hide After;
    if actions == [] {
    } else {
      RunKeepsBatch(s, actions[..|actions| - 1]);
      StepKeepsBatch(Run(s, actions[..|actions| - 1]), actions[|actions| - 1]);
    }
  }

  /** Every received buffer is in exactly one place: answered once, with a listening waiter, in the backend's
      hands, further on in the batch it works on, or lost. */
  lemma {:induction false} BuffersAnsweredAtMostOnce(s: State, actions: seq<Action>, b: nat)
    requires Initial(s)
    ensures var e := Run(s, actions);
            && BuffersInv(e)
            && AnsweredBufs(e.answers)[b] + ListeningBufs(e.waiters)[b] + HeldBuf(e.backend)[b]
               == (if b < e.reached then 1 else 0)
            && (e.reached <= b < |e.received| ==> Lost(e, b) || e.backend.Working? || LockHeld(e))
  {
    RunKeepsBatch(s, actions);
    if actions == [] {
    } else {
      BuffersAnsweredAtMostOnce(s, actions[..|actions| - 1], b);
      StepKeepsBuffers(Run(s, actions[..|actions| - 1]), actions[|actions| - 1]);
    }
    UptoOnce(Run(s, actions).reached, b);
  }

  /** Whatever happens after a batch was taken: once the backend is done with it, a buffer of the batch is
      lost exactly when it or one before it in the batch is malformed or names a line past the end. */
  lemma LostExactly(s: State, before: seq<Action>, batch: seq<Buffer>, rest: seq<Action>, k: nat)
    requires Initial(s) && Run(s, before).backend.Idle? && k < |batch|
    requires var e := Run(s, before + [TakeBatch(batch)] + rest); e.backend.Idle? || e.backend.Dead?
    ensures var first := |Run(s, before).received|;
            Lost(Run(s, before + [TakeBatch(batch)] + rest), first + k)
            <==> exists j :: 0 <= j <= k && Bad(batch[j], |s.slots|)
  {
    hide After, Bad;
    var d, e := Run(s, before), Run(s, before + [TakeBatch(batch)] + rest);
    RunAppends(s, before + [TakeBatch(batch)], rest);
    RunOneMore(s, before, TakeBatch(batch));
    RunKeepsBatch(s, before);
    RunKeepsBatch(s, before + [TakeBatch(batch)] + rest);
    RunKeepsLines(s, before);
    RunKeepsLines(s, before + [TakeBatch(batch)] + rest);
    BatchTaken(d, batch);
    ReceivedGrows(After(d, TakeBatch(batch)), rest);
    FirstBadEnds(d, e, batch, k);
  }

  lemma BatchTaken(s: State, batch: seq<Buffer>)
    requires s.backend.Idle?
    ensures After(s, TakeBatch(batch)).received == s.received + batch
  {
  }

  lemma FirstBadEnds(d: State, e: State, batch: seq<Buffer>, k: nat)
    requires BatchInv(d) && BatchInv(e) && d.backend.Idle? && (e.backend.Idle? || e.backend.Dead?)
    requires d.received + batch <= e.received && |d.slots| == |e.slots| && k < |batch|
    ensures Lost(e, |d.received| + k) <==> exists j :: 0 <= j <= k && Bad(batch[j], |d.slots|)
  {
    hide Bad;
    var first := |d.received|;
    assert forall i | 0 <= i < first :: e.received[i] == d.received[i];
    assert forall j | 0 <= j < |batch| :: e.received[first + j] == batch[j];
    if Lost(e, first + k) {
      assert Bad(e.received[e.reached], |d.slots|);
      assert e.reached >= first;
      assert Bad(batch[e.reached - first], |d.slots|);
    }
  }

  lemma RunOneMore(s: State, actions: seq<Action>, a: Action)
    ensures Run(s, actions + [a]) == After(Run(s, actions), a)
  {
    assert (actions + [a])[..|actions|] == actions;
  }

  lemma {:induction false} RunAppends(s: State, first: seq<Action>, rest: seq<Action>)
    ensures Run(s, first + rest) == Run(Run(s, first), rest)
  {
    hide After;
    if rest == [] {
      assert first + rest == first;
    } else {
      var n := |rest| - 1;
      assert (first + rest)[..|first + rest| - 1] == first + rest[..n];
      RunAppends(s, first, rest[..n]);
    }
  }

  lemma {:induction false} ReceivedGrows(s: State, actions: seq<Action>)
    ensures s.received <= Run(s, actions).received
  {
    hide After;
    if actions == [] {
    } else {
      ReceivedGrows(s, actions[..|actions| - 1]);
      StepReceives(Run(s, actions[..|actions| - 1]), actions[|actions| - 1]);
    }
  }

  lemma StepReceives(s: State, a: Action)
    ensures s.received <= After(s, a).received
  {
    hide CheckBuffer, IrqVerdict;
  }

  /** After an error or a panic only the waiters go on: they answer, and clear their slots unless the lock is
      poisoned. Nothing is received, refused or armed any more. */
  lemma {:induction false} OnlyWaitersGoOn(s: State, rest: seq<Action>)
    requires s.backend.Dead?
    ensures var e := Run(s, rest);
            && e.backend == s.backend && e.received == s.received && e.reached == s.reached && e.irq == s.irq
            && |e.waiters| == |s.waiters| && |e.slots| == |s.slots| && s.answers <= e.answers
            && (forall line | 0 <= line < |s.slots| :: e.slots[line] == s.slots[line] || e.slots[line] == None)
            && (s.backend.poisoned ==> e.slots == s.slots)
  {
    hide After;
    if rest == [] {
    } else {
      OnlyWaitersGoOn(s, rest[..|rest| - 1]);
      DeadStep(Run(s, rest[..|rest| - 1]), rest[|rest| - 1]);
    }
  }

  lemma DeadStep(s: State, a: Action)
    requires s.backend.Dead?
    ensures var t := After(s, a);
            && t.backend == s.backend && t.received == s.received && t.reached == s.reached && t.irq == s.irq
            && |t.waiters| == |s.waiters| && |t.slots| == |s.slots| && s.answers <= t.answers
            && (forall line | 0 <= line < |s.slots| :: t.slots[line] == s.slots[line] || t.slots[line] == None)
            && (s.backend.poisoned ==> t.slots == s.slots)
  {
  }

  function EventBuffer(line: u16): (b: Buffer)
    ensures CheckBuffer(b) == Ok(line)
  {
    Buffer([Descriptor(false, SIZE_OF_REQUEST), Descriptor(true, SIZE_OF_RESPONSE)], Some(line))
  }

  /** A malformed buffer takes the good one behind it along; the one before it is answered. */
  lemma MalformedBufferLosesRest(s: State) returns (actions: seq<Action>)
    requires s == State([IRQ_NONE], [None], Idle, [], [], 0, [])
    ensures Initial(s)
    ensures var e := Run(s, actions);
            && e.received == [EventBuffer(0), Buffer([], None), EventBuffer(0)]
            && e.backend == Dead(false) && e.answers == [(0, Invalid)]
            && Lost(e, 1) && Lost(e, 2)
  {
    assert Run(s, []) == s;
    hide Run;
    var batch := [EventBuffer(0), Buffer([], None), EventBuffer(0)];
    var e := s;
    actions := [];
    actions, e := Extend(s, actions, e, TakeBatch(batch));
    assert e == State([IRQ_NONE], [None], Working, [], batch, 0, []);
    actions, e := Extend(s, actions, e, NextBuffer);
    assert e == State([IRQ_NONE], [None], Holding(0, 0), [], batch, 1, []);
    actions, e := Extend(s, actions, e, Decide);
    actions, e := Extend(s, actions, e, NextBuffer);
  }

  lemma Extend(s: State, actions: seq<Action>, e: State, a: Action) returns (longer: seq<Action>, next: State)
    requires Run(s, actions) == e
    ensures longer == actions + [a] && next == After(e, a) && Run(s, longer) == next
  {
    RunOneMore(s, actions, a);
    longer, next := actions + [a], After(e, a);
  }

  /** A line past the end loses its buffer and the good one behind it, and poisons the lock. */
  lemma LinePastEndLosesRest(s: State) returns (actions: seq<Action>)
    requires s == State([IRQ_NONE], [None], Idle, [], [], 0, [])
    ensures Initial(s)
    ensures var e := Run(s, actions);
            && e.received == [EventBuffer(1), EventBuffer(0)]
            && e.backend == Dead(true) && e.answers == []
            && Lost(e, 0) && Lost(e, 1)
  {
    assert Run(s, []) == s;
    hide Run;
    var e := s;
    actions := [];
    actions, e := Extend(s, actions, e, TakeBatch([EventBuffer(1), EventBuffer(0)]));
    actions, e := Extend(s, actions, e, NextBuffer);
  }

  /** The buffer of a waiter that no longer listens has been answered exactly once. */
  lemma EndedWaiterAnsweredOnce(s: State, actions: seq<Action>, w: nat)
    requires Initial(s)
    requires w < |Run(s, actions).waiters| && Run(s, actions).waiters[w].pc != Listening
    ensures AnsweredBufs(Run(s, actions).answers)[Run(s, actions).waiters[w].buf] == 1
  {
    RunKeepsEnded(s, actions);
    BuffersAnsweredAtMostOnce(s, actions, Run(s, actions).waiters[w].buf);
  }

  ghost predicate EndedInv(s: State) {
    forall w | 0 <= w < |s.waiters| && s.waiters[w].pc != Listening :: s.waiters[w].buf in AnsweredBufs(s.answers)
  }

  lemma StepKeepsEnded(s: State, a: Action)
    requires EndedInv(s)
    ensures EndedInv(After(s, a))
  {
    hide AnsweredBufs;
    if a.Decide? && s.backend.Holding? {
      AnswersExtend(s.answers, (s.backend.buf, Invalid));
    } else if a.Answer? && Listens(s, a.waiter) {
      AnswersExtend(s.answers, (s.waiters[a.waiter].buf, if a.interrupted then Valid else Invalid));
    }
  }

  lemma {:induction false} RunKeepsEnded(s: State, actions: seq<Action>)
    requires Initial(s)
    ensures EndedInv(Run(s, actions))
  {
    hide After, AnsweredBufs;
    if actions == [] {
    } else {
      RunKeepsEnded(s, actions[..|actions| - 1]);
      StepKeepsEnded(Run(s, actions[..|actions| - 1]), actions[|actions| - 1]);
    }
  }

  // ----- Interrupt types -----

  lemma IrqStep(s: State, a: Action, line: nat)
    requires line < |s.irq|
    ensures var t := After(s, a);
            && |t.irq| == |s.irq|
            && (t.irq[line] != s.irq[line] ==> t.irq[line] == IRQ_NONE || s.irq[line] == IRQ_NONE)
  {
  }

  /** Between two different interrupt types of a line there is a moment at which it has none. */
  lemma {:induction false} IrqChangesThroughNone(s: State, actions: seq<Action>, line: nat) returns (k: nat)
    requires line < |s.irq|
    ensures k <= |actions| && line < |Run(s, actions).irq| && line < |Run(s, actions[..k]).irq|
    ensures Run(s, actions).irq[line] != s.irq[line] ==>
              s.irq[line] == IRQ_NONE || Run(s, actions).irq[line] == IRQ_NONE || Run(s, actions[..k]).irq[line] == IRQ_NONE
  {
    hide After;
    k := 0;
    assert actions[..0] == [];
    if actions == [] {
    } else {
      var n := |actions| - 1;
      k := IrqChangesThroughNone(s, actions[..n], line);
      assert actions[..n][..k] == actions[..k];
      IrqStep(Run(s, actions[..n]), actions[n], line);
      if Run(s, actions[..n]).irq[line] == IRQ_NONE {
        k := n;
      }
    }
  }

  // ----- The backend as its threads share it -----

  class GpioBackend {
    var irq: seq<u16>
    var handles: seq<Option<nat>>
    var backend: Backend
    var waiters: seq<Waiter>
    var received: seq<Buffer>
    var reached: nat
    ghost var answers: seq<(nat, IrqStatus)>

    ghost function Model(): (m: State)
      reads this
    {
      State(irq, handles, backend, waiters, received, reached, answers)
    }

    constructor (numGpios: nat)
      ensures Initial(Model()) && |handles| == numGpios
    {
      irq, handles := seq(numGpios, _ => IRQ_NONE), seq(numGpios, _ => None);
      backend, waiters, received, reached := Idle, [], [], 0;
      answers := [];
    }

    /** `process_event_queue`: everything the queue holds is taken off it at once. */
    method TakeBatch(batch: seq<Buffer>)
      requires backend.Idle?
      modifies this
      ensures Model() == After(old(Model()), Action.TakeBatch(batch))
    {
      received := received + batch;
      backend := Working;
    }

    /** `process_events`, one round of the loop up to holding the lock and having indexed the slot. */
    method NextBuffer() returns (r: Result<(), EventError>, panicked: bool)
      requires backend.Working?
      modifies this
      ensures Model() == After(old(Model()), Action.NextBuffer)
      ensures r == if old(reached) < |received| && CheckBuffer(received[old(reached)]).Err?
                   then Err(CheckBuffer(received[old(reached)]).error) else Ok(())
      ensures panicked <==> backend == Dead(true)
      ensures old(reached) < |received| && CheckBuffer(received[old(reached)]).Ok? ==>
                var line := CheckBuffer(received[old(reached)]).value;
                backend == if line < |handles| then Holding(line, old(reached)) else Dead(true)
    {
      r, panicked := Ok(()), false;
      if reached >= |received| {
        backend := Idle;
        return;
      }
      var line := CheckBuffer(received[reached]);
      if line.Err? {
        backend := Dead(false);
        return Err(line.error), false;
      }
      if line.value >= |handles| {
        backend := Dead(true);
        return Ok(()), true;
      }
      backend := Holding(line.value, reached);
      reached := reached + 1;
    }

    /** `process_event`, the decision under the lock: refuse, or spawn a waiter. */
    method RefuseOrSpawn()
      requires backend.Holding? && backend.line < |handles| == |irq|
      modifies this
      ensures Model() == After(old(Model()), Decide)
      ensures var line, buf := old(backend).line, old(backend).buf;
              if irq[line] != 0 && handles[line] == None then
                waiters == old(waiters) + [Waiter(line, buf, Listening)] && answers == old(answers)
              else
                answers == old(answers) + [(buf, Invalid)] && waiters == old(waiters)
    {
      var line, buf := backend.line, backend.buf;
      if irq[line] == IRQ_NONE || handles[line].Some? {
        answers := answers + [(buf, Invalid)];
        backend := Working;
        return;
      }
      backend := Spawned(line, |waiters|);
      waiters := waiters + [Waiter(line, buf, Listening)];
    }

    /** `process_event`, storing the handle and releasing the lock. */
    method StoreWaiter()
      requires backend.Spawned? && backend.line < |handles|
      modifies this
      ensures Model() == After(old(Model()), StoreHandle)
      ensures handles == old(handles)[old(backend).line := Some(old(backend).waiter)] && backend == Working
    {
      handles := handles[backend.line := Some(backend.waiter)];
      backend := Working;
    }

    /** The waiter thread up to sending its answer; needs no lock. */
    method AnswerEvent(w: nat, interrupted: bool)
      requires w < |waiters| && waiters[w].pc == Listening
      modifies this
      ensures Model() == After(old(Model()), Answer(w, interrupted))
      ensures answers == old(answers) + [(old(waiters)[w].buf, if interrupted then Valid else Invalid)]
    {
      answers := answers + [(waiters[w].buf, if interrupted then Valid else Invalid)];
      waiters := waiters[w := waiters[w].(pc := Answered)];
    }

    /** The waiter thread clearing its slot; it can only get here while the backend does not hold the lock. */
    method ClearSlot(w: nat)
      requires w < |waiters| && waiters[w].pc == Answered && !LockHeld(Model())
      modifies this
      ensures Model() == After(old(Model()), Clear(w))
      ensures backend == old(backend)
      ensures backend == Dead(true) ==> handles == old(handles)
      ensures backend != Dead(true) && old(waiters)[w].line < |old(handles)| ==>
                handles == old(handles)[old(waiters)[w].line := None]
    {
      if backend == Dead(true) {
        waiters := waiters[w := waiters[w].(pc := Died)];
        return;
      }
      if waiters[w].line < |handles| {
        handles := handles[waiters[w].line := None];
      }
      waiters := waiters[w := waiters[w].(pc := Cleared)];
    }

    method SetIrqType(line: nat, value: u32, accepted: bool) returns (r: Result<(), IrqError>)
      requires backend.Idle?
      modifies this`irq, this`backend
      ensures Model() == After(old(Model()), Action.SetIrqType(line, value, accepted))
      ensures var irqType := value % 0x1_0000;
              && (r == Err(TypeInvalid) <==> irqType > 15)
              && (r == Err(Panicked) <==> irqType <= 15 && line >= |old(irq)|)
              && (line < |old(irq)| && irqType <= 15 ==>
                    var current := old(irq)[line];
                    && (r == Err(NoChange) <==> irqType == current)
                    && (r == Err(OldTypeValid) <==> irqType != current && irqType != 0 && current != 0)
                    && (r.Ok? <==> irqType != current && (irqType == 0 || current == 0) && accepted)
                    && (r.Ok? ==> irq == old(irq)[line := irqType]))
      ensures r.Err? ==> irq == old(irq)
    {
      var irqType := value % (U16_MAX + 1);
      if irqType > IRQ_ALL {
        return Err(TypeInvalid);
      }
      if line >= |irq| {
        backend := Dead(false);
        return Err(Panicked);
      }
      var previous := irq[line];
      if irqType == previous {
        return Err(NoChange);
      }
      if previous != IRQ_NONE && irqType != IRQ_NONE {
        return Err(OldTypeValid);
      }
      if !accepted {
        return Err(DeviceRefused);
      }
      irq := irq[line := irqType];
      r := Ok(());
    }
  }
}
