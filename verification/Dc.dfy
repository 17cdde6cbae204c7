/** The master's distributed clock (DC) state machine: read the slave's clock every cycle, correct it by the
    measured offset, give up on silence or on too large an offset. */
module Dc {
  import opened Bytes
  import opened Frame
  import opened MasterQueue

  const REG_SYSTEM_TIME := 0x0910
  const REG_SYSTEM_OFFSET := 0x0920

  /** In nanoseconds. */
  const THRESHOLD := 5_000_000

  /** The last number of cycles without an answer that is tolerated. */
  const SILENCE_MAX := 50

  const OFF := 0
  const STARTED := 1
  const RUNNING := 2
  const FAILED := 3

  const ERR_OFFSET := 1
  const ERR_SILENCE := 2

  type State = s: nat | s <= FAILED

  /** Nanoseconds in 64 bits. */
  type Time = t: nat | t < 0x1_0000_0000_0000_0000

  datatype Clock = Clock(state: State, offset: int, timeout: nat, errorCode: nat)

  /** What drives the machine: the tick of the worker thread, and an answer with the slave's time, taken at the
      master's time. */
  datatype Step = Cycle | Response(slave: Time, master: Time)

  datatype Request = ReadTime | Correct(data: seq<u8>)

  datatype Event = Started | Failed(offset: int, code: nat) | Synchronised(offset: int)

  /** The machine after a step, the datagram it queues and the event it posts. */
  datatype Outcome = Outcome(clock: Clock, request: Option<Request>, event: Option<Event>)

  function Initial(): Clock {
    Clock(STARTED, 0, 0, 0)
  }

  function Disabled(): Clock {
    Clock(OFF, 0, 0, 0)
  }

  /** Conversion of 64 unsigned bits to signed ones. */
  function AsInt64(t: Time): (x: int)
    ensures -0x8000_0000_0000_0000 <= x < 0x8000_0000_0000_0000 && (x == t || x == t - 0x1_0000_0000_0000_0000)
  {
    if t < 0x8000_0000_0000_0000 then t else t - 0x1_0000_0000_0000_0000
  }

  function Abs(x: int): nat {
    if x < 0 then -x else x
  }

  /** Conversion of a number to 32 bits in two's complement, least significant byte first. */
  function Signed32Bytes(x: int): (b: seq<u8>)
    ensures |b| == 4
  {
    [x % 0x100, x / 0x100 % 0x100, x / 0x1_0000 % 0x100, x / 0x100_0000 % 0x100]
  }

  /** The number four bytes stand for in two's complement. */
  function Signed32(b: seq<u8>): int
    requires |b| == 4
  {
    var top: int := b[3];
    b[0] + 0x100 * b[1] + 0x1_0000 * b[2] + 0x100_0000 * (if top < 0x80 then top else top - 0x100)
  }

  lemma Signed32RoundTrip(x: int)
    requires -0x8000_0000 <= x < 0x8000_0000
    ensures Signed32(Signed32Bytes(x)) == x
  {
    var a, b, top := x / 0x100, x / 0x1_0000, x / 0x100_0000;
    assert x == x % 0x100 + 0x100 * a;
    assert a / 0x100 == b && a == a % 0x100 + 0x100 * b;
    assert b / 0x100 == top && b == b % 0x100 + 0x100 * top;
    assert top % 0x100 == if top < 0 then top + 0x100 else top;
  }

  function Next(c: Clock, step: Step): Outcome {
    match step
    case Cycle =>
      if c.state == OFF || c.state == FAILED then Outcome(c, None, None)
      else if c.timeout + 1 > SILENCE_MAX then
        Outcome(Clock(FAILED, c.offset, c.timeout + 1, ERR_SILENCE), Some(ReadTime),
                Some(Failed(c.offset, ERR_SILENCE)))
      else Outcome(c.(state := RUNNING, timeout := c.timeout + 1), Some(ReadTime), None)
    case Response(slave, master) =>
      var off := AsInt64(slave) - AsInt64(master);
      if Abs(off) > THRESHOLD then
        Outcome(Clock(FAILED, off, 0, ERR_OFFSET), None, Some(Failed(off, ERR_OFFSET)))
      else Outcome(c.(offset := off, timeout := 0), Some(Correct(Signed32Bytes(-off))), Some(Synchronised(off)))
  }

  /** The machine after the first k steps. */
  function After(c: Clock, steps: seq<Step>, k: nat): Clock
    requires k <= |steps|
  {
    if k == 0 then c else Next(After(c, steps, k - 1), steps[k - 1]).clock
  }

  /** A queued correction is exactly what brings the slave's time to the master's; it is queued exactly when the
      offset is within the threshold, and otherwise the machine fails with the offset. */
  lemma CorrectionExact(c: Clock, slave: Time, master: Time)
    ensures var o := Next(c, Response(slave, master));
            var off := AsInt64(slave) - AsInt64(master);
            if Abs(off) <= THRESHOLD then
              o.request.Some? && o.request.value.Correct? && |o.request.value.data| == 4
              && AsInt64(slave) + Signed32(o.request.value.data) == AsInt64(master) && o.clock.state == c.state
              && o.event == Some(Synchronised(off)) && o.clock.errorCode == c.errorCode
            else o.request.None? && o.clock.state == FAILED && o.event == Some(Failed(off, ERR_OFFSET))
  {
    hide Signed32, Signed32Bytes, AsInt64;
    if Abs(AsInt64(slave) - AsInt64(master)) <= THRESHOLD {
      Signed32RoundTrip(AsInt64(master) - AsInt64(slave));
    }
  }

  /** The state never decreases, and a failure is final. */
  lemma {:induction false} StateOnlyGrows(c: Clock, steps: seq<Step>, j: nat, k: nat)
    requires j <= k <= |steps|
    ensures After(c, steps, j).state <= After(c, steps, k).state
    decreases k
  {
    if j < k {
      StateOnlyGrows(c, steps, j, k - 1);
    }
  }

  /** How many of the first k steps are cycles after the last answer among them. */
  function Silence(steps: seq<Step>, k: nat): (n: nat)
    requires k <= |steps|
    ensures n <= k
  {
    if k == 0 || steps[k - 1].Response? then 0 else 1 + Silence(steps, k - 1)
  }

  predicate Near(step: Step) {
    step.Response? ==> Abs(AsInt64(step.slave) - AsInt64(step.master)) <= THRESHOLD
  }

  /** Among the first k steps every answer was within the threshold, and there never were more than fifty cycles
      without one. */
  predicate Healthy(steps: seq<Step>, k: nat)
    requires k <= |steps|
  {
    && (forall i :: 0 <= i < k ==> Near(steps[i]))
    && (forall i :: 0 <= i <= k ==> Silence(steps, i) <= 50)
  }

  /** The state, told from the history alone: failed exactly after an unhealthy history, and while healthy the
      counter is the number of cycles since the last answer. */
  lemma {:induction false} StateFromHistory(steps: seq<Step>, k: nat)
    requires k <= |steps|
    ensures var c := After(Initial(), steps, k);
            if Healthy(steps, k) then
              && c.timeout == Silence(steps, k) && c.errorCode == 0
              && c.state == if forall i :: 0 <= i < k ==> steps[i].Response? then STARTED else RUNNING
            else c.state == FAILED && c.errorCode != 0
    decreases k
  {
    if k > 0 {
      StateFromHistory(steps, k - 1);
      assert Healthy(steps, k) <==>
             Healthy(steps, k - 1) && Near(steps[k - 1]) && Silence(steps, k) <= 50;
    }
  }

  /** The silence error is posted exactly by the fifty-first cycle without an answer of a history that was healthy
      before. */
  lemma SilenceErrorIff(steps: seq<Step>, k: nat)
    requires k < |steps|
    ensures var o := Next(After(Initial(), steps, k), steps[k]);
            o.event.Some? && o.event.value.Failed? && o.event.value.code == ERR_SILENCE
            <==> steps[k].Cycle? && Healthy(steps, k) && Silence(steps, k + 1) == 51
  {
    StateFromHistory(steps, k);
  }

  /** The slave's time is requested in exactly the cycles before the failure, so that an answer can come; requests and
      events of cycles are nothing else. */
  lemma ReadsWhileHealthy(steps: seq<Step>, k: nat)
    requires k <= |steps|
    ensures var o := Next(After(Initial(), steps, k), Cycle);
            && o.request == (if Healthy(steps, k) then Some(ReadTime) else None)
            && (o.event.Some? <==> Healthy(steps, k) && Silence(steps, k) == 50)
            && (o.event.Some? ==> o.event.value == Failed(LastOffset(steps, k), ERR_SILENCE))
  {
    StateFromHistory(steps, k);
    OffsetFromHistory(steps, k);
  }

  /** The offset measured by the last answer, zero before the first one. */
  function LastOffset(steps: seq<Step>, k: nat): int
    requires k <= |steps|
  {
    if k == 0 then 0
    else
      match steps[k - 1]
      case Response(slave, master) => AsInt64(slave) - AsInt64(master)
      case Cycle => LastOffset(steps, k - 1)
  }

  lemma {:induction false} OffsetFromHistory(steps: seq<Step>, k: nat)
    requires k <= |steps|
    ensures After(Initial(), steps, k).offset == LastOffset(steps, k)
    decreases k
  {
    if k > 0 {
      OffsetFromHistory(steps, k - 1);
    }
  }

  /** Without the clock enabled no time is ever requested, and only an answer can make the machine fail. */
  lemma {:induction false} DisabledStaysOff(steps: seq<Step>, k: nat)
    requires k <= |steps|
    ensures After(Disabled(), steps, k).state == if forall i :: 0 <= i < k ==> Near(steps[i]) then OFF else FAILED
    ensures Next(After(Disabled(), steps, k), Cycle) == Outcome(After(Disabled(), steps, k), None, None)
    decreases k
  {
    if k > 0 {
      DisabledStaysOff(steps, k - 1);
    }
  }

  /** The datagram that carries a request. */
  function RequestDgram(request: Request, index: u8): Dgram
    requires request.Correct? ==> |request.data| == 4
  {
    match request
    case ReadTime => Datagram(CMD_FPRD, index, 0, REG_SYSTEM_TIME, 0, Zeros(8), 0)
    case Correct(data) => Datagram(CMD_FPWR, index, 0, REG_SYSTEM_OFFSET, 0, data, 0)
  }

  class Worker {
    var state: State
    var offset: int
    var timeout: nat
    var errorCode: nat
    /** The events handed to the event loop. */
    var posted: seq<Event>
    const queue: Queue

    ghost function View(): Clock
      reads this
    {
      Clock(state, offset, timeout, errorCode)
    }

    /** The queue after a step: the requested datagram is appended while there is room. */
    ghost predicate Queued(before: seq<Dgram>, index: u8, request: Option<Request>)
      requires request.Some? && request.value.Correct? ==> |request.value.data| == 4
      reads queue
    {
      queue.accepted
      == if request.Some? && |before| < Q_MAX then before + [RequestDgram(request.value, index)] else before
    }

    constructor (queue: Queue, enable: bool)
      requires queue.Valid()
      ensures queue.Valid() && this.queue == queue && posted == []
      ensures View() == if enable then Initial() else Disabled()
    {
      this.queue := queue;
      state, offset, timeout, errorCode, posted := if enable then STARTED else OFF, 0, 0, 0, [];
    }

    method Init()
      modifies this
      ensures View() == Initial() && posted == old(posted) + [Started]
    {
      state, offset, timeout, errorCode := STARTED, 0, 0, 0;
      posted := posted + [Started];
    }

    method OnCycle()
      requires queue.Valid()
      modifies this, queue`entries, queue`accepted, queue`indexSeq
      ensures queue.Valid()
      ensures var o := Next(old(View()), Cycle);
              && View() == o.clock
              && posted == old(posted) + (if o.event.Some? then [o.event.value] else [])
              && Queued(old(queue.accepted), old(queue.indexSeq), o.request)
      ensures var before, after := old(queue.accepted), queue.accepted;
              if (old(state) == STARTED || old(state) == RUNNING) && |before| < 32 then
                && |after| == |before| + 1 && after[..|before|] == before
                && var d := after[|before|];
                   && d.cmd == 4 && d.idx == old(queue.indexSeq) && d.adp == 0 && d.ado == 0x0910
                   && |d.data| == 8 && (forall i :: 0 <= i < 8 ==> d.data[i] == 0) && d.irq == 0 && d.wkc == 0
              else after == before
    {
      if state == OFF {
        return;
      }
      if state == FAILED {
        return;
      }
      if state == STARTED {
        state := RUNNING;
      }
      if state == RUNNING {
        queue.QueueFprd(0, REG_SYSTEM_TIME, 8);
        timeout := timeout + 1;
        if timeout > SILENCE_MAX {
          errorCode := ERR_SILENCE;
          state := FAILED;
          posted := posted + [Failed(offset, errorCode)];
        }
      }
    }

    method OnResponse(slave: Time, master: Time)
      requires queue.Valid()
      modifies this, queue`entries, queue`accepted, queue`indexSeq
      ensures queue.Valid()
      ensures var o := Next(old(View()), Response(slave, master));
              && View() == o.clock
              && posted == old(posted) + (if o.event.Some? then [o.event.value] else [])
              && Queued(old(queue.accepted), old(queue.indexSeq), o.request)
      ensures var before, after := old(queue.accepted), queue.accepted;
              var off := AsInt64(slave) - AsInt64(master);
              if -5_000_000 <= off <= 5_000_000 && |before| < 32 then
                && |after| == |before| + 1 && after[..|before|] == before
                && var d := after[|before|];
                   && d.cmd == 5 && d.idx == old(queue.indexSeq) && d.adp == 0 && d.ado == 0x0920
                   && |d.data| == 4 && Signed32(d.data) == -off && d.irq == 0 && d.wkc == 0
              else after == before
    {
      CorrectionExact(View(), slave, master);
      var off := AsInt64(slave) - AsInt64(master);
      offset := off;
      timeout := 0;
      if Abs(off) > THRESHOLD {
        errorCode := ERR_OFFSET;
        state := FAILED;
        posted := posted + [Failed(off, errorCode)];
      } else {
        queue.QueueFpwr(0, REG_SYSTEM_OFFSET, Signed32Bytes(-off));
        posted := posted + [Synchronised(off)];
      }
    }
  }
}
