/** The slave simulator of the test scripts: a second implementation of the AL machine, with its state in fields of
    its own, that stays in step with the slave's register bytes. */
module PythonSim {
  import opened Bytes
  import opened Esc
  import opened Frame
  import Al
  import Mailbox
  import Slave
  import SlaveRuns
  import SyncManager

  /** The table of accepted transitions; a request for INIT is accepted besides. */
  const TRANSITIONS: set<(nat, nat)> := {
    (Al.INIT, Al.PREOP), (Al.PREOP, Al.SAFEOP), (Al.SAFEOP, Al.OP), (Al.OP, Al.SAFEOP), (Al.SAFEOP, Al.PREOP),
    (Al.PREOP, Al.INIT), (Al.SAFEOP, Al.INIT), (Al.OP, Al.INIT)
  }

  datatype AlFields = AlFields(state: nat, error: bool, code: u16)

  datatype Sim = Sim(station: Option<u16>, al: AlFields, esc: Mem)

  /** The simulator as constructed, but for the station address. */
  function PowerUp(station: Option<u16>): Sim {
    Sim(station, AlFields(Al.INIT, false, Al.ERR_NONE), Zeros(SIZE))
  }

  /** The AL fields after a control word. */
  function AfterControl(al: AlFields, word: u16, pairValid: bool): AlFields {
    var req := word % 0x10;
    if Bit4(word) then (if req == al.state then al.(error := false, code := Al.ERR_NONE) else al)
    else if req == al.state then al
    else if req == Al.BOOT then al.(error := true, code := Al.ERR_BOOTSTRAP_NOT_SUPPORTED)
    else if req == Al.INIT || (al.state, req) in TRANSITIONS then
      if al.state == Al.INIT && req == Al.PREOP && !pairValid then
        al.(error := true, code := Al.ERR_INVALID_MAILBOX_CFG)
      else AlFields(req, false, Al.ERR_NONE)
    else al.(error := true, code := Al.ERR_INVALID_STATE_CHANGE)
  }

  /** The default mailbox handler answers with the request, its counter nibble incremented. */
  function EchoOf(request: seq<u8>, len: nat): (r: seq<u8>)
    ensures |r| == len
  {
    var reply := if |request| >= len then request[..len] else Padded(request, len);
    if len < 6 then reply else reply[5 := reply[5] % 0x10 + (reply[5] / 0x10 + 1) % 0x10 * 0x10]
  }

  function AfterEcho(esc: Mem, request: seq<u8>): Mem {
    var sm1 := SyncManager.Read(esc, 1);
    if !sm1.Usable() || sm1.End() > SIZE then esc
    else SyncManager.SetFull(Splice(esc, sm1.start, EchoOf(request, sm1.length)), 1)
  }

  /** The bytes of a range, cut off at the end of the mirror. */
  function Cut(esc: Mem, from: nat, to: nat): seq<u8>
    requires from <= to
  {
    esc[if from < SIZE then from else SIZE..if to < SIZE then to else SIZE]
  }

  /** A write that ends where the SM0 buffer ends is answered at once. */
  function AfterSm0Write(esc: Mem, end: nat): Mem {
    var sm0 := SyncManager.Read(esc, 0);
    if !sm0.Usable() || end != sm0.End() then esc
    else
      var full := SyncManager.SetFull(esc, 0);
      SyncManager.ClearFull(AfterEcho(full, Cut(full, sm0.start, sm0.End())), 0)
  }

  function Written(esc: Mem, ado: nat, data: seq<u8>): Mem {
    if ado + |data| <= SIZE then Splice(esc, ado, data) else esc
  }

  /** An FPWR datagram. */
  function AfterFpwr(p: Sim, d: Dgram): Sim {
    if p.station.Some? && d.adp != p.station.value then p
    else
      var esc := Written(p.esc, d.ado, d.data);
      var al := if Slave.Covers(d.ado, |d.data|, ALCTL) && |d.data| >= 2
                then AfterControl(p.al, U16(d.data[0], d.data[1]), SyncManager.ValidPair(esc)) else p.al;
      p.(al := al, esc := AfterSm0Write(esc, d.ado + |d.data|))
  }

  /** What a read of the AL status register answers. */
  function StatusRead(al: AlFields): u16 {
    al.state % 0x10 + if al.error then Al.STAT_ERR else 0
  }

  predicate IsStatus(a: nat) {
    a == SyncManager.StatusAddr(0) || a == SyncManager.StatusAddr(1)
  }

  /** Same SyncManager configuration; the status bytes belong to the mailbox. */
  predicate SameConfig(m: Mem, n: Mem) {
    forall a :: SM0 <= a < SM0 + 16 && !IsStatus(a) ==> n[a] == m[a]
  }

  /** The registers hold what the fields say, and vice versa. */
  predicate InStep(m: Mem, p: Sim) {
    && p.station == Some(ReadU16(m, STADR)) && ReadU16(m, STADR) != 0
    && p.al.state in {Al.INIT, Al.PREOP, Al.SAFEOP, Al.OP}
    && ReadU16(m, ALSTAT) == StatusRead(p.al) && ReadU16(m, ALSTACODE) == p.al.code
    && SameConfig(m, p.esc)
  }

  predicate Spares(d: Dgram, lo: nat, hi: nat) {
    d.ado + |d.data| <= lo || hi <= d.ado
  }

  /** A write inside the mirror that leaves the station address and the AL status registers alone. */
  predicate Admissible(d: Dgram) {
    && d.cmd == CMD_FPWR && InRange(d.ado, |d.data|)
    && Spares(d, STADR, STADR + 2) && Spares(d, ALSTAT, ALSTACODE + 2)
  }

  /** The registers, as this write leaves them, make it a completed mailbox request that is echoed. */
  predicate Echoes(p: Sim, d: Dgram) {
    var esc := Written(p.esc, d.ado, d.data);
    var sm0, sm1 := SyncManager.Read(esc, 0), SyncManager.Read(esc, 1);
    sm0.Usable() && sm1.Usable() && d.ado + |d.data| == sm0.End() && sm1.End() <= SIZE
  }

  /** Where the echo goes over the SyncManager configuration, it puts the bytes that are there already. */
  predicate EchoHarmless(p: Sim, d: Dgram) {
    var esc := Written(p.esc, d.ado, d.data);
    var sm0, sm1 := SyncManager.Read(esc, 0), SyncManager.Read(esc, 1);
    Echoes(p, d) ==>
      var echo := EchoOf(Cut(SyncManager.SetFull(esc, 0), sm0.start, sm0.End()), sm1.length);
      forall a :: SM0 <= a < SM0 + 16 && !IsStatus(a) && sm1.start <= a < sm1.End() ==> echo[a - sm1.start] == esc[a]
  }

  /** The control word that the simulator takes from a write: its first two bytes. */
  function FirstWord(d: Dgram): u16
    requires |d.data| >= 2
  {
    U16(d.data[0], d.data[1])
  }

  /** The low byte that a write over the control register puts there; all that the slave's decision depends on. */
  function ControlByte(d: Dgram): u8
    requires Slave.Covers(d.ado, |d.data|, ALCTL)
  {
    d.data[ALCTL - d.ado]
  }

  /** A write over the control register asks both for the same change. */
  predicate SameRequest(p: Sim, d: Dgram) {
    Slave.Covers(d.ado, |d.data|, ALCTL) ==>
      var pair := SyncManager.ValidPair(Written(p.esc, d.ado, d.data));
      AfterControl(p.al, ControlByte(d), pair) == if |d.data| >= 2 then AfterControl(p.al, FirstWord(d), pair) else p.al
  }

  /** Both implementations decide every control word alike, in every state. */
  lemma SameDecision(al: AlFields, word: u16, pairValid: bool)
    requires al.state in {Al.INIT, Al.PREOP, Al.SAFEOP, Al.OP}
    ensures var d, after := Al.Decide(word, al.state, pairValid), AfterControl(al, word, pairValid);
            && after.state in {Al.INIT, Al.PREOP, Al.SAFEOP, Al.OP}
            && if d.Keep? then after == al else Al.StatusWord(d) == StatusRead(after) && d.code == after.code
  {
  }

  lemma ConfigDecides(m: Mem, n: Mem)
    requires SameConfig(m, n)
    ensures SyncManager.ValidPair(n) == SyncManager.ValidPair(m)
  {
    SlaveRuns.SamePair(m, n);
  }

  lemma WriteKeepsConfig(m: Mem, n: Mem, ado: nat, data: seq<u8>)
    requires SameConfig(m, n) && ado + |data| <= SIZE
    ensures SameConfig(Splice(m, ado, data), Splice(n, ado, data))
  {
  }

  /** The echo leaves the configuration alone exactly when it is harmless. */
  lemma EchoKeepsConfig(p: Sim, d: Dgram)
    ensures var esc := Written(p.esc, d.ado, d.data);
            SameConfig(esc, AfterSm0Write(esc, d.ado + |d.data|)) <==> EchoHarmless(p, d)
  {
    hide EchoOf, Written, AfterSm0Write, SyncManager.SetFull, SyncManager.Read, Cut;
    var esc, end := Written(p.esc, d.ado, d.data), d.ado + |d.data|;
    var full, sm0, sm1 := SyncManager.SetFull(esc, 0), SyncManager.Read(esc, 0), SyncManager.Read(esc, 1);
    FlagFrame(esc);
    if Echoes(p, d) {
      var echo := EchoOf(Cut(full, sm0.start, sm0.End()), sm1.length);
      EchoTaken(esc, end);
      EchoedBytes(full, sm1, echo);
    } else {
      NoEcho(esc, end);
    }
  }

  lemma FlagFrame(esc: Mem)
    ensures forall a :: 0 <= a < SIZE && !IsStatus(a) ==> SyncManager.SetFull(esc, 0)[a] == esc[a]
  {
  }

  lemma EchoTaken(esc: Mem, end: nat)
    requires var sm0, sm1 := SyncManager.Read(esc, 0), SyncManager.Read(esc, 1);
             sm0.Usable() && sm1.Usable() && end == sm0.End() && sm1.End() <= SIZE
    ensures var full, sm0, sm1 := SyncManager.SetFull(esc, 0), SyncManager.Read(esc, 0), SyncManager.Read(esc, 1);
            var echo := EchoOf(Cut(full, sm0.start, sm0.End()), sm1.length);
            AfterSm0Write(esc, end) == SyncManager.ClearFull(SyncManager.SetFull(Splice(full, sm1.start, echo), 1), 0)
  {
    hide EchoOf, Cut, Splice, SyncManager.ClearFull;
    SameSm1(esc);
  }

  lemma NoEcho(esc: Mem, end: nat)
    requires var sm0, sm1 := SyncManager.Read(esc, 0), SyncManager.Read(esc, 1);
             !(sm0.Usable() && sm1.Usable() && end == sm0.End() && sm1.End() <= SIZE)
    ensures SameConfig(esc, AfterSm0Write(esc, end))
    ensures forall a :: 0 <= a < SIZE && a != SyncManager.StatusAddr(0) ==> AfterSm0Write(esc, end)[a] == esc[a]
    ensures var sm0 := SyncManager.Read(esc, 0); !(sm0.Usable() && end == sm0.End()) ==> AfterSm0Write(esc, end) == esc
  {
    hide EchoOf, Cut, Splice;
    SameSm1(esc);
  }

  /** Writes to another station change nothing in the simulator. */
  lemma OtherStationIgnored(p: Sim, d: Dgram)
    requires p.station.Some? && d.adp != p.station.value
    ensures AfterFpwr(p, d) == p
  {
  }

  lemma SameSm1(esc: Mem)
    ensures SyncManager.Read(SyncManager.SetFull(esc, 0), 1) == SyncManager.Read(esc, 1)
  {
  }

  /** Setting and clearing the flags around the echo touches the two status bytes only. */
  lemma EchoedBytes(m: Mem, sm1: SyncManager.Config, echo: seq<u8>)
    requires |echo| == sm1.length && sm1.End() <= SIZE
    ensures var n := SyncManager.ClearFull(SyncManager.SetFull(Splice(m, sm1.start, echo), 1), 0);
            forall a :: 0 <= a < SIZE && !IsStatus(a) ==>
              n[a] == if sm1.start <= a < sm1.End() then echo[a - sm1.start] else m[a]
  {
    hide Splice;
  }

  /** The slave's registers after an admissible write to its station address. */
  lemma SlaveStep(pos: u16, m: Mem, d: Dgram)
    requires Admissible(d) && d.adp == ReadU16(m, STADR) != 0
    ensures var n, written := Slave.StepMem(pos, m, d), Splice(m, d.ado, d.data);
            && ReadU16(n, STADR) == ReadU16(m, STADR) && SameConfig(written, n)
            && var decision := if Slave.Covers(d.ado, |d.data|, ALCTL)
                               then Al.Decide(ControlByte(d), Al.State(ReadU16(m, ALSTAT)),
                                              SyncManager.ValidPair(written))
                               else Al.Keep;
               if decision.Keep? then SlaveRuns.SameAl(m, n)
               else ReadU16(n, ALSTAT) == Al.StatusWord(decision) && ReadU16(n, ALSTACODE) == decision.code
  {
    hide Al.Decide, SyncManager.ValidPair, Mailbox.OnSm0Write, Splice, ReadU16, SameConfig;
    var written, after := Splice(m, d.ado, d.data), Slave.AfterWrite(m, d);
    assert Slave.StepMem(pos, m, d) == Mailbox.OnSm0Write(after, d.ado, |d.data|);
    WrittenWords(m, d);
    LowByteDecides(ReadU16(written, ALCTL), Al.State(ReadU16(m, ALSTAT)), SyncManager.ValidPair(written));
    ControlKeeps(written);
    HandshakeKeeps(after, d.ado, |d.data|);
  }

  lemma LowByteDecides(word: u16, cur: nat, pairValid: bool)
    ensures Al.Decide(word % 0x100, cur, pairValid) == Al.Decide(word, cur, pairValid)
  {
    var low: int, high: int := word % 0x100, word / 0x100;
    assert word == low + 0x10 * (0x10 * high);
    assert word % 0x10 == low % 0x10 && word / 0x10 == low / 0x10 + 2 * (8 * high);
  }

  lemma WrittenWords(m: Mem, d: Dgram)
    requires Admissible(d)
    ensures var n := Splice(m, d.ado, d.data);
            && SlaveRuns.SameAl(m, n) && ReadU16(n, STADR) == ReadU16(m, STADR)
            && (Slave.Covers(d.ado, |d.data|, ALCTL) ==> ReadU16(n, ALCTL) % 0x100 == ControlByte(d))
  {
    hide Splice;
  }

  lemma ControlKeeps(m: Mem)
    ensures var n := Al.OnControl(m);
            SameConfig(m, n) && SameConfig(m, m) && ReadU16(n, STADR) == ReadU16(m, STADR)
  {
    hide Al.OnControl;
    Al.ControlFrame(m);
  }

  lemma HandshakeKeeps(m: Mem, ado: u16, len: nat)
    ensures var n := Mailbox.OnSm0Write(m, ado, len);
            && SlaveRuns.SameAl(m, n) && ReadU16(n, STADR) == ReadU16(m, STADR)
            && forall o: Mem :: SameConfig(o, m) ==> SameConfig(o, n)
  {
    hide Mailbox.OnSm0Write;
    Mailbox.HandshakeFrame(m, ado, len);
  }

  /** One write keeps registers and fields in step exactly when it asks both for the same change of the AL state and
      its echo, if there is one, is harmless. */
  lemma InStepNext(pos: u16, m: Mem, p: Sim, d: Dgram)
    requires InStep(m, p) && Admissible(d) && d.adp == ReadU16(m, STADR)
    ensures InStep(Slave.StepMem(pos, m, d), AfterFpwr(p, d)) <==> SameRequest(p, d) && EchoHarmless(p, d)
    ensures ReadU16(Slave.StepMem(pos, m, d), STADR) == ReadU16(m, STADR)
  {
    hide SameConfig, EchoHarmless, SameRequest, Slave.StepMem, AfterSm0Write, SyncManager.ValidPair, StatusRead,
         ReadU16, AfterControl;
    var n, q := Slave.StepMem(pos, m, d), AfterFpwr(p, d);
    var written, esc := Splice(m, d.ado, d.data), Written(p.esc, d.ado, d.data);
    SlaveStep(pos, m, d);
    WriteKeepsConfig(m, p.esc, d.ado, d.data);
    ConfigDecides(written, esc);
    EchoKeepsConfig(p, d);
    ConfigBetween(written, n, esc, q.esc);
    AlInStep(pos, m, p, d);
  }

  /** The AL part of a step: the registers say what the fields say exactly when both were asked for the same change. */
  lemma AlInStep(pos: u16, m: Mem, p: Sim, d: Dgram)
    requires InStep(m, p) && Admissible(d) && d.adp == ReadU16(m, STADR)
    ensures var n, al := Slave.StepMem(pos, m, d), AfterFpwr(p, d).al;
            && al.state in {Al.INIT, Al.PREOP, Al.SAFEOP, Al.OP}
            && (ReadU16(n, ALSTAT) == StatusRead(al) && ReadU16(n, ALSTACODE) == al.code <==> SameRequest(p, d))
  {
    hide SameConfig, Slave.StepMem, AfterSm0Write, SyncManager.ValidPair, StatusRead, ReadU16, Al.Decide, AfterControl,
         Al.StatusWord, Al.State;
    var n, al := Slave.StepMem(pos, m, d), AfterFpwr(p, d).al;
    var written, esc := Splice(m, d.ado, d.data), Written(p.esc, d.ado, d.data);
    SlaveStep(pos, m, d);
    WriteKeepsConfig(m, p.esc, d.ado, d.data);
    ConfigDecides(written, esc);
    StateOf(p.al);
    if Slave.Covers(d.ado, |d.data|, ALCTL) {
      var pair := SyncManager.ValidPair(esc);
      SameDecision(p.al, ControlByte(d), pair);
      if |d.data| >= 2 {
        SameDecision(p.al, FirstWord(d), pair);
      }
      FieldsFromWords(AfterControl(p.al, ControlByte(d), pair), al);
    }
  }

  lemma StateOf(al: AlFields)
    requires al.state < 0x10
    ensures Al.State(StatusRead(al)) == al.state
  {
  }

  /** Status and code words determine the fields. */
  lemma FieldsFromWords(a: AlFields, b: AlFields)
    requires a.state < 0x10 && b.state < 0x10
    ensures StatusRead(a) == StatusRead(b) && a.code == b.code <==> a == b
  {
  }

  lemma ConfigBetween(written: Mem, n: Mem, esc: Mem, q: Mem)
    requires SameConfig(written, n) && SameConfig(written, esc)
    ensures SameConfig(n, q) <==> SameConfig(esc, q)
  {
  }

  function SimRun(p: Sim, ds: seq<Dgram>): Sim
    decreases |ds|
  {
    if ds == [] then p else SimRun(AfterFpwr(p, ds[0]), ds[1..])
  }

  /** In step before every write of the run and at its end. */
  predicate InStepThroughout(pos: u16, m: Mem, p: Sim, ds: seq<Dgram>)
    decreases |ds|
  {
    && InStep(m, p)
    && (ds != [] ==> InStepThroughout(pos, Slave.StepMem(pos, m, ds[0]), AfterFpwr(p, ds[0]), ds[1..]))
  }

  /** Every write of the run asks both for the same change and has a harmless echo, or none. */
  predicate AgreeThroughout(p: Sim, ds: seq<Dgram>)
    decreases |ds|
  {
    ds != [] ==>
      SameRequest(p, ds[0]) && EchoHarmless(p, ds[0]) && AgreeThroughout(AfterFpwr(p, ds[0]), ds[1..])
  }

  /** On every sequence of writes the two implementations stay in step exactly as long as each write asks both for the
      same change and its echo is harmless. */
  lemma {:induction false} InStepRun(pos: u16, m: Mem, p: Sim, ds: seq<Dgram>)
    requires InStep(m, p)
    requires forall k :: 0 <= k < |ds| ==> Admissible(ds[k]) && ds[k].adp == ReadU16(m, STADR)
    ensures InStepThroughout(pos, m, p, ds) <==> AgreeThroughout(p, ds)
    ensures InStepThroughout(pos, m, p, ds) ==> InStep(SlaveRuns.Run(pos, m, ds), SimRun(p, ds))
    decreases |ds|
  {
    hide Admissible, SameRequest, EchoHarmless, InStep, Slave.StepMem, AfterFpwr;
    if ds != [] {
      InStepNext(pos, m, p, ds[0]);
      var n, q := Slave.StepMem(pos, m, ds[0]), AfterFpwr(p, ds[0]);
      if InStep(n, q) {
        InStepRun(pos, n, q, ds[1..]);
      } else {
        assert !InStepThroughout(pos, n, q, ds[1..]);
      }
    }
  }

  /** A control word, or bytes of the SyncManager configuration. */
  predicate ControlOrConfig(d: Dgram) {
    && d.cmd == CMD_FPWR
    && if d.ado == ALCTL then |d.data| == 2 else SM0 <= d.ado < d.ado + |d.data| <= SM0 + 16
  }

  /** A control word at its register, and a configuration, ask both for the same change. */
  lemma ControlOrConfigAgrees(p: Sim, d: Dgram)
    requires ControlOrConfig(d)
    ensures Admissible(d) && SameRequest(p, d)
  {
    hide SyncManager.ValidPair, AfterControl;
    if d.ado == ALCTL {
      LowByteAsks(p.al, d.data[0], d.data[1], SyncManager.ValidPair(Written(p.esc, d.ado, d.data)));
    }
  }

  lemma LowByteAsks(al: AlFields, low: u8, high: u8, pairValid: bool)
    ensures AfterControl(al, U16(low, high), pairValid) == AfterControl(al, low, pairValid)
  {
    var l: int, h: int := low, high;
    assert U16(low, high) % 0x10 == l % 0x10 && U16(low, high) / 0x10 == l / 0x10 + 2 * (8 * h);
  }

  /** Every echo of the run is harmless. */
  predicate EchoesHarmless(p: Sim, ds: seq<Dgram>)
    decreases |ds|
  {
    ds != [] ==> EchoHarmless(p, ds[0]) && EchoesHarmless(AfterFpwr(p, ds[0]), ds[1..])
  }

  lemma {:induction false} OnlyEchoesMatter(p: Sim, ds: seq<Dgram>)
    requires forall k :: 0 <= k < |ds| ==> ControlOrConfig(ds[k])
    ensures AgreeThroughout(p, ds) <==> EchoesHarmless(p, ds)
    decreases |ds|
  {
    hide ControlOrConfig, SameRequest, EchoHarmless, AfterFpwr;
    if ds != [] {
      ControlOrConfigAgrees(p, ds[0]);
      OnlyEchoesMatter(AfterFpwr(p, ds[0]), ds[1..]);
    }
  }

  /** On every sequence of control words, interleaved with arbitrary SyncManager configurations, the two implementations
      stay in step exactly as long as every echo is harmless. */
  lemma ControlOrConfigRun(pos: u16, m: Mem, p: Sim, ds: seq<Dgram>)
    requires InStep(m, p)
    requires forall k :: 0 <= k < |ds| ==> ControlOrConfig(ds[k]) && ds[k].adp == ReadU16(m, STADR)
    ensures InStepThroughout(pos, m, p, ds) <==> EchoesHarmless(p, ds)
  {
    hide ControlOrConfig, Admissible, InStep, SameRequest, EchoHarmless, AfterFpwr, InStepThroughout, AgreeThroughout;
    forall k | 0 <= k < |ds|
      ensures Admissible(ds[k])
    {
      ControlOrConfigAgrees(p, ds[k]);
    }
    OnlyEchoesMatter(p, ds);
    InStepRun(pos, m, p, ds);
  }

  /** SM0 at its own registers, and SM1 at SM0's activate byte: both usable mailboxes. */
  const LOOPING_SM0: seq<u8> := [0x00, 0x08, 0x10, 0x00, 0x02, 0x00, 0x01, 0x00]
  const LOOPING_SM1: seq<u8> := [0x06, 0x08, 0x01, 0x00, 0x02, 0x00, 0x01, 0x00]

  function Write(station: u16, ado: u16, data: seq<u8>): Dgram
    requires |data| < 0x800
  {
    Datagram(CMD_FPWR, 0, station, ado, 0, data, 0)
  }

  function LoopingRun(station: u16): seq<Dgram> {
    [Write(station, SM0, LOOPING_SM0), Write(station, SM0 + SM_SIZE, LOOPING_SM1), Write(station, ALCTL, [Al.PREOP, 0])]
  }

  /** Where they part: the second configuration makes the simulator echo over SM0's activate byte, so that the slave
      grants PREOP and the simulator stays in INIT with an error. */
  lemma EchoBreaksStep(pos: u16, m: Mem, p: Sim)
    requires InStep(m, p) && p.al == AlFields(Al.INIT, false, Al.ERR_NONE)
    ensures var ds := LoopingRun(ReadU16(m, STADR));
            var n, q := SlaveRuns.Run(pos, m, ds), SimRun(p, ds);
            && (forall k :: 0 <= k < |ds| ==> ControlOrConfig(ds[k]))
            && SlaveRuns.AlState(n) == Al.PREOP && !SlaveRuns.AlError(n)
            && q.al == AlFields(Al.INIT, true, Al.ERR_INVALID_MAILBOX_CFG)
  {
    hide Slave.StepMem, AfterFpwr, SameConfig, StatusRead, Admissible;
    var station := ReadU16(m, STADR);
    var a, b, c := LoopingRun(station)[0], LoopingRun(station)[1], LoopingRun(station)[2];
    var m2 := Slave.StepMem(pos, Slave.StepMem(pos, m, a), b);
    var p2 := AfterFpwr(AfterFpwr(p, a), b);
    LoopingSlave(pos, m, p);
    LoopingSim(p, station);
    assert [a, b, c][1..] == [b, c] && [b, c][1..] == [c] && [c][1..] == [];
    assert SlaveRuns.Run(pos, m2, [c]) == SlaveRuns.Run(pos, Slave.StepMem(pos, m2, c), []);
    assert SlaveRuns.Run(pos, Slave.StepMem(pos, m, a), [b, c]) == SlaveRuns.Run(pos, m2, [c]);
    assert SimRun(p2, [c]) == SimRun(AfterFpwr(p2, c), []);
    assert SimRun(AfterFpwr(p, a), [b, c]) == SimRun(p2, [c]);
  }

  lemma LoopingSlave(pos: u16, m: Mem, p: Sim)
    requires InStep(m, p) && p.al == AlFields(Al.INIT, false, Al.ERR_NONE)
    ensures var ds := LoopingRun(ReadU16(m, STADR));
            var n := Slave.StepMem(pos, Slave.StepMem(pos, Slave.StepMem(pos, m, ds[0]), ds[1]), ds[2]);
            SlaveRuns.AlState(n) == Al.PREOP && !SlaveRuns.AlError(n)
  {
    hide Slave.StepMem, SameConfig, SyncManager.ValidPair, Al.Decide, Splice, ReadU16;
    var ds := LoopingRun(ReadU16(m, STADR));
    var m1 := Slave.StepMem(pos, m, ds[0]);
    var m2 := Slave.StepMem(pos, m1, ds[1]);
    SlaveStep(pos, m, ds[0]);
    SlaveStep(pos, m1, ds[1]);
    SlaveStep(pos, m2, ds[2]);
    LoopingPair(m, m1);
    ConfigDecides(Splice(m1, SM0 + SM_SIZE, LOOPING_SM1), m2);
    SlaveRuns.SamePair(m2, Splice(m2, ALCTL, [Al.PREOP, 0]));
    StateOf(p.al);
    assert Al.Decide(Al.PREOP, Al.INIT, true) == Al.Set(Al.PREOP, Al.ERR_NONE) by {
      PreopGranted();
    }
  }

  lemma PreopGranted()
    ensures Al.Decide(Al.PREOP, Al.INIT, true) == Al.Set(Al.PREOP, Al.ERR_NONE)
  {
  }

  lemma LoopingPair(m: Mem, m1: Mem)
    requires SameConfig(Splice(m, SM0, LOOPING_SM0), m1)
    ensures SyncManager.ValidPair(Splice(m1, SM0 + SM_SIZE, LOOPING_SM1))
  {
    var w, n := Splice(m, SM0, LOOPING_SM0), Splice(m1, SM0 + SM_SIZE, LOOPING_SM1);
    assert w[SM0 + 2] == 0x10 && w[SM0 + 3] == 0 && w[SM0 + 4] == 2 && w[SM0 + 6] == 1;
    assert n[SM0 + 2] == 0x10 && n[SM0 + 3] == 0 && n[SM0 + 4] == 2 && n[SM0 + 6] == 1;
    assert n[SM0 + 10] == 1 && n[SM0 + 11] == 0 && n[SM0 + 12] == 2 && n[SM0 + 14] == 1;
  }

  lemma LoopingSim(p: Sim, station: u16)
    requires p.station == Some(station) && p.al == AlFields(Al.INIT, false, Al.ERR_NONE)
    ensures var ds := LoopingRun(station);
            var q := AfterFpwr(AfterFpwr(AfterFpwr(p, ds[0]), ds[1]), ds[2]);
            q.al == AlFields(Al.INIT, true, Al.ERR_INVALID_MAILBOX_CFG)
  {
    hide AfterSm0Write, Splice, SyncManager.ValidPair, SyncManager.Read, AfterFpwr;
    var ds := LoopingRun(station);
    var e1 := Splice(p.esc, SM0, LOOPING_SM0);
    var e2 := Splice(e1, SM0 + SM_SIZE, LOOPING_SM1);
    LoopingRegisters(p.esc);
    NotEnded(e1);
    Deactivated(e2);
    ConfigWritten(p, ds[0]);
    var p1 := AfterFpwr(p, ds[0]);
    ConfigWritten(p1, ds[1]);
    PreopRefused(AfterFpwr(p1, ds[1]), ds[2]);
  }

  lemma ConfigWritten(p: Sim, d: Dgram)
    requires p.station == Some(d.adp) && SM0 <= d.ado && d.ado + |d.data| <= SIZE
    ensures AfterFpwr(p, d) == p.(esc := AfterSm0Write(Splice(p.esc, d.ado, d.data), d.ado + |d.data|))
  {
    hide AfterSm0Write, AfterControl, SyncManager.ValidPair;
  }

  lemma PreopRefused(p: Sim, d: Dgram)
    requires p.station == Some(d.adp) && p.al == AlFields(Al.INIT, false, Al.ERR_NONE) && p.esc[SM0 + 6] == 0
    requires d.ado == ALCTL && d.data == [Al.PREOP, 0]
    ensures AfterFpwr(p, d).al == AlFields(Al.INIT, true, Al.ERR_INVALID_MAILBOX_CFG)
  {
    hide AfterSm0Write, Splice, SyncManager.ValidPair;
    Inactive(Splice(p.esc, ALCTL, d.data));
  }

  lemma LoopingRegisters(esc: Mem)
    ensures var e1 := Splice(esc, SM0, LOOPING_SM0);
            var e2 := Splice(e1, SM0 + SM_SIZE, LOOPING_SM1);
            && SyncManager.Read(e1, 0) == SyncManager.Config(0x800, 0x10, 2, 0, 1, 0) && e2[SM0] == 0
            && SyncManager.Read(e2, 0) == SyncManager.Config(0x800, 0x10, 2, 0, 1, 0)
            && SyncManager.Read(e2, 1) == SyncManager.Config(0x806, 1, 2, 0, 1, 0)
  {
    var e1 := Splice(esc, SM0, LOOPING_SM0);
    var e2 := Splice(e1, SM0 + SM_SIZE, LOOPING_SM1);
    assert forall k :: 0 <= k < 8 ==> e1[SM0 + k] == LOOPING_SM0[k];
    assert forall k :: 0 <= k < 8 ==> e2[SM0 + k] == e1[SM0 + k] && e2[SM0 + 8 + k] == LOOPING_SM1[k];
  }

  lemma NotEnded(esc: Mem)
    requires SyncManager.Read(esc, 0) == SyncManager.Config(0x800, 0x10, 2, 0, 1, 0)
    ensures AfterSm0Write(esc, SM0 + SM_SIZE) == esc
  {
  }

  lemma Deactivated(esc: Mem)
    requires SyncManager.Read(esc, 0) == SyncManager.Config(0x800, 0x10, 2, 0, 1, 0) && esc[SM0] == 0
    requires SyncManager.Read(esc, 1) == SyncManager.Config(0x806, 1, 2, 0, 1, 0)
    ensures AfterSm0Write(esc, SM0 + 2 * SM_SIZE)[SM0 + 6] == 0
  {
    hide SyncManager.SetFull, SyncManager.ClearFull, SyncManager.Read, AfterSm0Write, Splice;
    var full := SyncManager.SetFull(esc, 0);
    FlagFrame(esc);
    EchoTaken(esc, SM0 + 2 * SM_SIZE);
    var echo := EchoOf(Cut(full, 0x800, 0x810), 1);
    assert echo[0] == full[0x800];
    EchoedBytes(full, SyncManager.Read(esc, 1), echo);
  }

  lemma Inactive(esc: Mem)
    requires esc[SM0 + 6] == 0
    ensures !SyncManager.ValidPair(esc)
  {
  }

  /** A write that starts before the control register: the slave takes the word at the register (INIT, no change), the
      simulator the first word of the write (OP, an error). */
  lemma SpanningWriteBreaksStep(pos: u16, m: Mem, p: Sim)
    requires InStep(m, p) && p.al == AlFields(Al.INIT, false, Al.ERR_NONE)
    ensures var d := Write(ReadU16(m, STADR), ALCTL - 2, [Al.OP, 0, Al.INIT, 0]);
            && Admissible(d) && SlaveRuns.SameAl(m, Slave.StepMem(pos, m, d))
            && AfterFpwr(p, d).al == AlFields(Al.INIT, true, Al.ERR_INVALID_STATE_CHANGE)
  {
    hide Slave.StepMem, AfterSm0Write, SyncManager.ValidPair, ReadU16, Splice;
    var d := Write(ReadU16(m, STADR), ALCTL - 2, [Al.OP, 0, Al.INIT, 0]);
    SlaveStep(pos, m, d);
    StateOf(p.al);
    assert ControlByte(d) == Al.INIT;
  }

  /** Byte k of the echo: the request's, zero behind its end, and in byte 5 the upper nibble (the mailbox counter)
      incremented modulo 16. */
  lemma EchoByte(request: seq<u8>, len: nat, k: nat)
    requires k < len
    ensures var b: u8 := if k < |request| then request[k] else 0;
            var e := EchoOf(request, len)[k];
            if k == 5 then e % 0x10 == b % 0x10 && e / 0x10 == (b / 0x10 + 1) % 0x10 else e == b
  {
  }

  predicate ClearOfRegisters(sm: SyncManager.Config) {
    sm.End() <= SM0 || SM0 + 16 <= sm.start
  }

  /** A completed request comes back: the SM1 buffer takes the echo of the SM0 buffer, SM1 is full, SM0 is empty, and
      nothing else changes. Status bytes inside the buffers are as the flags leave them. */
  lemma EchoDelivered(esc: Mem, end: nat)
    requires var sm0, sm1 := SyncManager.Read(esc, 0), SyncManager.Read(esc, 1);
             sm0.Usable() && sm1.Usable() && end == sm0.End() && sm1.End() <= SIZE
    ensures var sm0, sm1, n := SyncManager.Read(esc, 0), SyncManager.Read(esc, 1), AfterSm0Write(esc, end);
            var echo := EchoOf(Cut(SyncManager.SetFull(esc, 0), sm0.start, sm0.End()), sm1.length);
            && SyncManager.Full(n, 1) && !SyncManager.Full(n, 0)
            && (forall a :: 0 <= a < SIZE && !IsStatus(a) ==>
                  n[a] == if sm1.start <= a < sm1.End() then echo[a - sm1.start] else esc[a])
            && (ClearOfRegisters(sm0) ==> echo == EchoOf(Cut(esc, sm0.start, sm0.End()), sm1.length))
            && (ClearOfRegisters(sm1) ==> Slice(n, sm1.start, sm1.length) == echo)
  {
    hide EchoOf, Splice, SyncManager.Read, AfterSm0Write, SyncManager.SetFull, SyncManager.ClearFull;
    var sm0, sm1, n := SyncManager.Read(esc, 0), SyncManager.Read(esc, 1), AfterSm0Write(esc, end);
    var full := SyncManager.SetFull(esc, 0);
    FlagFrame(esc);
    var echo := EchoOf(Cut(full, sm0.start, sm0.End()), sm1.length);
    EchoTaken(esc, end);
    EchoedBytes(full, sm1, echo);
    FlagsAfterEcho(Splice(full, sm1.start, echo));
    if ClearOfRegisters(sm0) {
      assert Cut(full, sm0.start, sm0.End()) == Cut(esc, sm0.start, sm0.End());
    }
    if ClearOfRegisters(sm1) {
      assert Slice(n, sm1.start, sm1.length) == echo;
    }
  }

  lemma FlagsAfterEcho(m: Mem)
    ensures var n := SyncManager.ClearFull(SyncManager.SetFull(m, 1), 0);
            SyncManager.Full(n, 1) && !SyncManager.Full(n, 0)
  {
    SyncManager.FullAfter(m, 1);
    SyncManager.FullAfter(SyncManager.SetFull(m, 1), 0);
  }

  /** They start in step once both have the same station address. */
  lemma InStepAtStart(id: Identity, station: u16)
    requires station != 0
    ensures InStep(Splice(Initial(id), STADR, Le16(station)), PowerUp(Some(station)))
  {
    hide InStep, Initial, SameConfig;
    InitialRegisters(id);
    StationAssigned(Initial(id), station);
  }

  lemma InitialRegisters(id: Identity)
    ensures var m := Initial(id);
            ReadU16(m, ALSTAT) == 1 && ReadU16(m, ALSTACODE) == 0 && SameConfig(m, Zeros(SIZE))
  {
    var m := ApplyIdentity(Zeros(SIZE), id);
    var n := Splice(m, ALSTAT, [1, 0]);
    assert SameConfig(m, Zeros(SIZE));
    assert SameConfig(n, m);
    assert n[ALSTAT] == 1 && n[ALSTAT + 1] == 0;
  }

  lemma StationAssigned(m: Mem, station: u16)
    requires station != 0 && ReadU16(m, ALSTAT) == 1 && ReadU16(m, ALSTACODE) == 0 && SameConfig(m, Zeros(SIZE))
    ensures InStep(Splice(m, STADR, Le16(station)), PowerUp(Some(station)))
  {
    var n := Splice(m, STADR, Le16(station));
    assert n[STADR] == Le16(station)[0] && n[STADR + 1] == Le16(station)[1];
  }

  class ServoSim {
    var station: Option<u16>
    var alState: nat
    var alError: bool
    var alStatusCode: u16
    const esc: array<u8>

    ghost predicate Valid()
      reads this
    {
      esc.Length == SIZE
    }

    ghost function View(): Sim
      requires Valid()
      reads this, esc
    {
      Sim(station, AlFields(alState, alError, alStatusCode), esc[..])
    }

    constructor ()
      ensures Valid() && fresh(esc) && View() == PowerUp(None)
    {
      station, alState, alError, alStatusCode := None, Al.INIT, false, Al.ERR_NONE;
      esc := new u8[SIZE](_ => 0);
      new;
      assert esc[..] == Zeros(SIZE);
    }

    method MailboxValid() returns (ok: bool)
      requires Valid()
      ensures ok == SyncManager.ValidPair(esc[..])
    {
      var i := 0;
      while i < 2
        invariant 0 <= i <= 2 && forall j :: 0 <= j < i ==> SyncManager.Read(esc[..], j).Usable()
      {
        var b := SyncManager.Base(i);
        var length := U16(esc[b + 2], esc[b + 3]);
        if length == 0 || esc[b + 4] % 4 != 2 || !Bit0(esc[b + 6]) {
          assert !SyncManager.Read(esc[..], i).Usable();
          return false;
        }
        i := i + 1;
      }
      ok := true;
    }

    method ProcessAlControl(word: u16)
      requires Valid()
      modifies this`alState, this`alError, this`alStatusCode
      ensures View() == old(View()).(al := AfterControl(old(View()).al, word, SyncManager.ValidPair(esc[..])))
    {
      var req := word % 0x10;
      if Bit4(word) {
        if req == alState {
          alError := false;
          alStatusCode := Al.ERR_NONE;
        }
        return;
      }
      if req == alState {
        return;
      }
      if req == Al.BOOT {
        alError := true;
        alStatusCode := Al.ERR_BOOTSTRAP_NOT_SUPPORTED;
        return;
      }
      if req == Al.INIT || (alState, req) in TRANSITIONS {
        if alState == Al.INIT && req == Al.PREOP {
          var ok := MailboxValid();
          if !ok {
            alError := true;
            alStatusCode := Al.ERR_INVALID_MAILBOX_CFG;
            return;
          }
        }
        alState := req;
        alError := false;
        alStatusCode := Al.ERR_NONE;
      } else {
        alError := true;
        alStatusCode := Al.ERR_INVALID_STATE_CHANGE;
      }
    }

    method MailboxEcho(request: seq<u8>)
      requires Valid()
      modifies esc
      ensures View() == old(View()).(esc := AfterEcho(old(esc[..]), request))
    {
      var sm1 := SyncManager.Read(esc[..], 1);
      if !sm1.Usable() {
        return;
      }
      if sm1.End() > SIZE {
        return;
      }
      Copy(esc, sm1.start, EchoOf(request, sm1.length));
      Mailbox.SetStatusFull(esc, 1);
    }

    method OnSm0Write(end: nat)
      requires Valid()
      modifies esc
      ensures View() == old(View()).(esc := AfterSm0Write(old(esc[..]), end))
    {
      var sm0 := SyncManager.Read(esc[..], 0);
      if !sm0.Usable() {
        return;
      }
      if end != sm0.End() {
        return;
      }
      Mailbox.SetStatusFull(esc, 0);
      MailboxEcho(Cut(esc[..], sm0.start, sm0.End()));
      Mailbox.ClearStatusFull(esc, 0);
    }

    /** An FPWR datagram: the write, the control word in it, a mailbox request completed by it. */
    method HandleFpwr(d: Dgram) returns (wkc: nat)
      requires Valid() && d.cmd == CMD_FPWR
      modifies this`alState, this`alError, this`alStatusCode, esc
      ensures View() == AfterFpwr(old(View()), d)
      ensures wkc == if station.Some? && d.adp != station.value then 0 else d.wkc + 1
    {
      hide AfterControl, AfterSm0Write, SyncManager.ValidPair;
      if station.Some? && d.adp != station.value {
        return 0;
      }
      var end: int := d.ado + |d.data|;
      if end <= SIZE {
        Copy(esc, d.ado, d.data);
      }
      assert esc[..] == Written(old(esc[..]), d.ado, d.data);
      if Slave.Covers(d.ado, |d.data|, ALCTL) && |d.data| >= 2 {
        ProcessAlControl(U16(d.data[0], d.data[1]));
      }
      OnSm0Write(end);
      wkc := d.wkc + 1;
    }
  }
}
