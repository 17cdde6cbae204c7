/** The master's blocking accesses over a reliable link to one slave, the AL state request and the scan. */
module Master {
  import opened Bytes
  import opened Esc
  import opened Frame
  import Al
  import Link
  import Mailbox
  import Slave
  import SlaveRuns
  import SyncManager

  /** Room for one encoded datagram, and for the answer. */
  const DGRAM_BUF := 512

  const MAX_SLAVES := 16
  const POLL_STEP_MS := 20

  /** Enumeration value of "error"; the others are the AL state nibbles. */
  const STATE_ERROR := 16

  /** One entry of the master's slave table. */
  datatype Record = Record(station: u16, state: nat, vendor: u32, product: u32, revision: u32, serial: u32)

  /** The answer to a blocking access. */
  datatype Reply = Reply(wkc: u16, data: seq<u8>)

  /** The two mirrors differ at most in the status bytes of SM0 and SM1. */
  predicate SameRegisters(m: Mem, n: Mem) {
    forall a :: 0 <= a < SIZE && a != SyncManager.StatusAddr(0) && a != SyncManager.StatusAddr(1) ==> n[a] == m[a]
  }

  /** A state request the slave grants: the current state without error, or an accepted transition. */
  predicate Granted(m: Mem, state: nat) {
    var cur := SlaveRuns.AlState(m);
    if state == cur then !SlaveRuns.AlError(m)
    else SlaveRuns.AlEdge(cur, state, SyncManager.ValidPair(m))
  }

  /** The state codes a caller can ask for. */
  predicate StateCode(state: nat) {
    state in {Al.INIT, Al.PREOP, Al.BOOT, Al.SAFEOP, Al.OP, STATE_ERROR}
  }

  function WordAt(m: Mem, reg: nat): u32
    requires reg + 4 <= SIZE
  {
    U32(Slice(m, reg, 4))
  }

  /** The table entry for a slave at ring position 0. */
  function Found(m: Mem): (r: Record)
    ensures r.station == 0x1000
  {
    Record(0x1000, Al.INIT, WordAt(m, VENDOR), WordAt(m, PRODUCT), WordAt(m, REVISION), WordAt(m, SERIAL))
  }

  /** The AL status and the test of the mailbox pair come out the same. */
  predicate KeepsAlAndPair(m: Mem, n: Mem) {
    SlaveRuns.SameAl(m, n) && SyncManager.ValidPair(n) == SyncManager.ValidPair(m)
  }

  /** The station address and the test of the mailbox pair come out the same. */
  predicate SameSetup(m: Mem, n: Mem) {
    ReadU16(n, STADR) == ReadU16(m, STADR) && SyncManager.ValidPair(n) == SyncManager.ValidPair(m)
  }

  lemma StationStays(m: Mem, n: Mem)
    requires SameSetup(m, n)
    ensures ReadU16(n, STADR) == ReadU16(m, STADR)
  {
  }

  lemma SetupChain(m: Mem, n: Mem, o: Mem)
    requires SameSetup(m, n) && SameSetup(n, o)
    ensures SameSetup(m, o)
  {
    hide ReadU16, SyncManager.ValidPair;
  }

  lemma ReadKeepsRegisters(pos: u16, m: Mem, d: Dgram)
    requires d.cmd == CMD_FPRD
    ensures SameRegisters(m, Slave.StepMem(pos, m, d))
  {
    Mailbox.HandshakeFrame(m, d.ado, |d.data|);
  }

  lemma SameRegistersFacts(m: Mem, n: Mem)
    requires SameRegisters(m, n)
    ensures SlaveRuns.SameAl(m, n) && ReadU16(n, STADR) == ReadU16(m, STADR)
    ensures SyncManager.ValidPair(n) == SyncManager.ValidPair(m)
    ensures WordAt(n, VENDOR) == WordAt(m, VENDOR) && WordAt(n, PRODUCT) == WordAt(m, PRODUCT)
    ensures WordAt(n, REVISION) == WordAt(m, REVISION) && WordAt(n, SERIAL) == WordAt(m, SERIAL)
  {
    SlaveRuns.SamePair(m, n);
    assert Slice(n, VENDOR, 4) == Slice(m, VENDOR, 4) && Slice(n, PRODUCT, 4) == Slice(m, PRODUCT, 4);
    assert Slice(n, REVISION, 4) == Slice(m, REVISION, 4) && Slice(n, SERIAL, 4) == Slice(m, SERIAL, 4);
  }

  /** Writing a control word: what the AL machine decides, everything else as before. */
  function ControlDgram(station: u16, control: u16): Dgram {
    Datagram(CMD_FPWR, 0, station, ALCTL, 0, Le16(control), 0)
  }

  lemma NotAddressed(pos: u16, m: Mem, station: u16, control: u16)
    requires !(ReadU16(m, STADR) == station != 0)
    ensures var d := ControlDgram(station, control);
            Slave.StepReply(pos, m, d).wkc == 0 && Slave.StepMem(pos, m, d) == m
  {
  }

  lemma ControlWritten(pos: u16, m: Mem, control: u16)
    requires SlaveRuns.AlWellFormed(m) && ReadU16(m, STADR) != 0
    ensures var d := ControlDgram(ReadU16(m, STADR), control);
            var n := Slave.StepMem(pos, m, d);
            var decision := Al.Decide(control, SlaveRuns.AlState(m), SyncManager.ValidPair(m));
            && Slave.StepReply(pos, m, d).wkc == 1
            && ReadU16(n, STADR) == ReadU16(m, STADR) && SlaveRuns.AlWellFormed(n)
            && SyncManager.ValidPair(n) == SyncManager.ValidPair(m)
            && (decision.Keep? ==> SlaveRuns.SameAl(m, n))
            && (decision.Set? ==> SlaveRuns.AlState(n) == decision.state
                                  && (SlaveRuns.AlError(n) <==> decision.code != Al.ERR_NONE))
  {
    hide Al.OnControl, Al.Decide, Mailbox.OnSm0Write, SlaveRuns.AlWellFormed, SlaveRuns.SameAl, SyncManager.ValidPair;
    var written := Splice(m, ALCTL, Le16(control));
    ControlBytes(m, control);
    AlMoves(m, written);
    ControlOutcome(written);
    var after := Al.OnControl(written);
    OnlyHandshake(after);
    SameRegistersFacts(after, Mailbox.OnSm0Write(after, ALCTL, 2));
    AlMoves(after, Mailbox.OnSm0Write(after, ALCTL, 2));
    WriteAnswered(pos, m, control);
  }

  lemma AlMoves(m: Mem, n: Mem)
    requires SlaveRuns.SameAl(m, n)
    ensures SlaveRuns.AlWellFormed(n) == SlaveRuns.AlWellFormed(m)
    ensures SlaveRuns.AlState(n) == SlaveRuns.AlState(m) && SlaveRuns.AlError(n) == SlaveRuns.AlError(m)
    ensures forall o: Mem :: SlaveRuns.SameAl(n, o) == SlaveRuns.SameAl(m, o)
    ensures forall o: Mem :: SlaveRuns.SameAl(o, n) == SlaveRuns.SameAl(o, m)
  {
  }

  lemma WriteAnswered(pos: u16, m: Mem, control: u16)
    requires ReadU16(m, STADR) != 0
    ensures var d := ControlDgram(ReadU16(m, STADR), control);
            && Slave.StepReply(pos, m, d).wkc == 1
            && Slave.StepMem(pos, m, d) == Mailbox.OnSm0Write(Al.OnControl(Splice(m, ALCTL, Le16(control))), ALCTL, 2)
  {
  }

  lemma OnlyHandshake(m: Mem)
    ensures SameRegisters(m, Mailbox.OnSm0Write(m, ALCTL, 2))
  {
    Mailbox.HandshakeFrame(m, ALCTL, 2);
  }

  /** The effect of the control word itself, before the mailbox is looked at. */
  lemma ControlBytes(m: Mem, control: u16)
    ensures var written := Splice(m, ALCTL, Le16(control));
            && ReadU16(written, ALCTL) == control && ReadU16(written, STADR) == ReadU16(m, STADR)
            && SlaveRuns.SameAl(m, written) && SyncManager.ValidPair(written) == SyncManager.ValidPair(m)
  {
    var written := Splice(m, ALCTL, Le16(control));
    assert written[ALCTL] == Le16(control)[0] && written[ALCTL + 1] == Le16(control)[1];
    SlaveRuns.SamePair(m, written);
  }

  /** The registers after the AL machine has looked at a control word. */
  lemma ControlOutcome(m: Mem)
    requires SlaveRuns.AlWellFormed(m)
    ensures var n := Al.OnControl(m);
            var decision := Al.Decide(ReadU16(m, ALCTL), SlaveRuns.AlState(m), SyncManager.ValidPair(m));
            && ReadU16(n, STADR) == ReadU16(m, STADR) && SlaveRuns.AlWellFormed(n)
            && SyncManager.ValidPair(n) == SyncManager.ValidPair(m)
            && (decision.Keep? ==> SlaveRuns.SameAl(m, n))
            && (decision.Set? ==> SlaveRuns.AlState(n) == decision.state
                                  && (SlaveRuns.AlError(n) <==> decision.code != Al.ERR_NONE))
  {
    hide Al.OnControl, Al.Decide, SyncManager.ValidPair, Al.StatusWord;
    Al.ControlFrame(m);
    SlaveRuns.ControlWords(m);
    SlaveRuns.DecisionStep(ReadU16(m, ALCTL), ReadU16(m, ALSTAT), ReadU16(m, ALSTACODE), SyncManager.ValidPair(m));
  }

  lemma ControlWordParts(state: nat, ack: bool)
    requires StateCode(state)
    ensures Al.State(Al.ControlWord(state, ack)) == state % 0x10 && Bit4(Al.ControlWord(state, ack)) == ack
  {
  }

  /** What the slave decides about the two control words of a request. */
  lemma RequestDecided(cur: nat, state: nat, pairValid: bool)
    requires cur in {Al.INIT, Al.PREOP, Al.SAFEOP, Al.OP} && StateCode(state)
    ensures var d := Al.Decide(Al.ControlWord(state, false), cur, pairValid);
            if state == cur then d == Al.Keep
            else d.Set? && if SlaveRuns.AlEdge(cur, state, pairValid) then d == Al.Set(state, Al.ERR_NONE)
                           else d.state == cur && d.code != Al.ERR_NONE
    ensures state == cur ==> Al.Decide(Al.ControlWord(state, true), cur, pairValid) == Al.Set(state, Al.ERR_NONE)
  {
    hide Al.ControlWord;
    ControlWordParts(state, false);
    ControlWordParts(state, true);
  }

  /** The slave after the first control word of a request. */
  lemma RequestSent(pos: u16, m: Mem, state: nat)
    requires SlaveRuns.AlWellFormed(m) && ReadU16(m, STADR) != 0 && StateCode(state)
    ensures var d := ControlDgram(ReadU16(m, STADR), Al.ControlWord(state, false));
            var n := Slave.StepMem(pos, m, d);
            && Slave.StepReply(pos, m, d).wkc == 1
            && SameSetup(m, n) && SlaveRuns.AlWellFormed(n)
            && SlaveRuns.AlState(n) == (if Granted(m, state) then state else SlaveRuns.AlState(m))
            && SlaveRuns.AlError(n) == !Granted(m, state)
  {
    hide Slave.StepMem, Slave.StepReply, Al.Decide, Al.ControlWord, SyncManager.ValidPair, SlaveRuns.AlEdge, ReadU16;
    ControlWritten(pos, m, Al.ControlWord(state, false));
    RequestDecided(SlaveRuns.AlState(m), state, SyncManager.ValidPair(m));
  }

  /** The slave after the acknowledge, in the requested state. */
  lemma RequestAcknowledged(pos: u16, m: Mem, state: nat)
    requires SlaveRuns.AlWellFormed(m) && ReadU16(m, STADR) != 0 && StateCode(state) && SlaveRuns.AlState(m) == state
    ensures var d := ControlDgram(ReadU16(m, STADR), Al.ControlWord(state, true));
            var n := Slave.StepMem(pos, m, d);
            && Slave.StepReply(pos, m, d).wkc == 1 && SameSetup(m, n) && SlaveRuns.AlWellFormed(n)
            && SlaveRuns.AlState(n) == state && !SlaveRuns.AlError(n)
  {
    hide Slave.StepMem, Slave.StepReply, Al.Decide, Al.ControlWord, SyncManager.ValidPair, SlaveRuns.AlEdge, ReadU16;
    ControlWritten(pos, m, Al.ControlWord(state, true));
    RequestDecided(SlaveRuns.AlState(m), state, SyncManager.ValidPair(m));
  }

  lemma ReadsKeepAl(m: Mem, n: Mem)
    requires SameRegisters(m, n)
    ensures SlaveRuns.AlWellFormed(n) == SlaveRuns.AlWellFormed(m) && SameSetup(m, n)
    ensures SlaveRuns.AlState(n) == SlaveRuns.AlState(m) && SlaveRuns.AlError(n) == SlaveRuns.AlError(m)
  {
    hide SameRegisters;
    SameRegistersFacts(m, n);
    AlMoves(m, n);
  }

  lemma RegistersChain(m: Mem, n: Mem, o: Mem)
    requires SameRegisters(m, n) && SameRegisters(n, o)
    ensures SameRegisters(m, o)
    ensures ReadU16(o, STADR) == ReadU16(n, STADR) == ReadU16(m, STADR)
  {
  }

  /** Assigning a station address by ring position. */
  lemma StationWritten(pos: u16, m: Mem, adp: u16, station: u16)
    ensures var d := Datagram(CMD_APWR, 0, adp, STADR, 0, Le16(station), 0);
            var n := Slave.StepMem(pos, m, d);
            if adp == pos then Slave.StepReply(pos, m, d).wkc == 1 && ReadU16(n, STADR) == station
                               && Found(n) == Found(m) && KeepsAlAndPair(m, n)
            else Slave.StepReply(pos, m, d).wkc == 0 && n == m
  {
    if adp == pos {
      var n := Splice(m, STADR, Le16(station));
      assert n[STADR] == Le16(station)[0] && n[STADR + 1] == Le16(station)[1];
      assert Slice(n, VENDOR, 4) == Slice(m, VENDOR, 4) && Slice(n, PRODUCT, 4) == Slice(m, PRODUCT, 4);
      assert Slice(n, REVISION, 4) == Slice(m, REVISION, 4) && Slice(n, SERIAL, 4) == Slice(m, SERIAL, 4);
      SlaveRuns.SamePair(m, n);
    }
  }

  /** The scan finds the identity that the slave was initialised with, whatever its station address. */
  lemma FoundInitial(id: Identity, earlier: u16)
    ensures Found(Splice(Initial(id), STADR, Le16(earlier)))
            == Record(0x1000, Al.INIT, id.vendor, id.product, id.revision, id.serial)
  {
    hide WordAt;
    var m := ApplyIdentity(Zeros(SIZE), id);
    var n := Splice(Initial(id), STADR, Le16(earlier));
    IdentityWords(Zeros(SIZE), id);
    WordKept(m, n, VENDOR);
    WordKept(m, n, PRODUCT);
    WordKept(m, n, REVISION);
    WordKept(m, n, SERIAL);
  }

  lemma WordKept(m: Mem, n: Mem, reg: nat)
    requires reg + 4 <= SIZE && forall a :: reg <= a < reg + 4 ==> n[a] == m[a]
    ensures WordAt(n, reg) == WordAt(m, reg)
  {
    assert Slice(n, reg, 4) == Slice(m, reg, 4);
  }

  lemma WordWritten(m: Mem, reg: nat, v: u32)
    requires reg + 4 <= SIZE
    ensures Slice(Splice(m, reg, Le32(v)), reg, 4) == Le32(v)
  {
    hide Le32;
  }

  lemma IdentityWords(m: Mem, id: Identity)
    ensures var n := ApplyIdentity(m, id);
            && WordAt(n, VENDOR) == id.vendor && WordAt(n, PRODUCT) == id.product
            && WordAt(n, REVISION) == id.revision && WordAt(n, SERIAL) == id.serial
  {
    hide Le32, U32, Slice, Splice;
    var a := Splice(m, VENDOR, Le32(id.vendor));
    var b := Splice(a, PRODUCT, Le32(id.product));
    var c := Splice(b, REVISION, Le32(id.revision));
    var n := Splice(c, SERIAL, Le32(id.serial));
    WordWritten(m, VENDOR, id.vendor);
    WordWritten(a, PRODUCT, id.product);
    WordWritten(b, REVISION, id.revision);
    WordWritten(c, SERIAL, id.serial);
    WordKept(a, n, VENDOR);
    WordKept(b, n, PRODUCT);
    WordKept(c, n, REVISION);
    Le32RoundTrip(id.vendor);
    Le32RoundTrip(id.product);
    Le32RoundTrip(id.revision);
    Le32RoundTrip(id.serial);
  }

  class Device {
    const dst: seq<u8>
    const src: seq<u8>
    const link: Slave.Device
    var slaves: seq<Record>

    ghost predicate Valid()
      reads this, link
    {
      |dst| == 6 && |src| == 6 && link.Valid()
    }

    ghost function Mirror(): Mem
      requires Valid()
      reads this, link, link.esc
    {
      link.Mirror()
    }

    constructor (dst: seq<u8>, src: seq<u8>, link: Slave.Device)
      requires |dst| == 6 && |src| == 6 && link.Valid()
      ensures Valid() && this.link == link && slaves == []
    {
      this.dst, this.src, this.link, slaves := dst, src, link, [];
    }

    /** One request and its answer; None when the slave does not answer or the answer is malformed. */
    method ExchangePayload(payload: seq<u8>) returns (r: Option<seq<u8>>)
      requires Valid()
      modifies link.esc
      ensures Valid()
      ensures |payload| > MAX_EC_PAYLOAD ==> r == None && Mirror() == old(Mirror())
      ensures |payload| <= MAX_EC_PAYLOAD ==>
              var run := Slave.ProcessEthernet(link.logicalPosition, link.mac, old(Mirror()),
                                               EthFrame(dst, src, payload), Link.RX_CAP);
              && Mirror() == run.mem
              && r == if run.tx.None? then None
                      else if EthPayload(run.tx.value).Some? && |EthPayload(run.tx.value).value| > DGRAM_BUF then None
                      else EthPayload(run.tx.value)
    {
      var frame := new u8[1600];
      var n := BuildEthFrame(dst, src, payload, frame, 1600);
      if n < 0 {
        return None;
      }
      assert frame[..n] == EthFrame(dst, src, payload);
      var rx := new u8[Link.RX_CAP];
      var ok, len := link.ProcessEthernetFrame(frame[..n], rx, Link.RX_CAP);
      if ok != 0 {
        return None;
      }
      var pdu := ParseEthFrame(rx[..len]);
      if pdu.None? {
        return None;
      }
      if |pdu.value| > DGRAM_BUF {
        return None;
      }
      r := pdu;
    }

    /** One datagram there and back: the slave carries it out once, and the answer is the slave's. */
    method Blocking(cmd: u8, adp: u16, ado: u16, len: u16, data: Option<seq<u8>>, cap: Option<nat>)
      returns (r: Option<Reply>)
      requires Valid() && (data.Some? ==> |data.value| == len) && (cap.Some? ==> len <= cap.value)
      modifies link.esc
      ensures Valid()
      ensures len <= Slave.DG_DATA_MAX ==>
                var d := Datagram(cmd, 0, adp, ado, 0, if data.Some? then data.value else Zeros(len), 0);
                var reply := Slave.StepReply(link.logicalPosition, old(Mirror()), d);
                && Mirror() == Slave.StepMem(link.logicalPosition, old(Mirror()), d)
                && r == Some(Reply(reply.wkc, reply.data))
      ensures len > Slave.DG_DATA_MAX ==> r == None && Mirror() == old(Mirror())
    {
      hide Slave.StepMem, Slave.StepReply, Slave.ProcessEthernet, EthPayload, Parse, EthFrame;
      var dg := new u8[DGRAM_BUF];
      var enc := DgramEncode(dg, 0, DGRAM_BUF, cmd, 0, adp, ado, len, 0, 0, data);
      if enc < 0 {
        return None;
      }
      ghost var d := Datagram(cmd, 0, adp, ado, 0, if data.Some? then data.value[..len] else Zeros(len), 0);
      assert data.Some? ==> data.value[..len] == data.value;
      assert dg[..enc] == Encode(d);
      ghost var reply := Slave.StepReply(link.logicalPosition, Mirror(), d);
      if len <= Slave.DG_DATA_MAX {
        Link.SingleDatagram(link.logicalPosition, link.mac, Mirror(), dst, src, d);
        Link.SameLength(link.logicalPosition, Mirror(), d);
        Link.Delivered(src, link.mac, reply, cap);
      } else {
        Link.OverlongRefused(link.logicalPosition, link.mac, Mirror(), dst, src, d);
      }
      var resp := ExchangePayload(dg[..enc]);
      if resp.None? {
        return None;
      }
      var parsed := DgramParse(resp.value, 0, cap);
      if parsed.None? {
        return None;
      }
      r := Some(Reply(parsed.value.wkc, parsed.value.data));
    }

    method ReadAlStatus(station: u16) returns (r: Option<u16>)
      requires Valid()
      modifies link.esc
      ensures Valid() && SameRegisters(old(Mirror()), Mirror())
      ensures r == if ReadU16(old(Mirror()), STADR) == station != 0 then Some(ReadU16(old(Mirror()), ALSTAT)) else None
    {
      ReadKeepsRegisters(link.logicalPosition, Mirror(), Datagram(CMD_FPRD, 0, station, ALSTAT, 0, Zeros(2), 0));
      var reply := Blocking(CMD_FPRD, station, ALSTAT, 2, None, Some(2));
      if reply.None? || reply.value.wkc < 1 {
        return None;
      }
      r := Some(U16(reply.value.data[0], reply.value.data[1]));
    }

    method WriteAlControl(station: u16, control: u16) returns (ok: bool)
      requires Valid()
      modifies link.esc
      ensures Valid()
      ensures Mirror() == Slave.StepMem(link.logicalPosition, old(Mirror()), ControlDgram(station, control))
      ensures ok == (Slave.StepReply(link.logicalPosition, old(Mirror()), ControlDgram(station, control)).wkc >= 1)
    {
      var reply := Blocking(CMD_FPWR, station, ALCTL, 2, Some(Le16(control)), None);
      ok := reply.Some? && reply.value.wkc >= 1;
    }

    /** Reads the AL status until the wanted state is reached, an error is indicated or the time is over. */
    method PollState(index: int, desired: nat, timeoutMs: nat) returns (r: int)
      requires Valid()
      modifies link.esc, this`slaves
      ensures Valid() && SameRegisters(old(Mirror()), Mirror())
      ensures !(0 <= index < |slaves|) ==> r == -1
      ensures r != 0 ==> slaves == old(slaves)
      ensures r == 0 || r == -1
      ensures 0 <= index < |old(slaves)| && !(ReadU16(old(Mirror()), STADR) == old(slaves)[index].station != 0) ==>
                r == -1
      ensures 0 <= index < |old(slaves)| && timeoutMs > 0
              && ReadU16(old(Mirror()), STADR) == old(slaves)[index].station != 0 ==>
                && (r == 0 <==> !SlaveRuns.AlError(old(Mirror())) && SlaveRuns.AlState(old(Mirror())) == desired)
                && (r == 0 ==> slaves == old(slaves)[index := old(slaves)[index].(state := desired)])
    {
      if index < 0 || index >= |slaves| {
        return -1;
      }
      var elapsed := 0;
      while elapsed < timeoutMs
        invariant Valid() && SameRegisters(old(Mirror()), Mirror()) && slaves == old(slaves) && elapsed >= 0
        invariant ReadU16(old(Mirror()), STADR) == slaves[index].station != 0 && elapsed > 0 ==>
                    SlaveRuns.AlState(old(Mirror())) != desired
      {
        SameRegistersFacts(old(Mirror()), Mirror());
        var status := ReadAlStatus(slaves[index].station);
        if status.None? {
          elapsed := elapsed + POLL_STEP_MS;
          continue;
        }
        if Al.ErrorIndicated(status.value) {
          return -1;
        }
        if Al.State(status.value) == desired {
          slaves := slaves[index := slaves[index].(state := desired)];
          return 0;
        }
        elapsed := elapsed + POLL_STEP_MS;
      }
      r := -1;
    }

    /** Requests a state and acknowledges it: 0 exactly when the slave grants it, and then slave and table
        agree; otherwise the slave keeps its state and indicates an error. */
    method RequestState(index: int, state: nat) returns (r: int)
      requires Valid() && StateCode(state)
      modifies link.esc, this`slaves
      ensures Valid()
      ensures !(0 <= index < |old(slaves)|) ==> r == -1 && Mirror() == old(Mirror()) && slaves == old(slaves)
      ensures 0 <= index < |old(slaves)| && !(ReadU16(old(Mirror()), STADR) == old(slaves)[index].station != 0) ==>
                r == -1 && Mirror() == old(Mirror()) && slaves == old(slaves)
      ensures 0 <= index < |old(slaves)| && SlaveRuns.AlWellFormed(old(Mirror()))
              && ReadU16(old(Mirror()), STADR) == old(slaves)[index].station != 0 ==>
                && (r == 0 || r == -1) && (r == 0 <==> Granted(old(Mirror()), state))
                && SlaveRuns.AlWellFormed(Mirror())
                && SameSetup(old(Mirror()), Mirror())
                && (r == 0 ==> SlaveRuns.AlState(Mirror()) == state && !SlaveRuns.AlError(Mirror())
                               && slaves == old(slaves)[index := old(slaves)[index].(state := state)])
                && (r == -1 ==> SlaveRuns.AlState(Mirror()) == SlaveRuns.AlState(old(Mirror()))
                                && SlaveRuns.AlError(Mirror()) && slaves == old(slaves))
    {
      if index < 0 || index >= |slaves| {
        return -1;
      }
      hide Slave.StepMem, Slave.StepReply, SlaveRuns.AlWellFormed, Al.Decide, Al.ControlWord, SameRegisters,
           SyncManager.ValidPair, SlaveRuns.SameAl, SlaveRuns.AlState, SlaveRuns.AlError, ReadU16, SameSetup, Granted;
      var station := slaves[index].station;
      ghost var m0 := Mirror();
      ghost var good := SlaveRuns.AlWellFormed(m0) && ReadU16(m0, STADR) == station != 0;
      if good {
        RequestSent(link.logicalPosition, m0, state);
      }
      if !(ReadU16(m0, STADR) == station != 0) {
        NotAddressed(link.logicalPosition, m0, station, Al.ControlWord(state, false));
      }
      var ok := WriteAlControl(station, Al.ControlWord(state, false));
      if !ok {
        return -1;
      }
      ghost var m1 := Mirror();
      if good {
        StationStays(m0, m1);
      }
      var polled := PollState(index, state, 3000);
      ghost var m2 := Mirror();
      if good {
        ReadsKeepAl(m1, m2);
        SetupChain(m0, m1, m2);
        StationStays(m0, m2);
      }
      if polled != 0 {
        return -1;
      }
      if good {
        RequestAcknowledged(link.logicalPosition, m2, state);
      }
      ok := WriteAlControl(station, Al.ControlWord(state, true));
      if !ok {
        return -1;
      }
      if good {
        SetupChain(m0, m2, Mirror());
      }
      r := 0;
    }

    method ReadWord(station: u16, reg: u16) returns (v: u32)
      requires Valid() && reg as int + 4 <= SIZE
      modifies link.esc
      ensures Valid() && SameRegisters(old(Mirror()), Mirror())
      ensures v == if ReadU16(old(Mirror()), STADR) == station != 0 then WordAt(old(Mirror()), reg) else 0
    {
      ReadKeepsRegisters(link.logicalPosition, Mirror(), Datagram(CMD_FPRD, 0, station, reg, 0, Zeros(4), 0));
      v := 0;
      var reply := Blocking(CMD_FPRD, station, reg, 4, None, Some(4));
      if reply.Some? && reply.value.wkc >= 1 {
        v := U32(reply.value.data);
      }
    }

    /** The identity words of the slave at a station address. */
    method ReadIdentity(station: u16) returns (r: Record)
      requires Valid()
      modifies link.esc
      ensures Valid() && SameRegisters(old(Mirror()), Mirror())
      ensures ReadU16(old(Mirror()), STADR) == station != 0 ==> r == Found(old(Mirror())).(station := station)
    {
      hide SameRegisters, WordAt, ReadU16;
      ghost var m0 := Mirror();
      var vendor := ReadWord(station, VENDOR);
      ghost var m1 := Mirror();
      var product := ReadWord(station, PRODUCT);
      ghost var m2 := Mirror();
      var revision := ReadWord(station, REVISION);
      ghost var m3 := Mirror();
      var serial := ReadWord(station, SERIAL);
      RegistersChain(m0, m1, m2);
      RegistersChain(m0, m2, m3);
      RegistersChain(m0, m3, Mirror());
      SameRegistersFacts(m0, m1);
      SameRegistersFacts(m0, m2);
      SameRegistersFacts(m0, m3);
      r := Record(station, Al.INIT, vendor, product, revision, serial);
    }

    /** Gives every slave on the ring a station address and reads its identity: a slave at position 0 ends up
        as the only entry, with the words of its identity registers. */
    method ScanNetwork()
      requires Valid()
      modifies link.esc, this`slaves
      ensures Valid()
      ensures link.logicalPosition == 0 ==>
                && slaves == [Found(old(Mirror()))] && ReadU16(Mirror(), STADR) == 0x1000
                && KeepsAlAndPair(old(Mirror()), Mirror())
      ensures link.logicalPosition != 0 ==> slaves == [] && Mirror() == old(Mirror())
    {
      hide SameRegisters, Found, ReadU16, Slave.StepMem, Slave.StepReply, SlaveRuns.SameAl, SyncManager.ValidPair;
      slaves := [];
      var pos := 0;
      while pos < MAX_SLAVES
        invariant 0 <= pos <= MAX_SLAVES && Valid()
        invariant pos == 0 ==> slaves == [] && Mirror() == old(Mirror())
        invariant link.logicalPosition == 0 && pos > 0 ==>
                    pos == 1 && slaves == [Found(old(Mirror()))] && ReadU16(Mirror(), STADR) == 0x1000
                    && KeepsAlAndPair(old(Mirror()), Mirror())
        invariant link.logicalPosition != 0 ==> pos == 0
      {
        var station := 0x1000 + pos;
        StationWritten(link.logicalPosition, Mirror(), pos, station);
        var reply := Blocking(CMD_APWR, pos, STADR, 2, Some(Le16(station)), None);
        if reply.None? {
          break;
        }
        if reply.value.wkc < 1 {
          break;
        }
        ghost var m := Mirror();
        var entry := ReadIdentity(station);
        SameRegistersFacts(m, Mirror());
        AlMoves(m, Mirror());
        assert link.logicalPosition == 0 ==> entry == Found(m).(station := station) == Found(old(Mirror()));
        slaves := slaves + [entry];
        pos := pos + 1;
      }
    }

    /** Scan and bring-up in a row: with valid mailboxes in INIT, every request is granted and the slave ends in OP. */
    method ScanAndStart() returns (preop: int, safeop: int, op: int)
      requires Valid() && link.logicalPosition == 0
      requires SlaveRuns.AlWellFormed(Mirror()) && SlaveRuns.AlState(Mirror()) == Al.INIT
      requires SyncManager.ValidPair(Mirror())
      modifies link.esc, this`slaves
      ensures Valid() && preop == safeop == op == 0
      ensures SlaveRuns.AlState(Mirror()) == Al.OP && !SlaveRuns.AlError(Mirror())
      ensures slaves == [Found(old(Mirror())).(state := Al.OP)]
    {
      hide SlaveRuns.AlWellFormed, SlaveRuns.AlState, SlaveRuns.AlError, SyncManager.ValidPair, ReadU16, Found,
           SlaveRuns.SameAl;
      ghost var m0 := Mirror();
      ScanNetwork();
      AlMoves(m0, Mirror());
      preop := RequestState(0, Al.PREOP);
      safeop := RequestState(0, Al.SAFEOP);
      op := RequestState(0, Al.OP);
    }

    /** The scan of a slave that was only initialised, and perhaps given a station address before. */
    method ScanNewSlave(ghost id: Identity, ghost earlier: u16)
      requires Valid() && link.logicalPosition == 0 && Mirror() == Splice(Initial(id), STADR, Le16(earlier))
      modifies link.esc, this`slaves
      ensures Valid() && slaves == [Record(0x1000, Al.INIT, id.vendor, id.product, id.revision, id.serial)]
    {
      FoundInitial(id, earlier);
      ScanNetwork();
    }
  }
}
