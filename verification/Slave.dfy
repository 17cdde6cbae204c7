/** The slave: one datagram at a time against the mirror, a whole PDU, a whole Ethernet frame. */
module Slave {
  import opened Bytes
  import opened Esc
  import opened Frame
  import FrameLaws
  import Al
  import Mailbox

  /** The largest datagram the slave takes. */
  const DG_DATA_MAX := 256

  predicate Covers(ado: u16, len: nat, reg: nat) {
    ado <= reg < ado + len
  }

  predicate IsWrite(d: Dgram) {
    d.cmd == CMD_FPWR || d.cmd == CMD_APWR
  }

  /** FPRD and FPWR select the slave by its nonzero station address, APWR by its ring position. */
  predicate Addressed(pos: u16, m: Mem, d: Dgram) {
    if d.cmd == CMD_FPRD || d.cmd == CMD_FPWR then ReadU16(m, STADR) != 0 && d.adp == ReadU16(m, STADR)
    else d.cmd == CMD_APWR && d.adp == pos
  }

  /** The datagram is carried out, and answered with working counter 1. */
  predicate Performed(pos: u16, m: Mem, d: Dgram) {
    Addressed(pos, m, d) && InRange(d.ado, |d.data|)
  }

  function AfterWrite(m: Mem, d: Dgram): Mem
    requires InRange(d.ado, |d.data|)
  {
    var written := Splice(m, d.ado, d.data);
    if Covers(d.ado, |d.data|, ALCTL) then Al.OnControl(written) else written
  }

  /** The mirror after one datagram. */
  function StepMem(pos: u16, m: Mem, d: Dgram): Mem {
    if !Performed(pos, m, d) then m
    else if d.cmd == CMD_FPRD then Mailbox.OnSm1Read(m, d.ado, |d.data|)
    else if d.cmd == CMD_FPWR then Mailbox.OnSm0Write(AfterWrite(m, d), d.ado, |d.data|)
    else AfterWrite(m, d)
  }

  /** The answer to one datagram: the incoming working counter is not used. */
  function StepReply(pos: u16, m: Mem, d: Dgram): Dgram {
    if !Performed(pos, m, d) then d.(wkc := 0)
    else if d.cmd == CMD_FPRD then d.(wkc := 1, data := Slice(m, d.ado, |d.data|))
    else d.(wkc := 1)
  }

  /** The mirror afterwards, and the answers when the whole PDU could be processed. */
  datatype PduRun = PduRun(mem: Mem, replies: Option<seq<Dgram>>)

  /** Datagrams in order; the run stops at one that is too long or whose answer does not fit. */
  function RunPdu(pos: u16, m: Mem, ds: seq<Dgram>, room: nat): PduRun
    decreases |ds|
  {
    if ds == [] then PduRun(m, Some([]))
    else if |ds[0].data| > DG_DATA_MAX then PduRun(m, None)
    else
      var m' := StepMem(pos, m, ds[0]);
      var size := WireSize(|ds[0].data|);
      if size > room then PduRun(m', None)
      else
        var rest := RunPdu(pos, m', ds[1..], room - size);
        PduRun(rest.mem, Prepend([StepReply(pos, m, ds[0])], rest.replies))
  }

  function ProcessPdu(pos: u16, m: Mem, pdu: seq<u8>, room: nat): PduRun {
    match Split(pdu)
    case None => PduRun(m, None)
    case Some(ds) => RunPdu(pos, m, ds, room)
  }

  lemma {:induction false} RepliesFit(pos: u16, m: Mem, ds: seq<Dgram>, room: nat)
    requires RunPdu(pos, m, ds, room).replies.Some?
    ensures |RunPdu(pos, m, ds, room).replies.value| == |ds|
    ensures |EncodeAll(RunPdu(pos, m, ds, room).replies.value)| == |EncodeAll(ds)| <= room
    decreases |ds|
  {
    if ds != [] {
      var rest := RunPdu(pos, StepMem(pos, m, ds[0]), ds[1..], room - WireSize(|ds[0].data|));
      RepliesFit(pos, StepMem(pos, m, ds[0]), ds[1..], room - WireSize(|ds[0].data|));
      assert RunPdu(pos, m, ds, room).replies.value[1..] == rest.replies.value;
    }
  }

  datatype FrameRun = FrameRun(mem: Mem, tx: Option<seq<u8>>)

  /** A received frame: the mirror afterwards and the answering frame, if one is built. */
  function ProcessEthernet(pos: u16, mac: seq<u8>, m: Mem, rx: seq<u8>, txCap: nat): FrameRun
    requires |mac| == 6
  {
    match EthPayload(rx)
    case None => FrameRun(m, None)
    case Some(pdu) =>
      if |pdu| > MAX_EC_PAYLOAD then FrameRun(m, None)
      else
        var run := ProcessPdu(pos, m, pdu, MAX_EC_PAYLOAD);
        if run.replies.None? then FrameRun(run.mem, None)
        else
          var out := EncodeAll(run.replies.value);
          if 18 + |out| > txCap then FrameRun(run.mem, None)
          else if |out| > MAX_EC_PAYLOAD then FrameRun(run.mem, None)
          else FrameRun(run.mem, Some(EthFrame(rx[6..12], mac, out)))
  }

  /** The slave's state: the mirror, its Ethernet address and its position on the ring. */
  class Device {
    const esc: array<u8>
    var mac: seq<u8>
    var logicalPosition: u16

    ghost predicate Valid()
      reads this
    {
      esc.Length == SIZE && |mac| == 6
    }

    ghost function Mirror(): Mem
      requires Valid()
      reads this, esc
    {
      esc[..]
    }

    constructor (mac: seq<u8>, id: Identity)
      requires |mac| == 6
      ensures Valid() && fresh(esc)
      ensures this.mac == mac && logicalPosition == 0 && Mirror() == Initial(id)
    {
      esc := new u8[SIZE](i => 0);
      this.mac := mac;
      logicalPosition := 0;
      new;
      assert esc[..] == Zeros(SIZE);
      SetInitial(id);
    }

    /** Clears the mirror and puts identity and AL status INIT back; address and position stay. */
    method Reset(id: Identity)
      requires Valid()
      modifies esc
      ensures Valid() && Mirror() == Initial(id)
    {
      forall i | 0 <= i < SIZE {
        esc[i] := 0;
      }
      assert esc[..] == Zeros(SIZE);
      SetInitial(id);
    }

    method SetInitial(id: Identity)
      requires Valid() && Mirror() == Zeros(SIZE)
      modifies esc
      ensures Valid() && Mirror() == Initial(id)
    {
      Copy(esc, VENDOR, Le32(id.vendor));
      Copy(esc, PRODUCT, Le32(id.product));
      Copy(esc, REVISION, Le32(id.revision));
      Copy(esc, SERIAL, Le32(id.serial));
      Copy(esc, ALSTAT, [1, 0]);
      Copy(esc, ALSTACODE, [0, 0]);
    }

    /** The effect of a write datagram in range: copy the data, then look at a new AL control word. */
    method WriteRegisters(d: Dgram)
      requires Valid() && InRange(d.ado, |d.data|)
      modifies esc
      ensures Valid() && Mirror() == AfterWrite(old(Mirror()), d)
    {
      Copy(esc, d.ado, d.data);
      if Covers(d.ado, |d.data|, ALCTL) {
        Al.OnControlWrite(esc);
      }
    }

    /** Carries out one datagram: working counter and answer data. */
    method ProcessOne(d: Dgram) returns (wkc: u16, dataOut: seq<u8>)
      requires Valid()
      modifies esc
      ensures Valid()
      ensures Mirror() == StepMem(logicalPosition, old(Mirror()), d)
      ensures |dataOut| == |d.data|
      ensures d.(data := dataOut, wkc := wkc) == StepReply(logicalPosition, old(Mirror()), d)
    {
      ghost var m := Mirror();
      wkc, dataOut := 0, d.data;
      var dlen := |d.data|;
      var st := U16(esc[STADR], esc[STADR + 1]);
      assert st == ReadU16(m, STADR);
      if d.cmd == CMD_FPRD {
        if st != 0 && d.adp == st {
          if dlen > 0 && d.ado + dlen <= SIZE {
            dataOut := esc[d.ado..d.ado + dlen];
            assert dataOut == Slice(m, d.ado, dlen);
            wkc := 1;
            Mailbox.AfterSm1Read(esc, d.ado, dlen);
          }
        }
      } else if d.cmd == CMD_FPWR {
        if st != 0 && d.adp == st {
          if dlen > 0 && d.ado + dlen <= SIZE {
            WriteRegisters(d);
            wkc := 1;
            var complete := Mailbox.AfterSm0Write(esc, d.ado, dlen);
          }
        }
      } else if d.cmd == CMD_APWR {
        if d.adp == logicalPosition && dlen > 0 && d.ado + dlen <= SIZE {
          WriteRegisters(d);
          wkc := 1;
        }
      }
    }

    /** Walks the PDU and builds the answer in `out`; -1 leaves the effects of the datagrams before the fault. */
    method ProcessPduBytes(pdu: seq<u8>, out: array<u8>, cap: nat) returns (r: int, outLen: nat)
      requires Valid() && out != esc && cap <= out.Length
      modifies esc, out
      ensures Valid()
      ensures var run := ProcessPdu(logicalPosition, old(Mirror()), pdu, cap);
              && Mirror() == run.mem
              && r == (if run.replies.Some? then 0 else -1)
              && (r == 0 ==> outLen <= cap && out[..outLen] == EncodeAll(run.replies.value))
    {
      outLen := 0;
      var nd := CountDatagrams(pdu);
      if nd < 0 {
        return -1, 0;
      }
      ghost var ds, m := Split(pdu).value, Mirror();
      ghost var done: seq<Dgram> := [];
      var offOut, i := 0, 0;
      PrependNone(RunPdu(logicalPosition, m, ds, cap).replies);
      assert ds[0..] == ds;
      while i < nd
        invariant 0 <= i <= nd == |ds| && Valid()
        invariant offOut == |EncodeAll(done)| <= cap && out[..offOut] == EncodeAll(done)
        invariant Reaches(logicalPosition, m, ds, cap, i, Mirror(), done)
      {
        FrameLaws.RecordOfSplit(pdu, i);
        ReachesNext(logicalPosition, m, ds, cap, i, Mirror(), done);
        var parsed := DgramParse(pdu, i, Some(DG_DATA_MAX));
        if parsed.None? {
          return -1, 0;
        }
        var d := parsed.value;
        var dlen := |d.data|;
        ghost var reply := StepReply(logicalPosition, Mirror(), d);
        var wkc, dataOut := ProcessOne(d);
        ghost var wire := out[..];
        var enc := DgramEncode(out, offOut, cap - offOut, d.cmd, d.idx, d.adp, d.ado, dlen, d.irq, wkc, Some(dataOut));
        if enc < 0 {
          return -1, 0;
        }
        assert dataOut[..dlen] == dataOut;
        SplicePrefix(wire, offOut, Encode(reply));
        done := done + [reply];
        offOut := offOut + enc;
        assert out[..offOut] == Splice(wire, offOut - enc, Encode(reply))[..offOut];
        i := i + 1;
      }
      assert ds[nd..] == [];
      assert done + [] == done;
      return 0, offOut;
    }

    /** One received Ethernet frame and, when it returns 0, the answering frame in `tx`. */
    method ProcessEthernetFrame(rx: seq<u8>, tx: array<u8>, txCap: nat) returns (r: int, txLen: nat)
      requires Valid() && tx != esc && txCap <= tx.Length
      modifies esc, tx
      ensures Valid()
      ensures var run := ProcessEthernet(logicalPosition, mac, old(Mirror()), rx, txCap);
              && Mirror() == run.mem
              && r == (if run.tx.Some? then 0 else -1)
              && (r == 0 ==> txLen <= txCap && tx[..txLen] == run.tx.value)
    {
      txLen := 0;
      var pdu := ParseEthFrame(rx);
      if pdu.None? {
        return -1, 0;
      }
      if |pdu.value| > MAX_EC_PAYLOAD {
        return -1, 0;
      }
      var pduBuf := new u8[MAX_EC_PAYLOAD];
      var ok, outLen := ProcessPduBytes(pdu.value, pduBuf, MAX_EC_PAYLOAD);
      if ok != 0 {
        return -1, 0;
      }
      var n := BuildEthFrame(rx[6..12], mac, pduBuf[..outLen], tx, txCap);
      if n < 0 {
        return -1, 0;
      }
      return 0, n;
    }
  }

  /** The run of the whole list continues with datagram i in mirror `mem`, with the answers `done` so far. */
  ghost predicate Reaches(pos: u16, m: Mem, ds: seq<Dgram>, cap: nat, i: nat, mem: Mem, done: seq<Dgram>) {
    && i <= |ds| && |EncodeAll(done)| <= cap
    && var rest := RunPdu(pos, mem, ds[i..], cap - |EncodeAll(done)|);
       RunPdu(pos, m, ds, cap) == PduRun(rest.mem, Prepend(done, rest.replies))
  }

  lemma ReachesNext(pos: u16, m: Mem, ds: seq<Dgram>, cap: nat, i: nat, mem: Mem, done: seq<Dgram>)
    requires i < |ds| && Reaches(pos, m, ds, cap, i, mem, done)
    ensures var next := StepMem(pos, mem, ds[i]);
            var reply := StepReply(pos, mem, ds[i]);
            if |ds[i].data| > DG_DATA_MAX then RunPdu(pos, m, ds, cap) == PduRun(mem, None)
            else if |EncodeAll(done)| + WireSize(|ds[i].data|) > cap then RunPdu(pos, m, ds, cap) == PduRun(next, None)
            else
              && EncodeAll(done + [reply]) == EncodeAll(done) + Encode(reply)
              && Reaches(pos, m, ds, cap, i + 1, next, done + [reply])
  {
    var next, reply := StepMem(pos, mem, ds[i]), StepReply(pos, mem, ds[i]);
    var size := WireSize(|ds[i].data|);
    assert ds[i..][0] == ds[i] && ds[i..][1..] == ds[i + 1..];
    if |ds[i].data| <= DG_DATA_MAX && |EncodeAll(done)| + size <= cap {
      var rest := RunPdu(pos, next, ds[i + 1..], cap - |EncodeAll(done)| - size);
      AppendOne(done, reply, rest.replies);
    }
  }

  lemma PrependNone(rest: Option<seq<Dgram>>)
    ensures Prepend([], rest) == rest
  {
    assert rest.Some? ==> [] + rest.value == rest.value;
  }

  lemma {:induction false} AppendOne(done: seq<Dgram>, reply: Dgram, rest: Option<seq<Dgram>>)
    ensures Prepend(done, Prepend([reply], rest)) == Prepend(done + [reply], rest)
    ensures EncodeAll(done + [reply]) == EncodeAll(done) + Encode(reply)
  {
    FrameLaws.PrependTwice(done, [reply], rest);
    FrameLaws.EncodeAllAppend(done, [reply]);
    assert EncodeAll([reply]) == Encode(reply) + EncodeAll([]);
  }
}
