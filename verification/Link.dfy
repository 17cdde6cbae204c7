/** One datagram in one frame: what goes to the slave and what comes back, through both frame codecs. */
module Link {
  import opened Bytes
  import opened Esc
  import opened Frame
  import FrameLaws
  import Slave

  /** Receive buffer of the master. */
  const RX_CAP := 1600

  /** A frame with a single datagram. */
  function Carry(dst: seq<u8>, src: seq<u8>, d: Dgram): seq<u8>
    requires |dst| == 6 && |src| == 6 && |d.data| <= Slave.DG_DATA_MAX
  {
    EthFrame(dst, src, Encode(d))
  }

  /** The datagram in a received frame, when its data fit into `cap` bytes. */
  function AnswerIn(frame: seq<u8>, cap: Option<nat>): Option<Dgram> {
    match EthPayload(frame)
    case None => None
    case Some(pdu) => Parse(pdu, 0, cap)
  }

  lemma SplitOfOne(d: Dgram)
    ensures Split(Encode(d)) == Some([d])
    ensures EncodeAll([d]) == Encode(d)
  {
    assert [d][1..] == [];
    assert EncodeAll([d]) == Encode(d) + EncodeAll([]);
    assert EncodeAll([d]) == Encode(d);
    FrameLaws.SplitOfEncode([d]);
  }

  /** The slave answers a single datagram with one frame back to the sender, and changes only as that datagram says. */
  lemma SingleDatagram(pos: u16, mac: seq<u8>, m: Mem, dst: seq<u8>, src: seq<u8>, d: Dgram)
    requires |mac| == 6 && |dst| == 6 && |src| == 6 && |d.data| <= Slave.DG_DATA_MAX
    ensures Slave.ProcessEthernet(pos, mac, m, Carry(dst, src, d), RX_CAP)
            == Slave.FrameRun(Slave.StepMem(pos, m, d), Some(Carry(src, mac, Slave.StepReply(pos, m, d))))
  {
    hide Encode, EthFrame, EthPayload, Slave.StepMem, Slave.StepReply, Slave.RunPdu;
    var rx, reply := Carry(dst, src, d), Slave.StepReply(pos, m, d);
    FrameLaws.FrameRoundTrip(dst, src, Encode(d), []);
    assert rx[6..12] == src by { SenderOf(dst, src, Encode(d)); }
    SplitOfOne(d);
    RunOfOne(pos, m, d);
    SplitOfOne(reply);
    SameLength(pos, m, d);
  }

  lemma SenderOf(dst: seq<u8>, src: seq<u8>, payload: seq<u8>)
    requires |dst| == 6 && |src| == 6 && |payload| <= MAX_EC_PAYLOAD
    ensures EthFrame(dst, src, payload)[6..12] == src
  {
  }

  lemma SameLength(pos: u16, m: Mem, d: Dgram)
    ensures |Slave.StepReply(pos, m, d).data| == |d.data|
  {
  }

  lemma RunOfOne(pos: u16, m: Mem, d: Dgram)
    requires |d.data| <= Slave.DG_DATA_MAX
    ensures Slave.RunPdu(pos, m, [d], MAX_EC_PAYLOAD)
            == Slave.PduRun(Slave.StepMem(pos, m, d), Some([Slave.StepReply(pos, m, d)]))
  {
    hide Slave.StepMem, Slave.StepReply;
    var m', reply := Slave.StepMem(pos, m, d), Slave.StepReply(pos, m, d);
    assert [d][1..] == [];
    var rest := Slave.RunPdu(pos, m', [d][1..], MAX_EC_PAYLOAD - WireSize(|d.data|));
    assert rest == Slave.PduRun(m', Some([]));
    assert [reply] + [] == [reply];
  }

  /** The master gets the answering datagram back out of the frame. */
  lemma Delivered(dst: seq<u8>, src: seq<u8>, d: Dgram, cap: Option<nat>)
    requires |dst| == 6 && |src| == 6 && |d.data| <= Slave.DG_DATA_MAX
    requires cap.Some? ==> |d.data| <= cap.value
    ensures AnswerIn(Carry(dst, src, d), cap) == Some(d) && EthPayload(Carry(dst, src, d)) == Some(Encode(d))
  {
    FrameLaws.FrameRoundTrip(dst, src, Encode(d), []);
    SplitOfOne(d);
    FrameLaws.RecordOfSplit(Encode(d), 0);
  }

  /** A datagram too long for the slave is not answered and changes nothing. */
  lemma OverlongRefused(pos: u16, mac: seq<u8>, m: Mem, dst: seq<u8>, src: seq<u8>, d: Dgram)
    requires |mac| == 6 && |dst| == 6 && |src| == 6
    requires Slave.DG_DATA_MAX < |d.data| && WireSize(|d.data|) <= MAX_EC_PAYLOAD
    ensures Slave.ProcessEthernet(pos, mac, m, EthFrame(dst, src, Encode(d)), RX_CAP) == Slave.FrameRun(m, None)
  {
    FrameLaws.FrameRoundTrip(dst, src, Encode(d), []);
    SplitOfOne(d);
  }
}
