/** The master's queue and the slave: batched frames there, their answers back. */
module QueueTrip {
  import opened Bytes
  import opened Esc
  import opened Frame
  import opened MasterQueue
  import FrameLaws
  import Link
  import Slave
  import SlaveRuns

  /** The answers to a run of datagrams, each given in the mirror that the earlier ones left. */
  function Replies(pos: u16, m: Mem, ds: seq<Dgram>): seq<Dgram>
    decreases |ds|
  {
    if ds == [] then [] else [Slave.StepReply(pos, m, ds[0])] + Replies(pos, Slave.StepMem(pos, m, ds[0]), ds[1..])
  }

  lemma {:induction false} RepliesAppend(pos: u16, m: Mem, a: seq<Dgram>, b: seq<Dgram>)
    ensures Replies(pos, m, a + b) == Replies(pos, m, a) + Replies(pos, SlaveRuns.Run(pos, m, a), b)
    decreases |a|
  {
    hide Slave.StepMem, Slave.StepReply;
    if a == [] {
      assert a + b == b;
    } else {
      assert (a + b)[1..] == a[1..] + b;
      RepliesAppend(pos, Slave.StepMem(pos, m, a[0]), a[1..], b);
    }
  }

  /** A PDU of short datagrams whose answers fit is carried out to its end. */
  lemma {:induction false} PduAnswered(pos: u16, m: Mem, ds: seq<Dgram>, room: nat)
    requires SlaveRuns.AllShort(ds) && |EncodeAll(ds)| <= room
    ensures Slave.RunPdu(pos, m, ds, room) == Slave.PduRun(SlaveRuns.Run(pos, m, ds), Some(Replies(pos, m, ds)))
    ensures |EncodeAll(Replies(pos, m, ds))| == |EncodeAll(ds)|
    decreases |ds|
  {
    hide Slave.StepMem, Slave.StepReply;
    if ds != [] {
      PduAnswered(pos, Slave.StepMem(pos, m, ds[0]), ds[1..], room - WireSize(|ds[0].data|));
    }
    Slave.RepliesFit(pos, m, ds, room);
  }

  /** One frame of short datagrams: all are carried out, and the answering frame carries all their answers. */
  lemma FrameTrip(pos: u16, mac: seq<u8>, m: Mem, dst: seq<u8>, src: seq<u8>, ds: seq<Dgram>)
    requires |mac| == 6 && |dst| == 6 && |src| == 6
    requires SlaveRuns.AllShort(ds) && |EncodeAll(ds)| <= MAX_EC_PAYLOAD
    ensures |EncodeAll(Replies(pos, m, ds))| == |EncodeAll(ds)|
    ensures Slave.ProcessEthernet(pos, mac, m, EthFrame(dst, src, EncodeAll(ds)), Link.RX_CAP)
            == Slave.FrameRun(SlaveRuns.Run(pos, m, ds), Some(EthFrame(src, mac, EncodeAll(Replies(pos, m, ds)))))
  {
    hide EthFrame, EthPayload, Slave.RunPdu, EncodeAll, Split, SlaveRuns.Run, Replies;
    FrameLaws.FrameRoundTrip(dst, src, EncodeAll(ds), []);
    Link.SenderOf(dst, src, EncodeAll(ds));
    FrameLaws.SplitOfEncode(ds);
    PduAnswered(pos, m, ds, MAX_EC_PAYLOAD);
  }

  /** The mirror after frames received in order, and the answering frames. */
  function AfterFrames(pos: u16, mac: seq<u8>, m: Mem, frames: seq<seq<u8>>): Mem
    requires |mac| == 6
    decreases |frames|
  {
    if frames == [] then m
    else AfterFrames(pos, mac, Slave.ProcessEthernet(pos, mac, m, frames[0], Link.RX_CAP).mem, frames[1..])
  }

  function Answers(pos: u16, mac: seq<u8>, m: Mem, frames: seq<seq<u8>>): seq<seq<u8>>
    requires |mac| == 6
    decreases |frames|
  {
    if frames == [] then []
    else
      var run := Slave.ProcessEthernet(pos, mac, m, frames[0], Link.RX_CAP);
      (if run.tx.Some? then [run.tx.value] else []) + Answers(pos, mac, run.mem, frames[1..])
  }

  /** Any legal cut of datagrams of at most 256 bytes into frames has the effect of the datagrams in order, and the
      answers to the frames hold the answers to all of them, in order. */
  lemma {:induction false} CutCarriedOut(pos: u16, mac: seq<u8>, m: Mem, dst: seq<u8>, src: seq<u8>, cut: seq<Wires>,
                                         ds: seq<Dgram>)
    requires |mac| == 6 && |dst| == 6 && |src| == 6
    requires Fits(cut) && Join(cut) == Encoded(ds) && SlaveRuns.AllShort(ds)
    ensures AfterFrames(pos, mac, m, Frames(dst, src, cut)) == SlaveRuns.Run(pos, m, ds)
    ensures ReceiveAll(Answers(pos, mac, m, Frames(dst, src, cut))) == Some(Replies(pos, m, ds))
    decreases |cut|
  {
    hide Slave.ProcessEthernet, EthFrame, Encode, SlaveRuns.Run, Replies, ReceiveAll;
    if cut != [] {
      var k := |cut[0]|;
      var a, b := ds[..k], ds[k..];
      FirstFrame(dst, src, cut, ds);
      FrameTrip(pos, mac, m, dst, src, a);
      var next, back := SlaveRuns.Run(pos, m, a), EthFrame(src, mac, EncodeAll(Replies(pos, m, a)));
      CutCarriedOut(pos, mac, next, dst, src, cut[1..], b);
      SlaveRuns.RunAppend(pos, m, a, b);
      RepliesAppend(pos, m, a, b);
      var frames := Frames(dst, src, cut);
      var rest := Answers(pos, mac, next, frames[1..]);
      assert Answers(pos, mac, m, frames) == [back] + rest;
      AnswerReceived(src, mac, Replies(pos, m, a), rest);
    } else {
      assert ds == [];
      NothingToDo(pos, m);
    }
  }

  lemma NothingToDo(pos: u16, m: Mem)
    ensures SlaveRuns.Run(pos, m, []) == m && Replies(pos, m, []) == [] && ReceiveAll([]) == Some([])
  {
  }

  lemma FirstFrame(dst: seq<u8>, src: seq<u8>, cut: seq<Wires>, ds: seq<Dgram>)
    requires |dst| == 6 && |src| == 6 && cut != []
    requires Fits(cut) && Join(cut) == Encoded(ds) && SlaveRuns.AllShort(ds)
    ensures var k := |cut[0]|;
            && k <= |ds| && ds == ds[..k] + ds[k..] && |EncodeAll(ds[..k])| <= MAX_EC_PAYLOAD
            && SlaveRuns.AllShort(ds[..k]) && SlaveRuns.AllShort(ds[k..])
            && Fits(cut[1..]) && Join(cut[1..]) == Encoded(ds[k..])
            && Frames(dst, src, cut) == [EthFrame(dst, src, EncodeAll(ds[..k]))] + Frames(dst, src, cut[1..])
  {
    hide EthFrame, Encode, EncodeAll;
    var k := |cut[0]|;
    EncodedAppend(ds[..k], ds[k..]);
    assert ds == ds[..k] + ds[k..];
    assert cut[0] == Encoded(ds)[..k] == Encoded(ds[..k]);
    assert Join(cut[1..]) == Encoded(ds)[k..] == Encoded(ds[k..]);
    FlattenEncoded(ds[..k]);
  }

  lemma AnswerReceived(dst: seq<u8>, src: seq<u8>, replies: seq<Dgram>, rest: seq<seq<u8>>)
    requires |dst| == 6 && |src| == 6 && |EncodeAll(replies)| <= MAX_EC_PAYLOAD
    ensures ReceiveAll([EthFrame(dst, src, EncodeAll(replies))] + rest) == Prepend(replies, ReceiveAll(rest))
  {
    hide EthFrame, EthPayload, Split, EncodeAll;
    var frames := [EthFrame(dst, src, EncodeAll(replies))] + rest;
    assert frames[1..] == rest;
    FrameLaws.FrameRoundTrip(dst, src, EncodeAll(replies), []);
    FrameLaws.SplitOfEncode(replies);
  }

  /** The queue of the master from end to end: its frames have the effect of the queued datagrams, one by one, and bring
      back all their answers. */
  lemma QueueCarriedOut(pos: u16, mac: seq<u8>, m: Mem, dst: seq<u8>, src: seq<u8>, ds: seq<Dgram>)
    requires |mac| == 6 && |dst| == 6 && |src| == 6 && SlaveRuns.AllShort(ds)
    ensures Sendable(Encoded(ds)) && Fits(Batches(Encoded(ds)))
    ensures var frames := Frames(dst, src, Batches(Encoded(ds)));
            && AfterFrames(pos, mac, m, frames) == SlaveRuns.Run(pos, m, ds)
            && ReceiveAll(Answers(pos, mac, m, frames)) == Some(Replies(pos, m, ds))
  {
    hide Batches, Frames, Join, Encoded, SlaveRuns.Run, Replies, ReceiveAll, Answers, AfterFrames;
    forall k | 0 <= k < |ds|
      ensures |Encoded(ds)[k]| <= MAX_EC_PAYLOAD
    {
      EncodedAt(ds, k);
    }
    BatchesConserve(Encoded(ds));
    CutCarriedOut(pos, mac, m, dst, src, Batches(Encoded(ds)), ds);
  }
}
