/** End to end: a master that follows the SDO protocol reads a whole object through frames, mailboxes and
    the CoE server. */
module Upload {
  import opened Bytes
  import opened Esc
  import opened Frame
  import opened Controller
  import opened ControllerRuns
  import Coe
  import CoeRuns
  import Link
  import Mailbox
  import ObjectDictionary
  import SdoLaws
  import SM = SyncManager
  import Slave

  /** The slave's ring position and address, the master's address, and the station address in use. */
  datatype Path = Path(pos: u16, slaveMac: seq<u8>, masterMac: seq<u8>, station: u16)

  predicate ValidPath(p: Path) {
    |p.slaveMac| == 6 && |p.masterMac| == 6 && p.station != 0
  }

  /** The slave answers to the station address and has a good mailbox layout. */
  predicate Ready(p: Path, n: Node) {
    ValidPath(p) && ValidNode(n) && GoodLayout(n.mem) && ReadU16(n.mem, STADR) == p.station
  }

  /** The length of a mailbox request. */
  function Sm0Length(n: Node): nat {
    Config(n.mem, 0).length
  }

  function WriteSm0(p: Path, n: Node, req: seq<u8>): Dgram
    requires |req| <= 256
  {
    Datagram(CMD_FPWR, 0, p.station, Config(n.mem, 0).start, 0, req, 0)
  }

  function ReadSm1(p: Path, n: Node): Dgram
    requires Config(n.mem, 1).length <= 256
  {
    Datagram(CMD_FPRD, 0, p.station, Config(n.mem, 1).start, 0, Zeros(Config(n.mem, 1).length), 0)
  }

  datatype Exchanged = Exchanged(node: Node, reply: Option<seq<u8>>)

  /** One mailbox round trip: a frame that writes the whole of SM0, and a frame that reads the whole of SM1. */
  function Exchange(p: Path, n: Node, req: seq<u8>): (r: Exchanged)
    requires Ready(p, n) && |req| == Sm0Length(n)
    ensures ValidNode(r.node)
  {
    var request := Link.Carry(p.slaveMac, p.masterMac, WriteSm0(p, n, req));
    var written := ProcessEthernet(p.pos, p.slaveMac, n, request, Link.RX_CAP);
    var fetch := Link.Carry(p.slaveMac, p.masterMac, ReadSm1(p, n));
    var read := ProcessEthernet(p.pos, p.slaveMac, written.node, fetch, Link.RX_CAP);
    var answer := if read.tx.None? then None else Link.AnswerIn(read.tx.value, Some(Config(n.mem, 1).length));
    Exchanged(read.node, if answer.Some? && answer.value.wkc >= 1 then Some(answer.value.data) else None)
  }

  lemma RequestArrives(p: Path, n: Node, req: seq<u8>)
    requires Ready(p, n) && |req| == Sm0Length(n)
    ensures var m := Slave.StepMem(p.pos, n.mem, WriteSm0(p, n, req));
            && GoodLayout(m) && SameLayout(n.mem, m) && ReadU16(m, STADR) == p.station
            && RequestReady(m) && Request(m) == req && Content(m) == Content(n.mem)
  {
    assert |req| <= 256 && Config(n.mem, 0).start + |req| <= SIZE;
    hide GoodLayout, Slave.AfterWrite, Slave.StepMem, Mailbox.OnSm0Write, RequestReady, Splice, Content, Request,
         Overlaps, ReadU16;
    var d := WriteSm0(p, n, req);
    RequestWritten(p, n, req);
    RequestStep(p, n, req);
    WrittenLayout(n.mem, d);
    RequestKept(Splice(n.mem, d.ado, req), d.ado, |req|);
  }

  /** The write goes into SM0's buffer and nowhere near SM1's. */
  lemma RequestStep(p: Path, n: Node, req: seq<u8>)
    requires Ready(p, n) && |req| == Sm0Length(n)
    ensures var d := WriteSm0(p, n, req);
            && Slave.StepMem(p.pos, n.mem, d) == Mailbox.OnSm0Write(Slave.AfterWrite(n.mem, d), d.ado, |req|)
            && !Overlaps(Config(n.mem, 1), d.ado, |req|)
  {
    hide Slave.AfterWrite, Mailbox.OnSm0Write;
  }

  lemma RequestWritten(p: Path, n: Node, req: seq<u8>)
    requires Ready(p, n) && |req| == Sm0Length(n)
    ensures var d := WriteSm0(p, n, req);
            var written := Splice(n.mem, d.ado, req);
            && Slave.AfterWrite(n.mem, d) == written && ReadU16(written, STADR) == p.station
            && Slice(written, d.ado, |req|) == req
            && Slave.Performed(p.pos, n.mem, d) && Mailbox.EndsAt(SM.Read(n.mem, 0), d.ado, |req|) && KeepsLayout(d)
  {
  }

  lemma RequestKept(m: Mem, start: nat, len: nat)
    requires GoodLayout(m) && start == Config(m, 0).start && len == Config(m, 0).length
    ensures var n := Mailbox.OnSm0Write(m, start, len);
            && GoodLayout(n) && SameLayout(m, n) && ReadU16(n, STADR) == ReadU16(m, STADR)
            && RequestReady(n) && Request(n) == Slice(m, start, len) && Content(n) == Content(m)
  {
    var n := Mailbox.OnSm0Write(m, start, len);
    Mailbox.HandshakeFrame(m, start, len);
    StatusOnly(m, n);
    SM.FullAfter(m, 0);
    assert Slice(n, start, len) == Slice(m, start, len);
  }

  lemma ReplyPlaced(n: Node, station: u16)
    requires ValidNode(n) && GoodLayout(n.mem) && RequestReady(n.mem) && ReadU16(n.mem, STADR) == station
    ensures var reply := Coe.Process(n.coe, Request(n.mem), REPLY_CAP).reply;
            var m := Dispatch(n).mem;
            && GoodLayout(m) && SameLayout(n.mem, m) && ReadU16(m, STADR) == station && !SM.Full(m, 0)
            && Content(m) == if 0 < |reply| <= Config(m, 1).length then Padded(reply, Config(m, 1).length)
                             else Content(n.mem)
  {
    hide Coe.Process, Content, GoodLayout, SM.ClearFull, Mailbox.WriteSm1, Request;
    var m, reply := n.mem, Coe.Process(n.coe, Request(n.mem), REPLY_CAP).reply;
    ReplyMaybeWritten(m, reply);
    Accepted(m, |reply|);
    StationKept(m, reply);
    Emptied(Mailbox.WriteSm1(m, reply));
  }

  lemma Accepted(m: Mem, len: nat)
    requires GoodLayout(m)
    ensures Mailbox.AcceptsReply(m, len) <==> 0 < len <= Config(m, 1).length
  {
  }

  lemma StationKept(m: Mem, reply: seq<u8>)
    requires GoodLayout(m)
    ensures ReadU16(SM.ClearFull(Mailbox.WriteSm1(m, reply), 0), STADR) == ReadU16(m, STADR)
  {
    hide SM.ClearFull;
    var n := Mailbox.WriteSm1(m, reply);
    ClearFrame(n);
    if Mailbox.AcceptsReply(m, |reply|) {
      ReplyWritten(m, reply);
    }
  }

  lemma ClearFrame(m: Mem)
    ensures forall a :: 0 <= a < SIZE && a != SM.StatusAddr(0) ==> SM.ClearFull(m, 0)[a] == m[a]
  {
  }

  lemma ReplyRead(p: Path, n: Node)
    requires Ready(p, n) && !SM.Full(n.mem, 0)
    ensures var d := ReadSm1(p, n);
            var m := Slave.StepMem(p.pos, n.mem, d);
            && Ready(p, Node(m, n.coe)) && SameLayout(n.mem, m)
            && Dispatch(Node(m, n.coe)) == Node(m, n.coe)
            && Slave.StepReply(p.pos, n.mem, d) == d.(wkc := 1, data := Content(n.mem))
  {
    var d := ReadSm1(p, n);
    Mailbox.HandshakeFrame(n.mem, d.ado, |d.data|);
    StatusOnly(n.mem, Slave.StepMem(p.pos, n.mem, d));
  }

  /** A round trip delivers the request to the CoE server and its reply, zero padded, to the master; without a reply
      that fits SM1 the master reads what SM1 held before. */
  lemma ExchangeDelivers(p: Path, n: Node, req: seq<u8>)
    requires Ready(p, n) && |req| == Sm0Length(n)
    ensures var answer, r := Coe.Process(n.coe, req, REPLY_CAP), Exchange(p, n, req);
            && Ready(p, r.node) && SameLayout(n.mem, r.node.mem) && r.node.coe == answer.state
            && r.reply.Some? && |r.reply.value| == Config(n.mem, 1).length
            && r.reply.value == if 0 < |answer.reply| <= Config(n.mem, 1).length
                                then Padded(answer.reply, Config(n.mem, 1).length) else Content(n.mem)
  {
    var d1 := WriteSm0(p, n, req);
    Link.SingleDatagram(p.pos, p.slaveMac, n.mem, p.slaveMac, p.masterMac, d1);
    RequestArrives(p, n, req);
    var arrived := Node(Slave.StepMem(p.pos, n.mem, d1), n.coe);
    ReplyPlaced(arrived, p.station);
    var answered := Dispatch(arrived);
    var d2 := ReadSm1(p, n);
    assert d2 == ReadSm1(p, answered);
    Link.SingleDatagram(p.pos, p.slaveMac, answered.mem, p.slaveMac, p.masterMac, d2);
    ReplyRead(p, answered);
    Link.Delivered(p.masterMac, p.slaveMac, Slave.StepReply(p.pos, answered.mem, d2), Some(Config(n.mem, 1).length));
  }

  /** An SDO request as a mailbox frame of the length of SM0. */
  function SdoRequest(n: Node, station: u16, cmd: u8, index: u16, subindex: u8): (req: seq<u8>)
    requires Config(n.mem, 0).length >= 16
    ensures |req| == Sm0Length(n)
  {
    Padded([10, 0] + Le16(station) + [0, Coe.MBX_TYPE_COE] + [0, 0x10 * Coe.SVC_SDO_REQ]
           + [cmd] + Le16(index) + [subindex], Config(n.mem, 0).length)
  }

  lemma RequestFields(n: Node, station: u16, cmd: u8, index: u16, subindex: u8)
    requires Config(n.mem, 0).length >= 16 && ValidNode(n)
    ensures var req := SdoRequest(n, station, cmd, index, subindex);
            && req[8] == cmd && U16(req[9], req[10]) == index && req[11] == subindex
            && Coe.Process(n.coe, req, REPLY_CAP) == Coe.Sdo(n.coe, req, REPLY_CAP)
  {
    var req := SdoRequest(n, station, cmd, index, subindex);
    assert req[5] == Coe.MBX_TYPE_COE && req[7] == 0x10 * Coe.SVC_SDO_REQ;
    assert req[9] == Le16(index)[0] && req[10] == Le16(index)[1];
  }

  /** What the master got, how many round trips it took, and the length that was announced before the segments. */
  datatype Uploaded = Uploaded(node: Node, data: Option<seq<u8>>, exchanges: nat, announced: Option<u32>)

  /** The first 16 bytes of a mailbox buffer, which hold an SDO reply. */
  function SdoPart(reply: Option<seq<u8>>): seq<u8> {
    if reply.Some? && |reply.value| >= 16 then reply.value[..16] else []
  }

  /** Segment requests with alternating toggle bit until the last segment, at most `budget` of them. */
  function FetchSegments(p: Path, n: Node, toggle: u8, got: seq<u8>, budget: nat): Uploaded
    requires Ready(p, n) && (toggle == 0 || toggle == Coe.TOGGLE)
    decreases budget
  {
    if budget == 0 then Uploaded(n, None, 0, None)
    else
      var req := SdoRequest(n, p.station, 0x20 * Coe.CCS_SEGMENT + toggle, 0, 0);
      ExchangeDelivers(p, n, req);
      var x := Exchange(p, n, req);
      var reply := SdoPart(x.reply);
      if !CoeRuns.IsSegment(reply) || Coe.ToggleOf(reply[8]) != toggle then Uploaded(x.node, None, 1, None)
      else
        var got' := got + CoeRuns.SegmentBytes(reply);
        if CoeRuns.IsLast(reply) then Uploaded(x.node, Some(got'), 1, None)
        else
          var rest := FetchSegments(p, x.node, Coe.TOGGLE - toggle, got', budget - 1);
          rest.(exchanges := rest.exchanges + 1)
  }

  /** A whole upload: the initiating request, and the segments when the reply is not expedited. */
  function UploadObject(p: Path, n: Node, index: u16, subindex: u8, budget: nat): Uploaded
    requires Ready(p, n)
  {
    var req := SdoRequest(n, p.station, 0x20 * Coe.CCS_UPLOAD, index, subindex);
    ExchangeDelivers(p, n, req);
    var x := Exchange(p, n, req);
    var reply := SdoPart(x.reply);
    if !CoeRuns.IsSdoReply(reply) || reply[8] / 0x20 != 2 then Uploaded(x.node, None, 1, None)
    else if Bit1(reply[8]) then Uploaded(x.node, Some(reply[12..16 - reply[8] / 4 % 4]), 1, None)
    else
      var rest := FetchSegments(p, x.node, 0, [], budget);
      rest.(exchanges := rest.exchanges + 1, announced := if Bit0(reply[8]) then Some(U32(reply[12..16])) else None)
  }

  /** Segments needed for `n` bytes. */
  function Segments(n: nat): nat {
    (n + 6) / 7
  }

  lemma PaddedPart(reply: seq<u8>, n: nat)
    requires |reply| == 16 <= n
    ensures SdoPart(Some(Padded(reply, n))) == reply
  {
  }

  /** A reply that carries `chunk` with this toggle bit, flagged as the last one or not. */
  predicate Carries(reply: seq<u8>, toggle: u8, chunk: seq<u8>, last: bool) {
    && CoeRuns.IsSegment(reply) && Coe.ToggleOf(reply[8]) == toggle
    && CoeRuns.SegmentBytes(reply) == chunk && CoeRuns.IsLast(reply) == last
  }

  /** The server when the next segment has been sent. */
  function Advanced(s: Coe.State): Coe.State
    requires Coe.ValidState(s) && s.up.active
  {
    var data := s.od[s.up.entry].data;
    var chunk := Coe.Chunk(data, s.up.offset);
    s.(up := Coe.Upload(s.up.offset + |chunk| < |data|, s.up.entry, s.up.offset + |chunk|, Coe.TOGGLE - s.up.toggle))
  }

  lemma SegmentAnswered(n: Node, station: u16)
    requires ValidNode(n) && n.coe.up.active && Config(n.mem, 0).length >= 16
    ensures var s := n.coe;
            var req := SdoRequest(n, station, 0x20 * Coe.CCS_SEGMENT + s.up.toggle, 0, 0);
            var data := s.od[s.up.entry].data;
            var answer := Coe.Process(s, req, REPLY_CAP);
            && answer.state == Advanced(s) && |answer.reply| == 16
            && Carries(answer.reply, s.up.toggle, Coe.Chunk(data, s.up.offset), !Advanced(s).up.active)
  {
    hide Coe.UploadSegment, Carries, Advanced, SdoRequest, Coe.Process;
    var s := n.coe;
    var cmd := 0x20 * Coe.CCS_SEGMENT + s.up.toggle;
    var req := SdoRequest(n, station, cmd, 0, 0);
    RequestFields(n, station, cmd, 0, 0);
    assert cmd / 0x20 == Coe.CCS_SEGMENT && Coe.ToggleOf(cmd) == s.up.toggle;
    assert Coe.Sdo(s, req, REPLY_CAP) == Coe.UploadSegment(s, req, REPLY_CAP, cmd);
    SegmentAdvances(s, req, cmd);
  }

  lemma SegmentAdvances(s: Coe.State, req: seq<u8>, cmd: u8)
    requires Coe.ValidState(s) && s.up.active && |req| >= 16 && Coe.ToggleOf(cmd) == s.up.toggle
    ensures var answer := Coe.UploadSegment(s, req, REPLY_CAP, cmd);
            && answer.state == Advanced(s) && |answer.reply| == 16
            && Carries(answer.reply, s.up.toggle, Coe.Chunk(s.od[s.up.entry].data, s.up.offset), !Advanced(s).up.active)
  {
    var data := s.od[s.up.entry].data;
    var chunk := Coe.Chunk(data, s.up.offset);
    CoeRuns.SegmentReplyForm(req, s.up.toggle, chunk, |chunk| == |data| - s.up.offset);
  }

  /** One segment round trip: the next bytes of the object arrive, with the LAST flag when they are the rest. */
  lemma SegmentArrives(p: Path, n: Node)
    requires Ready(p, n) && n.coe.up.active
    ensures var s := n.coe;
            var x := Exchange(p, n, SdoRequest(n, p.station, 0x20 * Coe.CCS_SEGMENT + s.up.toggle, 0, 0));
            && Ready(p, x.node) && x.node.coe == Advanced(s)
            && Carries(SdoPart(x.reply), s.up.toggle, Coe.Chunk(s.od[s.up.entry].data, s.up.offset),
                       !Advanced(s).up.active)
  {
    hide Exchange, Coe.Process, SdoRequest, Carries, Advanced;
    SegmentAnswered(n, p.station);
    var req := SdoRequest(n, p.station, 0x20 * Coe.CCS_SEGMENT + n.coe.up.toggle, 0, 0);
    ExchangeDelivers(p, n, req);
    PaddedPart(Coe.Process(n.coe, req, REPLY_CAP).reply, Config(n.mem, 1).length);
  }

  lemma {:induction false} FetchCompletes(p: Path, n: Node, got: seq<u8>, budget: nat)
    requires Ready(p, n) && n.coe.up.active
    requires var data := n.coe.od[n.coe.up.entry].data;
             got == data[..n.coe.up.offset] && budget >= Segments(|data| - n.coe.up.offset)
    ensures var data, r := n.coe.od[n.coe.up.entry].data, FetchSegments(p, n, n.coe.up.toggle, got, budget);
            && r.data == Some(data) && r.exchanges == Segments(|data| - n.coe.up.offset)
            && Ready(p, r.node) && r.node.coe.od == n.coe.od && !r.node.coe.up.active
    decreases budget
  {
    hide Exchange;
    SegmentArrives(p, n);
    var data, offset := n.coe.od[n.coe.up.entry].data, n.coe.up.offset;
    var chunk, left := Coe.Chunk(data, offset), |data| - offset;
    assert data[..offset] + chunk == data[..offset + |chunk|];
    if |chunk| < left {
      assert Segments(left) == 1 + Segments(left - 7);
      var req := SdoRequest(n, p.station, 0x20 * Coe.CCS_SEGMENT + n.coe.up.toggle, 0, 0);
      FetchCompletes(p, Exchange(p, n, req).node, got + chunk, budget - 1);
    } else {
      assert data[..|data|] == data;
      assert Segments(left) == 1;
    }
  }

  /** The object can be read by upload. */
  predicate Uploadable(n: Node, index: u16, subindex: u8) {
    var k := ObjectDictionary.Lookup(n.coe.od, index, subindex);
    k.Some? && n.coe.od[k.value].Readable() && n.coe.od[k.value].data != []
  }

  /** Round trips for an object of `length` bytes. */
  function Exchanges(length: nat): nat {
    if length <= 4 then 1 else 1 + Segments(length)
  }

  /** End-to-end upload: the master reassembles exactly the stored bytes, in one round trip for up to four
      bytes and in 1 + ceil(L / 7) otherwise, and changes no object. */
  lemma UploadCompletes(p: Path, n: Node, index: u16, subindex: u8, budget: nat)
    requires Ready(p, n) && Uploadable(n, index, subindex)
    requires budget >= Segments(|n.coe.od[ObjectDictionary.Lookup(n.coe.od, index, subindex).value].data|)
    ensures var data := n.coe.od[ObjectDictionary.Lookup(n.coe.od, index, subindex).value].data;
            var r := UploadObject(p, n, index, subindex, budget);
            && r.data == Some(data) && r.exchanges == Exchanges(|data|)
            && r.announced == (if |data| <= 4 then None else Some(|data|))
            && Ready(p, r.node) && r.node.coe.od == n.coe.od && !r.node.coe.up.active
  {
    hide Exchange, Coe.Process, SdoRequest, U32;
    var data := n.coe.od[ObjectDictionary.Lookup(n.coe.od, index, subindex).value].data;
    var req := SdoRequest(n, p.station, 0x20 * Coe.CCS_UPLOAD, index, subindex);
    UploadAnswered(n, p.station, index, subindex);
    ExchangeDelivers(p, n, req);
    PaddedPart(Coe.Process(n.coe, req, REPLY_CAP).reply, Config(n.mem, 1).length);
    if |data| > 4 {
      FetchCompletes(p, Exchange(p, n, req).node, [], budget);
    }
  }

  /** The answer to the initiating request: the value itself, or a segmented upload is opened. */
  lemma UploadAnswered(n: Node, station: u16, index: u16, subindex: u8)
    requires ValidNode(n) && Uploadable(n, index, subindex) && Config(n.mem, 0).length >= 16
    ensures var s, k := n.coe, ObjectDictionary.Lookup(n.coe.od, index, subindex).value;
            var data := s.od[k].data;
            var answer := Coe.Process(s, SdoRequest(n, station, 0x20 * Coe.CCS_UPLOAD, index, subindex), REPLY_CAP);
            var reply := answer.reply;
            && answer.state.od == s.od && CoeRuns.IsSdoReply(reply) && reply[8] / 0x20 == 2
            && (if |data| <= 4 then
                  Bit1(reply[8]) && !answer.state.up.active && reply[12..16 - reply[8] / 4 % 4] == data
                else
                  !Bit1(reply[8]) && Bit0(reply[8]) && U32(reply[12..16]) == |data|
                  && answer.state.up == Coe.Upload(true, k, 0, 0))
  {
    var cmd: u8 := 0x20 * Coe.CCS_UPLOAD;
    var req := SdoRequest(n, station, cmd, index, subindex);
    RequestFields(n, station, cmd, index, subindex);
    assert Coe.Process(n.coe, req, REPLY_CAP) == Coe.UploadInit(n.coe, req, REPLY_CAP, index, subindex);
    var data := n.coe.od[ObjectDictionary.Lookup(n.coe.od, index, subindex).value].data;
    CoeRuns.UploadReplyForm(req, index, subindex, data);
    if |data| <= 4 {
      ExpeditedValue(req, index, subindex, data);
    } else {
      SdoLaws.SegmentedPositions(req, index, subindex, |data|);
    }
  }

  lemma ExpeditedValue(req: seq<u8>, index: u16, subindex: u8, value: seq<u8>)
    requires |req| >= 16 && 1 <= |value| <= 4
    ensures var reply := Coe.SdoReply(req, Coe.ExpeditedSdo(index, subindex, value));
            Bit1(reply[8]) && reply[12..16 - reply[8] / 4 % 4] == value
  {
    var reply := Coe.SdoReply(req, Coe.ExpeditedSdo(index, subindex, value));
    assert reply[8] == 0x43 + 4 * (4 - |value|);
    assert reply[12..16] == Padded(value, 4);
    assert reply[12..12 + |value|] == Padded(value, 4)[..|value|];
  }

  /** An expedited SDO download of one to four bytes, as a mailbox frame of the length of SM0. */
  function DownloadRequest(n: Node, station: u16, index: u16, subindex: u8, v: seq<u8>): (req: seq<u8>)
    requires Config(n.mem, 0).length >= 16 && 1 <= |v| <= 4
    ensures |req| == Sm0Length(n)
  {
    Padded([10, 0] + Le16(station) + [0, 0x03] + [0, 0x20] + [0x23 + 4 * (4 - |v|)] + Le16(index) + [subindex] + v,
           Config(n.mem, 0).length)
  }

  lemma DownloadFields(n: Node, station: u16, index: u16, subindex: u8, v: seq<u8>)
    requires Config(n.mem, 0).length >= 16 && 1 <= |v| <= 4
    ensures var req := DownloadRequest(n, station, index, subindex, v);
            SdoLaws.Downloads(req, v) && SdoLaws.IndexOf(req) == index && req[11] == subindex
  {
    hide Padded, Le16, U16;
    var req := DownloadRequest(n, station, index, subindex, v);
    var body := [10, 0] + Le16(station) + [0, 0x03] + [0, 0x20] + [0x23 + 4 * (4 - |v|)] + Le16(index) + [subindex] + v;
    assert req[..|body|] == body;
    assert forall k :: 0 <= k < |body| ==> req[k] == body[k];
    assert req[12..12 + |v|] == v;
    assert body[9] == Le16(index)[0] && body[10] == Le16(index)[1];
    Le16RoundTrip(index);
  }

  /** The object takes a download of this length. */
  predicate Takes(t: ObjectDictionary.Table, index: u16, subindex: u8, length: nat) {
    var k := ObjectDictionary.Lookup(t, index, subindex);
    k.Some? && t[k.value].flags / 2 % 2 == 1 && length <= |t[k.value].data|
  }

  /** End-to-end download: the object ends up with the value and its old rest, and the answer confirms it, if and only
      if the object exists, is writable and is long enough; otherwise nothing changes and the answer is an abort. */
  lemma DownloadCompletes(p: Path, n: Node, index: u16, subindex: u8, v: seq<u8>)
    requires Ready(p, n) && 1 <= |v| <= 4
    ensures var r := Exchange(p, n, DownloadRequest(n, p.station, index, subindex, v));
            var reply := SdoPart(r.reply);
            && Ready(p, r.node) && r.node.coe.up == n.coe.up && |reply| == 16
            && (reply[8] / 0x20 == 3 <==> Takes(n.coe.od, index, subindex, |v|))
            && if Takes(n.coe.od, index, subindex, |v|) then
                 var k := ObjectDictionary.Lookup(n.coe.od, index, subindex).value;
                 var e := n.coe.od[k];
                 && SdoLaws.Says(reply, 0x60, index, subindex)
                 && r.node.coe.od == n.coe.od[k := e.(data := v + e.data[|v|..])]
               else reply[8] == 0x80 && r.node.coe.od == n.coe.od
  {
    hide Exchange, Coe.Process, DownloadRequest, SdoLaws.IsResponse, SdoLaws.MissingCode, U32, U16;
    var req := DownloadRequest(n, p.station, index, subindex, v);
    DownloadFields(n, p.station, index, subindex, v);
    ExchangeDelivers(p, n, req);
    SdoLaws.DownloadAnswer(n.coe, req, REPLY_CAP, v);
    SixteenBytes(req, Coe.Process(n.coe, req, REPLY_CAP).reply);
    PaddedPart(Coe.Process(n.coe, req, REPLY_CAP).reply, Config(n.mem, 1).length);
  }

  lemma SixteenBytes(req: seq<u8>, reply: seq<u8>)
    requires |req| >= 16 && SdoLaws.IsResponse(req, reply)
    ensures |reply| == 16
  {
  }

  /** Write a value, then read: the upload brings the value and the old rest. */
  lemma DownloadValueThenUpload(p: Path, n: Node, index: u16, subindex: u8, v: seq<u8>, budget: nat)
    requires Ready(p, n) && 1 <= |v| <= 4 && Takes(n.coe.od, index, subindex, |v|) && Uploadable(n, index, subindex)
    requires budget >= Segments(|n.coe.od[ObjectDictionary.Lookup(n.coe.od, index, subindex).value].data|)
    ensures var data := n.coe.od[ObjectDictionary.Lookup(n.coe.od, index, subindex).value].data;
            var written := Exchange(p, n, DownloadRequest(n, p.station, index, subindex, v)).node;
            && Ready(p, written)
            && UploadObject(p, written, index, subindex, budget).data == Some(v + data[|v|..])
  {
    hide Exchange, Coe.Process, UploadObject, DownloadRequest, SdoLaws.Says;
    var k := ObjectDictionary.Lookup(n.coe.od, index, subindex).value;
    var written := Exchange(p, n, DownloadRequest(n, p.station, index, subindex, v)).node;
    DownloadCompletes(p, n, index, subindex, v);
    CoeRuns.LookupKept(n.coe.od, written.coe.od, index, subindex);
    UploadCompletes(p, written, index, subindex, budget);
  }

  /** Write, then read: after a round trip with an accepted expedited download, an upload of the object brings the
      downloaded bytes and the old rest. */
  lemma DownloadThenUpload(p: Path, n: Node, req: seq<u8>, budget: nat)
    requires Ready(p, n) && |req| == Sm0Length(n) && CoeRuns.AcceptsDownload(n.coe.od, req)
    requires Uploadable(n, U16(req[9], req[10]), req[11])
    requires budget >= Segments(|n.coe.od[ObjectDictionary.Lookup(n.coe.od, U16(req[9], req[10]), req[11]).value].data|)
    ensures var index, subindex, size := U16(req[9], req[10]), req[11], Coe.PayloadLen(req[8]);
            var data := n.coe.od[ObjectDictionary.Lookup(n.coe.od, index, subindex).value].data;
            var written := Exchange(p, n, req).node;
            && Ready(p, written)
            && UploadObject(p, written, index, subindex, budget).data == Some(req[12..12 + size] + data[size..])
  {
    hide Exchange, Coe.Process, UploadObject;
    var index, subindex := U16(req[9], req[10]), req[11];
    var k := ObjectDictionary.Lookup(n.coe.od, index, subindex).value;
    var od := Coe.Process(n.coe, req, REPLY_CAP).state.od;
    ExchangeDelivers(p, n, req);
    CoeRuns.DownloadEffect(n.coe, req, REPLY_CAP);
    assert forall i :: 0 <= i < |od| ==> CoeRuns.SameShape(n.coe.od[i], od[i]);
    CoeRuns.LookupKept(n.coe.od, od, index, subindex);
    assert od[k].data != [];
    UploadCompletes(p, Exchange(p, n, req).node, index, subindex, budget);
  }

  /** Objects that are missing, not readable or empty are refused in the first round trip. */
  lemma UploadRefused(p: Path, n: Node, index: u16, subindex: u8, budget: nat)
    requires Ready(p, n) && !Uploadable(n, index, subindex)
    ensures var r := UploadObject(p, n, index, subindex, budget);
            r.data == None && r.exchanges == 1 && Ready(p, r.node) && r.node.coe.od == n.coe.od
  {
    hide Exchange, Coe.Process, SdoRequest;
    RefusalAnswered(n, p.station, index, subindex);
    var req := SdoRequest(n, p.station, 0x20 * Coe.CCS_UPLOAD, index, subindex);
    ExchangeDelivers(p, n, req);
    PaddedPart(Coe.Process(n.coe, req, REPLY_CAP).reply, Config(n.mem, 1).length);
  }

  lemma RefusalAnswered(n: Node, station: u16, index: u16, subindex: u8)
    requires ValidNode(n) && !Uploadable(n, index, subindex) && Config(n.mem, 0).length >= 16
    ensures var answer := Coe.Process(n.coe, SdoRequest(n, station, 0x20 * Coe.CCS_UPLOAD, index, subindex), REPLY_CAP);
            answer.state.od == n.coe.od && |answer.reply| == 16 && answer.reply[8] / 0x20 == Coe.CS_ABORT
  {
    var s := n.coe;
    var cmd: u8 := 0x20 * Coe.CCS_UPLOAD;
    var req := SdoRequest(n, station, cmd, index, subindex);
    RequestFields(n, station, cmd, index, subindex);
    assert Coe.Process(s, req, REPLY_CAP) == Coe.UploadInit(s, req, REPLY_CAP, index, subindex);
  }
}
