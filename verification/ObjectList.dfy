/** End to end: the master asks for the list of objects through frames, mailboxes and the CoE server. */
module ObjectList {
  import opened Bytes
  import opened Esc
  import opened Controller
  import opened ControllerRuns
  import opened Upload
  import Coe
  import CoeRuns
  import ObjectDictionary
  import SM = SyncManager
  import Setup
  import SlaveRuns

  /** A mailbox frame that asks for the list of all objects. */
  predicate AsksForList(req: seq<u8>) {
    && CoeRuns.IsListRequest(req)
    && req[5] % 0x10 == Coe.MBX_TYPE_COE && req[7] / 0x10 == Coe.SVC_SDO_INFO
  }

  /** A mailbox frame that is headed as a list of all objects, with no fragments to follow. */
  predicate IsListResponse(b: seq<u8>) {
    && |b| >= 14
    && b[5] % 0x10 == Coe.MBX_TYPE_COE && b[7] / 0x10 == Coe.SVC_SDO_INFO && b[8] == Coe.INFO_LIST_RESP
    && b[10] == b[11] == 0 && U16(b[12], b[13]) == Coe.LIST_ALL
  }

  /** How many index words the mailbox length field announces, cut to the bytes that are there. */
  function Announced(b: seq<u8>): (k: nat)
    requires |b| >= 14
    ensures 14 + 2 * k <= |b|
  {
    var length, room := U16(b[0], b[1]), (|b| - 14) / 2;
    if length < 8 then 0 else if (length - 8) / 2 < room then (length - 8) / 2 else room
  }

  /** The first k index words of a list response. */
  function IndexWords(b: seq<u8>, k: nat): (ws: seq<u16>)
    requires 14 + 2 * k <= |b|
    ensures |ws| == k
  {
    seq(k, (i: int) requires 0 <= i < k => U16(b[14 + 2 * i], b[15 + 2 * i]))
  }

  /** What a master makes of the content of SM1: the indices, or None when it is no list response. */
  function Decoded(b: seq<u8>): (r: Option<seq<u16>>)
    ensures r.Some? ==> 14 + 2 * |r.value| <= |b|
  {
    if IsListResponse(b) then Some(IndexWords(b, Announced(b))) else None
  }

  /** All the indices of the table, and those of them that go into the reply of the default handler. */
  function Indices(t: ObjectDictionary.Table): seq<u16> {
    Coe.Distinct(t, 0xFFFF)
  }

  function Listed(t: ObjectDictionary.Table): seq<u16> {
    Coe.Listed(t, REPLY_CAP)
  }

  lemma ListedOf(t: ObjectDictionary.Table)
    ensures Listed(t) == if |Indices(t)| <= 121 then Indices(t) else Indices(t)[..121]
    ensures |Listed(t)| == CoeRuns.ListedCount(t, REPLY_CAP) <= 121
  {
    hide Coe.Distinct;
  }

  /** The headers of the reply. */
  lemma ListHeaders(t: ObjectDictionary.Table, req: seq<u8>)
    requires AsksForList(req)
    ensures var reply := Coe.Info(t, req, REPLY_CAP);
            |reply| == 14 + 2 * |Listed(t)| && U16(reply[0], reply[1]) == |reply| - 6 && IsListResponse(reply)
  {
    hide Coe.Listed, Coe.Words, Coe.ListBody, Coe.Headers, CoeRuns.ListedCount, Coe.Distinct, Listed, IsListResponse;
    ListedOf(t);
    CoeRuns.ListReplyLength(t, req, REPLY_CAP);
    CoeRuns.BodySize(t, REPLY_CAP);
    var body := Coe.ListBody(t, REPLY_CAP, Coe.LIST_ALL);
    assert Coe.Info(t, req, REPLY_CAP) == Coe.Headers(req, |body|, Coe.SVC_SDO_INFO) + body;
    BodyHead(t);
    HeadedList(req, body);
  }

  lemma BodyHead(t: ObjectDictionary.Table)
    ensures var body := Coe.ListBody(t, REPLY_CAP, Coe.LIST_ALL);
            body[0] == Coe.INFO_LIST_RESP && body[2] == body[3] == 0 && U16(body[4], body[5]) == Coe.LIST_ALL
  {
    hide Coe.Words, Coe.Listed;
    Le16RoundTrip(Coe.LIST_ALL);
  }

  lemma HeadedList(req: seq<u8>, body: seq<u8>)
    requires AsksForList(req) && |body| >= 6
    requires body[0] == Coe.INFO_LIST_RESP && body[2] == body[3] == 0 && U16(body[4], body[5]) == Coe.LIST_ALL
    ensures IsListResponse(Coe.Headers(req, |body|, Coe.SVC_SDO_INFO) + body)
  {
    hide Le16;
    var h := Coe.Headers(req, |body|, Coe.SVC_SDO_INFO);
    assert h[5] == req[5] && h[7] == 0x10 * Coe.SVC_SDO_INFO;
  }

  /** The default handler's reply decodes to the indices listed in it. */
  lemma ListReply(s: Coe.State, req: seq<u8>)
    requires Coe.ValidState(s) && AsksForList(req)
    ensures var answer := Coe.Process(s, req, REPLY_CAP);
            answer.state == s && |answer.reply| == 14 + 2 * |Listed(s.od)|
            && U16(answer.reply[0], answer.reply[1]) == |answer.reply| - 6 && IsListResponse(answer.reply)
            && IndexWords(answer.reply, |Listed(s.od)|) == Listed(s.od)
  {
    var reply := Coe.Info(s.od, req, REPLY_CAP);
    assert Coe.Process(s, req, REPLY_CAP) == Coe.Answer(s, reply);
    hide Coe.Info, Coe.Distinct, Coe.Process, IsListResponse, CoeRuns.ListedCount, Coe.Listed, AsksForList, Listed;
    ListHeaders(s.od, req);
    ListWords(s.od, req);
  }

  lemma ListWords(t: ObjectDictionary.Table, req: seq<u8>)
    requires AsksForList(req) && |Coe.Info(t, req, REPLY_CAP)| == 14 + 2 * |Listed(t)|
    ensures IndexWords(Coe.Info(t, req, REPLY_CAP), |Listed(t)|) == Listed(t)
  {
    hide Coe.Info, Coe.Distinct, CoeRuns.ListedCount, Coe.Listed;
    ListedOf(t);
    var reply := Coe.Info(t, req, REPLY_CAP);
    forall i | 0 <= i < |Listed(t)|
      ensures U16(reply[14 + 2 * i], reply[15 + 2 * i]) == Listed(t)[i]
    {
      CoeRuns.ListReplyItem(t, req, REPLY_CAP, i);
      CoeRuns.ListedItem(t, REPLY_CAP, i);
    }
  }

  /** Zeros behind a list response do not change what it decodes to. */
  lemma PaddedDecodes(b: seq<u8>, k: nat, len: nat)
    requires |b| == 14 + 2 * k <= len && IsListResponse(b) && U16(b[0], b[1]) == |b| - 6
    ensures Decoded(Padded(b, len)) == Some(IndexWords(b, k))
  {
    var p := Padded(b, len);
    assert forall i :: 0 <= i < |b| ==> p[i] == b[i];
    assert IndexWords(p, k) == IndexWords(b, k);
  }

  /** What the master gets: the listed indices when the reply fits SM1, and else what SM1 held before. It has the whole
      list if and only if that fits SM1. */
  lemma ListArrivesIff(p: Path, n: Node, req: seq<u8>)
    requires Ready(p, n) && |req| == Sm0Length(n) && AsksForList(req)
    ensures var r, od, len := Exchange(p, n, req), n.coe.od, Config(n.mem, 1).length;
            && Ready(p, r.node) && r.node.coe == n.coe && r.reply.Some?
            && (if 14 + 2 * |Listed(od)| <= len then Decoded(r.reply.value) == Some(Listed(od))
                else r.reply.value == Content(n.mem))
            && (Decoded(r.reply.value) == Some(Indices(od)) <==> 14 + 2 * |Indices(od)| <= len)
  {
    hide Exchange, Coe.Process, Indices, Listed, AsksForList, Content, Padded, IsListResponse;
    var reply, k, len := Coe.Process(n.coe, req, REPLY_CAP).reply, |Listed(n.coe.od)|, Config(n.mem, 1).length;
    assert len <= 256;
    ListReply(n.coe, req);
    ListedOf(n.coe.od);
    ExchangeDelivers(p, n, req);
    if |reply| <= len {
      PaddedDecodes(reply, k, len);
    }
  }

  /** Two objects and the shortest SM1: the reply is dropped, and the master reads what SM1 held before. */
  lemma ListDropped(p: Path, n: Node, req: seq<u8>)
    requires Ready(p, n) && |req| == Sm0Length(n) && AsksForList(req)
    requires n.coe.od == CoeRuns.Consecutive(2) && Config(n.mem, 1).length == 16
    ensures var r := Exchange(p, n, req);
            && |Indices(n.coe.od)| == 2 && r.reply == Some(Content(n.mem))
            && Decoded(r.reply.value) != Some(Indices(n.coe.od))
  {
    hide Exchange, Listed, AsksForList, Content, Coe.Distinct;
    AllOfConsecutive(2);
    ListedOf(n.coe.od);
    ListArrivesIff(p, n, req);
  }

  /** 122 objects and the longest SM1: the list arrives without its last index, with nothing to say so. */
  lemma ListCutShort(p: Path, n: Node, req: seq<u8>)
    requires Ready(p, n) && |req| == Sm0Length(n) && AsksForList(req)
    requires n.coe.od == CoeRuns.Consecutive(122) && Config(n.mem, 1).length == 256
    ensures var r := Exchange(p, n, req);
            && |Indices(n.coe.od)| == 122 && r.reply.Some? && IsListResponse(r.reply.value)
            && Decoded(r.reply.value) == Some(Indices(n.coe.od)[..121])
  {
    hide Exchange, Listed, AsksForList, Content, Coe.Distinct;
    AllOfConsecutive(122);
    ListedOf(n.coe.od);
    ListArrivesIff(p, n, req);
  }

  lemma AllOfConsecutive(k: nat)
    requires k < 0xFFFF
    ensures |Indices(CoeRuns.Consecutive(k))| == k
  {
    CoeRuns.ConsecutiveCount(k, 0, 0xFFFF);
    assert CoeRuns.Consecutive(k)[0..] == CoeRuns.Consecutive(k);
  }

  /** A mailbox of the given place and length, sixteen bytes at least. */
  function MailboxAt(start: u16, length: u16): SM.Config {
    SM.Config(start, length, 2, 0, 1, 0)
  }

  /** A slave with k objects and an SM1 of the given length, just configured. */
  function SlaveWith(p: Path, k: nat, length: u16): Node
    requires k < 0xFFFF
  {
    Node(SlaveRuns.Run(p.pos, Zeros(SIZE), Setup.Configure(p, MailboxAt(0xD00, 16), MailboxAt(0xE00, length))),
         Coe.State(CoeRuns.Consecutive(k), Coe.NoUpload))
  }

  /** The slaves of the two lemmas above exist. */
  lemma FailingSlaves(p: Path)
    requires ValidPath(p)
    ensures Ready(p, SlaveWith(p, 2, 16)) && Config(SlaveWith(p, 2, 16).mem, 1).length == 16
    ensures Ready(p, SlaveWith(p, 122, 256)) && Config(SlaveWith(p, 122, 256).mem, 1).length == 256
  {
    SlaveWithReady(p, 2, 16);
    SlaveWithReady(p, 122, 256);
  }

  lemma SlaveWithReady(p: Path, k: nat, length: u16)
    requires ValidPath(p) && k < 0xFFFF && 16 <= length <= 256
    ensures Ready(p, SlaveWith(p, k, length)) && Config(SlaveWith(p, k, length).mem, 1).length == length
  {
    hide SlaveRuns.Run, Setup.Configure, GoodBuffer, Ready, Config;
    GoodMailboxes(length);
    Setup.ConfigureMakesReady(p, Zeros(SIZE), CoeRuns.Consecutive(k), MailboxAt(0xD00, 16), MailboxAt(0xE00, length));
  }

  lemma GoodMailboxes(length: u16)
    requires 16 <= length <= 256
    ensures GoodBuffer(MailboxAt(0xD00, 16)) && GoodBuffer(MailboxAt(0xE00, length))
    ensures Apart(MailboxAt(0xD00, 16), MailboxAt(0xE00, length).start, MailboxAt(0xE00, length).End())
  {
  }
}
