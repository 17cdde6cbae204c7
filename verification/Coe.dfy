/** The CoE server: SDO upload (expedited and segmented), expedited SDO download, and the object list. */
module Coe {
  import opened Bytes
  import opened ObjectDictionary

  const MBX_HDR_LEN := 6
  /** Mailbox header, CoE header and SDO header. */
  const FRAME_LEN := 16

  const MBX_TYPE_COE := 3
  const SVC_SDO_REQ := 2
  const SVC_SDO_RESP := 3
  const SVC_SDO_INFO := 8

  /** Command specifiers: the upper three bits of the SDO command byte. */
  const CCS_DOWNLOAD := 1
  const CCS_UPLOAD := 2
  const CCS_SEGMENT := 3
  const CS_ABORT := 4

  const TOGGLE: u8 := 0x10

  const ABORT_TOGGLE_BIT: u32 := 0x0503_0000
  const ABORT_WRITE_RO: u32 := 0x0601_0002
  const ABORT_READ_WO: u32 := 0x0601_0001
  const ABORT_OBJECT_GONE: u32 := 0x0602_0000
  const ABORT_BAD_SUBINDEX: u32 := 0x0609_0011
  const ABORT_LENGTH_MM: u32 := 0x0607_0010
  const ABORT_GENERAL: u32 := 0x0800_0000

  const INFO_LIST_REQ := 1
  const INFO_LIST_RESP := 2
  const LIST_ALL := 1

  /** The segmented upload in progress: the entry, the bytes already sent, the toggle bit expected next. */
  datatype Upload = Upload(active: bool, entry: nat, offset: u16, toggle: u8)

  const NoUpload := Upload(false, 0, 0, 0)

  datatype State = State(od: Table, up: Upload)

  /** An active upload points into an object longer than four bytes, at a segment boundary before its end,
      and its toggle bit counts the segments sent. */
  predicate ValidState(s: State) {
    s.up.active ==>
      && s.up.entry < |s.od|
      && 4 < |s.od[s.up.entry].data|
      && s.up.offset < |s.od[s.up.entry].data|
      && s.up.offset % 7 == 0
      && s.up.toggle == if s.up.offset / 7 % 2 == 0 then 0 else TOGGLE
  }

  function Idle(s: State): State {
    s.(up := s.up.(active := false))
  }

  /** A reply: the new state and the bytes to send, none meaning no reply. */
  datatype Answer = Answer(state: State, reply: seq<u8>)

  /** Reply headers: address, channel, priority, type and counter of the request, the new length, the service. */
  function Headers(req: seq<u8>, bodyLen: nat, service: nat): (h: seq<u8>)
    requires |req| >= FRAME_LEN && service < 16
    ensures |h| == 8
  {
    Le16((2 + bodyLen) % 0x1_0000) + req[2..6] + [0, 0x10 * service]
  }

  function SdoReply(req: seq<u8>, sdo: seq<u8>): (r: seq<u8>)
    requires |req| >= FRAME_LEN && |sdo| == 8
    ensures |r| == FRAME_LEN
  {
    Headers(req, 8, SVC_SDO_RESP) + sdo
  }

  function Abort(req: seq<u8>, cap: nat, index: u16, subindex: u8, code: u32): (r: seq<u8>)
    requires |req| >= FRAME_LEN
    ensures |r| <= cap
  {
    if cap < FRAME_LEN then [] else SdoReply(req, [0x20 * CS_ABORT] + Le16(index) + [subindex] + Le32(code))
  }

  function NotFoundCode(t: Table, index: u16): u32 {
    if IndexExists(t, index) then ABORT_BAD_SUBINDEX else ABORT_OBJECT_GONE
  }

  function ExpeditedSdo(index: u16, subindex: u8, value: seq<u8>): (sdo: seq<u8>)
    requires 1 <= |value| <= 4
    ensures |sdo| == 8
  {
    [0x40 + 0x03 + 4 * (4 - |value|)] + Le16(index) + [subindex] + Padded(value, 4)
  }

  function SegmentedSdo(index: u16, subindex: u8, length: u16): (sdo: seq<u8>)
    ensures |sdo| == 8
  {
    [0x40 + 0x01] + Le16(index) + [subindex] + Le16(length) + [0, 0]
  }

  function UploadInit(s: State, req: seq<u8>, cap: nat, index: u16, subindex: u8): Answer
    requires |req| >= FRAME_LEN
  {
    match Lookup(s.od, index, subindex)
    case None => Answer(Idle(s), Abort(req, cap, index, subindex, NotFoundCode(s.od, index)))
    case Some(k) =>
      var e := s.od[k];
      if !e.Readable() then Answer(Idle(s), Abort(req, cap, index, subindex, ABORT_READ_WO))
      else if |e.data| == 0 then Answer(Idle(s), Abort(req, cap, index, subindex, ABORT_GENERAL))
      else if cap < FRAME_LEN then Answer(s, [])
      else if |e.data| <= 4 then Answer(Idle(s), SdoReply(req, ExpeditedSdo(index, subindex, e.data)))
      else Answer(s.(up := Upload(true, k, 0, 0)), SdoReply(req, SegmentedSdo(index, subindex, |e.data|)))
  }

  function Chunk(data: seq<u8>, offset: nat): (c: seq<u8>)
    requires offset <= |data|
    ensures |c| <= 7
  {
    if |data| - offset > 7 then data[offset..offset + 7] else data[offset..]
  }

  function SegmentSdo(toggle: u8, chunk: seq<u8>, last: bool): (sdo: seq<u8>)
    requires toggle <= TOGGLE && |chunk| <= 7
    ensures |sdo| == 8
  {
    [toggle + 2 * (7 - |chunk|) + if last then 1 else 0] + Padded(chunk, 7)
  }

  function ToggleOf(cmd: u8): u8 {
    if Bit4(cmd) then TOGGLE else 0
  }

  function UploadSegment(s: State, req: seq<u8>, cap: nat, cmd: u8): Answer
    requires |req| >= FRAME_LEN && ValidState(s)
  {
    if !s.up.active then Answer(s, Abort(req, cap, 0, 0, ABORT_GENERAL))
    else
      var e := s.od[s.up.entry];
      if ToggleOf(cmd) != s.up.toggle then
        Answer(Idle(s), Abort(req, cap, e.index, e.subindex, ABORT_TOGGLE_BIT))
      else if cap < FRAME_LEN then Answer(s, [])
      else
        var chunk := Chunk(e.data, s.up.offset);
        var last := |chunk| == |e.data| - s.up.offset;
        Answer(s.(up := Upload(!last, s.up.entry, s.up.offset + |chunk|, TOGGLE - s.up.toggle)),
               SdoReply(req, SegmentSdo(ToggleOf(cmd), chunk, last)))
  }

  function PayloadLen(cmd: u8): (n: nat)
    ensures 1 <= n <= 4
  {
    4 - if Bit0(cmd) then cmd / 4 % 4 else 0
  }

  function DownloadSdo(index: u16, subindex: u8): (sdo: seq<u8>)
    ensures |sdo| == 8
  {
    [0x60] + Le16(index) + [subindex, 0, 0, 0, 0]
  }

  function Download(s: State, req: seq<u8>, cap: nat, cmd: u8, index: u16, subindex: u8): Answer
    requires |req| >= FRAME_LEN
  {
    match Lookup(s.od, index, subindex)
    case None => Answer(s, Abort(req, cap, index, subindex, NotFoundCode(s.od, index)))
    case Some(k) =>
      var e := s.od[k];
      if !e.Writable() then Answer(s, Abort(req, cap, index, subindex, ABORT_WRITE_RO))
      else if !Bit1(cmd) then Answer(s, Abort(req, cap, index, subindex, ABORT_GENERAL))
      else if PayloadLen(cmd) > |e.data| then Answer(s, Abort(req, cap, index, subindex, ABORT_LENGTH_MM))
      else
        Answer(s.(od := Stored(s.od, k, req[12..12 + PayloadLen(cmd)])),
               if cap < FRAME_LEN then [] else SdoReply(req, DownloadSdo(index, subindex)))
  }

  /** The indices of a table with runs of the same index, and leading `prev`s, listed once or not at all. */
  function Distinct(t: Table, prev: u16): seq<u16> {
    if t == [] then []
    else if t[0].index == prev then Distinct(t[1..], prev)
    else [t[0].index] + Distinct(t[1..], t[0].index)
  }

  function Words(ws: seq<u16>): (b: seq<u8>)
    ensures |b| == 2 * |ws|
  {
    if ws == [] then [] else Words(ws[..|ws| - 1]) + Le16(ws[|ws| - 1])
  }

  lemma WordsNext(ws: seq<u16>, w: u16)
    ensures Words(ws + [w]) == Words(ws) + Le16(w)
  {
    assert (ws + [w])[..|ws|] == ws;
  }

  lemma WordsNothing()
    ensures Words([]) == []
  {
  }

  lemma DistinctNext(t: Table, i: nat, prev: u16)
    requires i < |t|
    ensures Distinct(t[i..], prev)
            == if t[i].index == prev then Distinct(t[i + 1..], prev)
               else [t[i].index] + Distinct(t[i + 1..], t[i].index)
  {
    assert t[i..][1..] == t[i + 1..];
  }

  lemma DistinctNothing(t: Table, prev: u16)
    requires t == []
    ensures Distinct(t, prev) == []
  {
  }

  /** The indices that go into a list reply: those that fit. */
  function Listed(t: Table, cap: nat): seq<u16>
    requires cap >= FRAME_LEN
  {
    var all, room := Distinct(t, 0xFFFF), (cap - 14) / 2;
    if |all| <= room then all else all[..room]
  }

  /** The indices listed so far are the ones that go into the reply when none is left or no other one fits. */
  lemma ListedIs(t: Table, cap: nat, listed: seq<u16>, rest: seq<u16>)
    requires FRAME_LEN <= cap && listed + rest == Distinct(t, 0xFFFF) && 14 + 2 * |listed| <= cap
    requires rest == [] || 14 + 2 * |listed| + 2 > cap
    ensures listed == Listed(t, cap)
  {
    hide Distinct;
    var room := (cap - 14) / 2;
    assert |listed| <= room;
    if rest == [] {
      assert listed + rest == listed;
    } else {
      assert |listed| == room && (listed + rest)[..room] == listed;
    }
  }

  function ListBody(t: Table, cap: nat, listType: u16): (b: seq<u8>)
    requires cap >= FRAME_LEN
    ensures 6 <= |b| <= cap - 8
  {
    [INFO_LIST_RESP, 0, 0, 0] + Le16(listType) + if listType == LIST_ALL then Words(Listed(t, cap)) else []
  }

  /** The body length is kept in 16 bits; the reply is as long as that says. */
  function Info(t: Table, req: seq<u8>, cap: nat): (r: seq<u8>)
    requires |req| >= FRAME_LEN
    ensures |r| <= cap
  {
    if req[8] != INFO_LIST_REQ || cap < FRAME_LEN then []
    else
      var body := ListBody(t, cap, U16(req[12], req[13]));
      var bodyLen := |body| % 0x1_0000;
      Headers(req, bodyLen, SVC_SDO_INFO) + body[..bodyLen]
  }

  function Sdo(s: State, req: seq<u8>, cap: nat): Answer
    requires |req| >= FRAME_LEN && ValidState(s)
  {
    var cmd, index, subindex := req[8], U16(req[9], req[10]), req[11];
    if cmd / 0x20 == CCS_UPLOAD then UploadInit(s, req, cap, index, subindex)
    else if cmd / 0x20 == CCS_DOWNLOAD then Download(s, req, cap, cmd, index, subindex)
    else if cmd / 0x20 == CCS_SEGMENT then UploadSegment(s, req, cap, cmd)
    else if cmd / 0x20 == CS_ABORT then Answer(Idle(s), [])
    else Answer(s, Abort(req, cap, index, subindex, ABORT_GENERAL))
  }

  /** What a mailbox frame does to the server, and the reply. */
  function Process(s: State, frame: seq<u8>, cap: nat): Answer
    requires ValidState(s)
  {
    if |frame| < FRAME_LEN then Answer(s, [])
    else if frame[5] % 0x10 != MBX_TYPE_COE then Answer(s, [])
    else if frame[7] / 0x10 == SVC_SDO_INFO then Answer(s, Info(s.od, frame, cap))
    else if frame[7] / 0x10 != SVC_SDO_REQ then Answer(s, [])
    else Sdo(s, frame, cap)
  }

  /** What every frame keeps: the invariant of the server, the size of the table and of every object. */
  predicate Keeps(s: State, answer: Answer, cap: nat) {
    && ValidState(answer.state) && |answer.reply| <= cap
    && |answer.state.od| == |s.od|
    && forall k :: 0 <= k < |s.od| ==> |answer.state.od[k].data| == |s.od[k].data|
  }

  lemma SegmentKeeps(s: State, req: seq<u8>, cap: nat, cmd: u8)
    requires ValidState(s) && |req| >= FRAME_LEN
    ensures Keeps(s, UploadSegment(s, req, cap, cmd), cap)
  {
    if s.up.active {
      var offset: int := s.up.offset;
      var q := offset / 7;
      assert offset == 7 * q;
      assert (offset + 7) / 7 == q + 1 && (offset + 7) % 7 == 0;
      assert (q + 1) % 2 == 0 <==> q % 2 == 1;
    }
  }

  lemma DownloadKeeps(s: State, req: seq<u8>, cap: nat, cmd: u8, index: u16, subindex: u8)
    requires ValidState(s) && |req| >= FRAME_LEN
    ensures Keeps(s, Download(s, req, cap, cmd, index, subindex), cap)
  {
  }

  lemma UploadInitKeeps(s: State, req: seq<u8>, cap: nat, index: u16, subindex: u8)
    requires ValidState(s) && |req| >= FRAME_LEN
    ensures Keeps(s, UploadInit(s, req, cap, index, subindex), cap)
  {
  }

  lemma SdoKeeps(s: State, req: seq<u8>, cap: nat)
    requires ValidState(s) && |req| >= FRAME_LEN
    ensures Keeps(s, Sdo(s, req, cap), cap)
  {
    hide UploadInit, UploadSegment, Download, Abort;
    var cmd, index, subindex := req[8], U16(req[9], req[10]), req[11];
    UploadInitKeeps(s, req, cap, index, subindex);
    SegmentKeeps(s, req, cap, cmd);
    DownloadKeeps(s, req, cap, cmd, index, subindex);
  }

  /** The invariant of the server holds after every frame, and no reply exceeds its buffer. */
  lemma ProcessKeepsValid(s: State, frame: seq<u8>, cap: nat)
    requires ValidState(s)
    ensures Keeps(s, Process(s, frame, cap), cap)
  {
    hide Sdo, Info;
    if |frame| >= FRAME_LEN {
      SdoKeeps(s, frame, cap);
      assert |Info(s.od, frame, cap)| <= cap;
    }
  }

  class Server {
    const od: Dictionary
    var active: bool
    var entry: nat
    var offset: u16
    var toggleExpected: u8

    ghost function Snapshot(): State
      reads this, od
    {
      State(od.entries, Upload(active, entry, offset, toggleExpected))
    }

    ghost predicate Valid()
      reads this, od
    {
      ValidState(Snapshot())
    }

    constructor (od: Dictionary)
      ensures Valid() && this.od == od
      ensures Snapshot() == State(od.entries, NoUpload)
    {
      this.od := od;
      active, entry, offset, toggleExpected := false, 0, 0, 0;
    }

    /** Reply headers into the buffer, the SDO header after them. */
    method PutReply(req: seq<u8>, reply: array<u8>, sdo: seq<u8>) returns (n: nat)
      requires |req| >= FRAME_LEN && reply.Length >= FRAME_LEN && |sdo| == 8
      modifies reply
      ensures n == FRAME_LEN && reply[..n] == SdoReply(req, sdo)
    {
      PutHeaders(req, reply, 8, SVC_SDO_RESP);
      ghost var headers := Headers(req, 8, SVC_SDO_RESP);
      Copy(reply, 8, sdo);
      assert reply[..8] == headers;
      assert reply[..FRAME_LEN] == reply[..8] + reply[8..FRAME_LEN];
      n := FRAME_LEN;
    }

    method PutHeaders(req: seq<u8>, reply: array<u8>, bodyLen: u16, service: u8)
      requires |req| >= FRAME_LEN && reply.Length >= FRAME_LEN && service < 16
      modifies reply
      ensures reply[..] == Splice(old(reply[..]), 0, Headers(req, bodyLen, service))
    {
      Copy(reply, 0, req[..MBX_HDR_LEN]);
      Copy(reply, 0, Le16((2 + bodyLen) % 0x1_0000));
      reply[MBX_HDR_LEN] := 0;
      reply[MBX_HDR_LEN + 1] := 0x10 * service;
    }

    method BuildAbort(req: seq<u8>, reply: array<u8>, cap: nat, index: u16, subindex: u8, code: u32) returns (n: nat)
      requires |req| >= FRAME_LEN && cap <= reply.Length
      modifies reply
      ensures n <= cap && reply[..n] == Abort(req, cap, index, subindex, code)
    {
      if cap < FRAME_LEN {
        return 0;
      }
      n := PutReply(req, reply, [0x20 * CS_ABORT] + Le16(index) + [subindex] + Le32(code));
    }

    method HandleUploadInit(req: seq<u8>, reply: array<u8>, cap: nat, index: u16, subindex: u8) returns (n: nat)
      requires Valid() && |req| >= FRAME_LEN && cap <= reply.Length
      modifies this, reply
      ensures n <= cap
      ensures Answer(Snapshot(), reply[..n]) == UploadInit(old(Snapshot()), req, cap, index, subindex)
    {
      var found := od.Find(index, subindex);
      if found.None? {
        var exists_ := od.HasIndex(index);
        active := false;
        n := BuildAbort(req, reply, cap, index, subindex, if exists_ then ABORT_BAD_SUBINDEX else ABORT_OBJECT_GONE);
        return;
      }
      var e := od.entries[found.value];
      if !e.Readable() {
        active := false;
        n := BuildAbort(req, reply, cap, index, subindex, ABORT_READ_WO);
        return;
      }
      if |e.data| == 0 {
        active := false;
        n := BuildAbort(req, reply, cap, index, subindex, ABORT_GENERAL);
        return;
      }
      if cap < FRAME_LEN {
        return 0;
      }
      if |e.data| <= 4 {
        active := false;
        var value := od.Read(found.value, |e.data|);
        n := PutReply(req, reply, ExpeditedSdo(index, subindex, value.value));
      } else {
        active := true;
        entry := found.value;
        offset := 0;
        toggleExpected := 0;
        n := PutReply(req, reply, SegmentedSdo(index, subindex, |e.data|));
      }
    }

    method HandleUploadSegment(req: seq<u8>, reply: array<u8>, cap: nat, cmd: u8) returns (n: nat)
      requires Valid() && |req| >= FRAME_LEN && cap <= reply.Length
      modifies this, reply
      ensures n <= cap
      ensures Answer(Snapshot(), reply[..n]) == UploadSegment(old(Snapshot()), req, cap, cmd)
    {
      if !active {
        n := BuildAbort(req, reply, cap, 0, 0, ABORT_GENERAL);
        return;
      }
      var e := od.entries[entry];
      var toggleIn := if Bit4(cmd) then TOGGLE else 0;
      if toggleIn != toggleExpected {
        active := false;
        n := BuildAbort(req, reply, cap, e.index, e.subindex, ABORT_TOGGLE_BIT);
        return;
      }
      if cap < FRAME_LEN {
        return 0;
      }
      var remaining := |e.data| - offset;
      var size := if remaining > 7 then 7 else remaining;
      var last := size == remaining;
      n := PutReply(req, reply, SegmentSdo(toggleIn, e.data[offset..offset + size], last));
      assert e.data[offset..offset + size] == Chunk(e.data, offset);
      offset := offset + size;
      toggleExpected := TOGGLE - toggleExpected;
      if last {
        active := false;
      }
    }

    method HandleDownload(req: seq<u8>, reply: array<u8>, cap: nat, cmd: u8, index: u16, subindex: u8) returns (n: nat)
      requires Valid() && |req| >= FRAME_LEN && cap <= reply.Length
      modifies od, reply
      ensures n <= cap
      ensures Answer(Snapshot(), reply[..n]) == Download(old(Snapshot()), req, cap, cmd, index, subindex)
    {
      var found := od.Find(index, subindex);
      if found.None? {
        var exists_ := od.HasIndex(index);
        n := BuildAbort(req, reply, cap, index, subindex, if exists_ then ABORT_BAD_SUBINDEX else ABORT_OBJECT_GONE);
        return;
      }
      var e := od.entries[found.value];
      if !e.Writable() {
        n := BuildAbort(req, reply, cap, index, subindex, ABORT_WRITE_RO);
        return;
      }
      if !Bit1(cmd) {
        n := BuildAbort(req, reply, cap, index, subindex, ABORT_GENERAL);
        return;
      }
      var payloadLen := PayloadLen(cmd);
      if payloadLen > |e.data| {
        n := BuildAbort(req, reply, cap, index, subindex, ABORT_LENGTH_MM);
        return;
      }
      var ok := od.Write(found.value, req[12..12 + payloadLen]);
      if cap < FRAME_LEN {
        return 0;
      }
      n := PutReply(req, reply, DownloadSdo(index, subindex));
    }

    /** The object list: indices go into the buffer one by one until it is full. */
    method HandleSdoInfo(req: seq<u8>, reply: array<u8>, cap: nat) returns (n: nat)
      requires |req| >= FRAME_LEN && cap <= reply.Length
      modifies reply
      ensures n <= cap && reply[..n] == Info(od.entries, req, cap)
    {
      hide Headers, Listed, Words, Splice, Le16;
      if req[8] != INFO_LIST_REQ {
        return 0;
      }
      if cap < FRAME_LEN {
        return 0;
      }
      var listType := U16(req[12], req[13]);
      ghost var before := reply[..];
      Copy(reply, 8, [INFO_LIST_RESP, 0, 0, 0] + Le16(listType));
      SpliceNext(before, 8, 8, [INFO_LIST_RESP, 0, 0, 0] + Le16(listType));
      var outOff := 6;
      if listType == LIST_ALL {
        outOff := FillList(reply, cap);
      }
      ghost var filled := reply[..];
      ListFilled(od.entries, cap, listType, filled, 8 + outOff);
      var bodyLen := outOff % 0x1_0000;
      PutHeaders(req, reply, bodyLen, SVC_SDO_INFO);
      n := 8 + bodyLen;
      InfoAssembled(od.entries, req, cap, filled);
    }

    lemma ListFilled(t: Table, cap: nat, listType: u16, filled: seq<u8>, end: nat)
      requires FRAME_LEN <= cap && 14 <= end <= |filled|
      requires filled[..14][8..] == [INFO_LIST_RESP, 0, 0, 0] + Le16(listType)
      requires filled[14..end] == if listType == LIST_ALL then Words(Listed(t, cap)) else []
      ensures filled[8..end] == ListBody(t, cap, listType)
    {
      hide Listed, Words, Le16;
      assert filled[8..end] == filled[..14][8..] + filled[14..end];
    }

    lemma InfoAssembled(t: Table, req: seq<u8>, cap: nat, filled: seq<u8>)
      requires |req| >= FRAME_LEN && req[8] == INFO_LIST_REQ && FRAME_LEN <= cap <= |filled|
      requires var body := ListBody(t, cap, U16(req[12], req[13])); filled[8..8 + |body|] == body
      ensures var bodyLen := |ListBody(t, cap, U16(req[12], req[13]))| % 0x1_0000;
              Splice(filled, 0, Headers(req, bodyLen, SVC_SDO_INFO))[..8 + bodyLen] == Info(t, req, cap)
    {
      hide ListBody, Headers;
      var body := ListBody(t, cap, U16(req[12], req[13]));
      var bodyLen := |body| % 0x1_0000;
      var reply := Splice(filled, 0, Headers(req, bodyLen, SVC_SDO_INFO));
      assert bodyLen <= |body|;
      assert reply[8..8 + bodyLen] == filled[8..8 + |body|][..bodyLen];
      assert reply[..8 + bodyLen] == reply[..8] + reply[8..8 + bodyLen];
    }

    lemma FillNext(t: Table, i: nat, prev: u16, listed: seq<u16>, before: seq<u8>, at: nat)
      requires i < |t| && t[i].index != prev && 14 <= at && at + 2 <= |before| && before[14..at] == Words(listed)
      ensures var idx := t[i].index;
              var after := Splice(before, at, Le16(idx));
              && after[..14] == before[..14] && after[14..at + 2] == Words(listed + [idx])
              && listed + [idx] + Distinct(t[i + 1..], idx) == listed + Distinct(t[i..], prev)
    {
      hide Distinct, Words, Le16, Splice;
      var idx := t[i].index;
      DistinctNext(t, i, prev);
      WordsNext(listed, idx);
      SpliceNext(before, 14, at, Le16(idx));
      assert listed + ([idx] + Distinct(t[i + 1..], idx)) == listed + [idx] + Distinct(t[i + 1..], idx);
    }

    /** Lists every index once, from byte 14 of the reply on, as far as they fit. */
    method FillList(reply: array<u8>, cap: nat) returns (outOff: nat)
      requires FRAME_LEN <= cap <= reply.Length
      modifies reply
      ensures reply[..14] == old(reply[..14])
      ensures outOff == 6 + 2 * |Listed(od.entries, cap)| && 8 + outOff <= cap
      ensures reply[14..8 + outOff] == Words(Listed(od.entries, cap))
    {
      var table := od.entries;
      outOff := 6;
      var prev, i := 0xFFFF, 0;
      ghost var all, listed, front := Distinct(table, 0xFFFF), [], reply[..14];
      hide Distinct, Words, Le16, Splice, Listed;
      assert table[0..] == table;
      WordsNothing();
      while i < |table|
        invariant 0 <= i <= |table|
        invariant reply[..14] == front
        invariant 8 + outOff <= cap && outOff == 6 + 2 * |listed|
        invariant reply[14..8 + outOff] == Words(listed)
        invariant 0 <= prev < 0x1_0000 && listed + Distinct(table[i..], prev) == all
      {
        var idx := table[i].index;
        if idx == prev {
          DistinctNext(table, i, prev);
          i := i + 1;
          continue;
        }
        ghost var last := prev;
        prev := idx;
        if 8 + outOff + 2 > cap {
          ListedIs(table, cap, listed, Distinct(table[i..], last));
          break;
        }
        ghost var before := reply[..];
        Copy(reply, 8 + outOff, Le16(idx));
        FillNext(table, i, last, listed, before, 8 + outOff);
        listed := listed + [idx];
        outOff := outOff + 2;
        i := i + 1;
      }
      if i == |table| {
        DistinctNothing(table[i..], prev);
        ListedIs(table, cap, listed, Distinct(table[i..], prev));
      }
    }

    /** Takes one mailbox frame; the reply is in the first n bytes of `reply`. */
    method ProcessFrame(frame: seq<u8>, reply: array<u8>, cap: nat) returns (n: nat)
      requires Valid() && cap <= reply.Length
      modifies this, od, reply
      ensures Valid() && n <= cap
      ensures Answer(Snapshot(), reply[..n]) == Process(old(Snapshot()), frame, cap)
    {
      ProcessKeepsValid(Snapshot(), frame, cap);
      if |frame| < FRAME_LEN {
        return 0;
      }
      if frame[5] % 0x10 != MBX_TYPE_COE {
        return 0;
      }
      var service := frame[7] / 0x10;
      if service == SVC_SDO_INFO {
        n := HandleSdoInfo(frame, reply, cap);
        return;
      }
      if service != SVC_SDO_REQ {
        return 0;
      }
      var specifier, index, subindex := frame[8] / 0x20, U16(frame[9], frame[10]), frame[11];
      if specifier == CCS_UPLOAD {
        n := HandleUploadInit(frame, reply, cap, index, subindex);
      } else if specifier == CCS_DOWNLOAD {
        n := HandleDownload(frame, reply, cap, frame[8], index, subindex);
      } else if specifier == CCS_SEGMENT {
        n := HandleUploadSegment(frame, reply, cap, frame[8]);
      } else if specifier == CS_ABORT {
        active := false;
        n := 0;
      } else {
        n := BuildAbort(frame, reply, cap, index, subindex, ABORT_GENERAL);
      }
    }
  }
}
