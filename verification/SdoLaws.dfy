/** What the CoE server answers, told by positions and values on the wire (section 7.2.4.3 of CiA 301), and when a
    segmented upload is open, told from requests and replies alone. */
module SdoLaws {
  import opened Bytes
  import opened Coe
  import opened ObjectDictionary
  import CoeRuns

  /** A CoE SDO request with this command specifier. */
  predicate IsRequest(req: seq<u8>, specifier: nat) {
    |req| >= 16 && req[5] % 0x10 == 3 && req[7] / 0x10 == 2 && req[8] / 0x20 == specifier
  }

  /** An SDO response headed for the sender of the request: ten bytes behind the mailbox header. */
  predicate IsResponse(req: seq<u8>, reply: seq<u8>)
    requires |req| >= 16
  {
    && |reply| == 16 && U16(reply[0], reply[1]) == 10 && reply[2..6] == req[2..6]
    && reply[6] == 0 && reply[7] == 0x30
  }

  /** The response is about this object, with this command byte. */
  predicate Says(reply: seq<u8>, cmd: u8, index: u16, subindex: u8) {
    |reply| == 16 && reply[8] == cmd && U16(reply[9], reply[10]) == index && reply[11] == subindex
  }

  predicate IsAbort(reply: seq<u8>, index: u16, subindex: u8, code: u32) {
    Says(reply, 0x80, index, subindex) && reply[12..16] == Le32(code)
  }

  /** No such object, or no such subindex of it. */
  function MissingCode(t: Table, index: u16): u32 {
    if exists i :: 0 <= i < |t| && t[i].index == index then 0x0609_0011 else 0x0602_0000
  }

  function IndexOf(req: seq<u8>): u16
    requires |req| >= 16
  {
    U16(req[9], req[10])
  }

  lemma Positions(req: seq<u8>, sdo: seq<u8>)
    requires |req| >= 16 && |sdo| == 8
    ensures var reply := SdoReply(req, sdo);
            IsResponse(req, reply) && forall k :: 0 <= k < 8 ==> reply[8 + k] == sdo[k]
    ensures SdoReply(req, sdo)[12..16] == sdo[4..8]
  {
    var reply, h := SdoReply(req, sdo), Headers(req, 8, SVC_SDO_RESP);
    assert reply[..8] == h && reply[8..] == sdo;
    assert forall k :: 0 <= k < 8 ==> reply[k] == reply[..8][k] && reply[8 + k] == reply[8..][k];
    assert h[2..6] == req[2..6];
    assert reply[2..6] == reply[..8][2..6];
  }

  lemma AbortPositions(req: seq<u8>, index: u16, subindex: u8, code: seq<u8>)
    requires |req| >= 16 && |code| == 4
    ensures var reply := SdoReply(req, [0x80] + Le16(index) + [subindex] + code);
            IsResponse(req, reply) && Says(reply, 0x80, index, subindex) && reply[12..16] == code
  {
    hide Headers, Le16, IsResponse;
    var sdo := [0x80] + Le16(index) + [subindex] + code;
    Positions(req, sdo);
    assert sdo[4..8] == code && sdo[1] == Le16(index)[0] && sdo[2] == Le16(index)[1];
    Le16RoundTrip(index);
  }

  lemma ExpeditedPositions(req: seq<u8>, index: u16, subindex: u8, value: seq<u8>)
    requires |req| >= 16 && 1 <= |value| <= 4
    ensures var reply := SdoReply(req, ExpeditedSdo(index, subindex, value));
            && IsResponse(req, reply) && Says(reply, 0x43 + 4 * (4 - |value|), index, subindex)
            && reply[12..16] == value + Zeros(4 - |value|)
  {
    hide Headers, Le16, IsResponse;
    var sdo := ExpeditedSdo(index, subindex, value);
    Positions(req, sdo);
    assert sdo[4..8] == Padded(value, 4) && sdo[1] == Le16(index)[0] && sdo[2] == Le16(index)[1];
    Le16RoundTrip(index);
  }

  lemma SegmentedPositions(req: seq<u8>, index: u16, subindex: u8, length: u16)
    requires |req| >= 16
    ensures var reply := SdoReply(req, SegmentedSdo(index, subindex, length));
            IsResponse(req, reply) && Says(reply, 0x41, index, subindex) && U32(reply[12..16]) == length
  {
    hide Headers, Le16, IsResponse;
    var sdo := SegmentedSdo(index, subindex, length);
    Positions(req, sdo);
    assert sdo[4..8] == Le16(length) + [0, 0] && sdo[1] == Le16(index)[0] && sdo[2] == Le16(index)[1];
    Le16RoundTrip(index);
    Le16RoundTrip(length);
  }

  lemma DownloadPositions(req: seq<u8>, index: u16, subindex: u8)
    requires |req| >= 16
    ensures var reply := SdoReply(req, DownloadSdo(index, subindex));
            IsResponse(req, reply) && Says(reply, 0x60, index, subindex) && reply[12..16] == [0, 0, 0, 0]
  {
    hide Headers, Le16, IsResponse;
    var sdo := DownloadSdo(index, subindex);
    Positions(req, sdo);
    assert sdo[4..8] == [0, 0, 0, 0] && sdo[1] == Le16(index)[0] && sdo[2] == Le16(index)[1];
    Le16RoundTrip(index);
  }

  lemma SegmentPositions(req: seq<u8>, toggle: u8, chunk: seq<u8>, last: bool)
    requires |req| >= 16 && toggle <= TOGGLE && |chunk| <= 7
    ensures var reply := SdoReply(req, SegmentSdo(toggle, chunk, last));
            && IsResponse(req, reply) && reply[8] == toggle + 2 * (7 - |chunk|) + (if last then 1 else 0)
            && reply[9..16] == chunk + Zeros(7 - |chunk|)
  {
    hide Headers, IsResponse;
    var sdo := SegmentSdo(toggle, chunk, last);
    Positions(req, sdo);
    assert sdo[1..8] == Padded(chunk, 7);
    assert SdoReply(req, sdo)[9..16] == sdo[1..8];
  }

  lemma MissingIs(t: Table, index: u16)
    ensures NotFoundCode(t, index) == MissingCode(t, index)
  {
  }

  lemma SdoOf(s: State, req: seq<u8>, cap: nat, specifier: nat)
    requires ValidState(s) && IsRequest(req, specifier)
    ensures Process(s, req, cap) == Sdo(s, req, cap)
  {
  }

  /** Initiating an upload: an abort that names the reason, the value itself, or the announcement of its length. */
  lemma UploadAnswer(s: State, req: seq<u8>, cap: nat)
    requires ValidState(s) && IsRequest(req, 2) && cap >= 16
    ensures var answer, index, subindex := Process(s, req, cap), IndexOf(req), req[11];
            && IsResponse(req, answer.reply) && answer.state.od == s.od
            && match Lookup(s.od, index, subindex)
               case None => IsAbort(answer.reply, index, subindex, MissingCode(s.od, index)) && !answer.state.up.active
               case Some(k) =>
                 var e := s.od[k];
                 if e.flags % 2 == 0 then
                   IsAbort(answer.reply, index, subindex, 0x0601_0001) && !answer.state.up.active
                 else if |e.data| == 0 then
                   IsAbort(answer.reply, index, subindex, 0x0800_0000) && !answer.state.up.active
                 else if |e.data| <= 4 then
                   Says(answer.reply, 0x43 + 4 * (4 - |e.data|), index, subindex)
                   && answer.reply[12..16] == e.data + Zeros(4 - |e.data|) && !answer.state.up.active
                 else
                   Says(answer.reply, 0x41, index, subindex) && U32(answer.reply[12..16]) == |e.data|
                   && answer.state.up == Upload(true, k, 0, 0)
  {
    hide SdoReply, Le16, Le32, ExpeditedSdo, SegmentedSdo, IsResponse, Says, MissingCode, NotFoundCode;
    var index, subindex := U16(req[9], req[10]), req[11];
    SdoOf(s, req, cap, 2);
    assert Process(s, req, cap) == UploadInit(s, req, cap, index, subindex);
    match Lookup(s.od, index, subindex) {
      case None =>
        MissingIs(s.od, index);
        AbortPositions(req, index, subindex, Le32(MissingCode(s.od, index)));
      case Some(k) =>
        var e := s.od[k];
        if e.flags % 2 == 0 {
          AbortPositions(req, index, subindex, Le32(0x0601_0001));
        } else if |e.data| == 0 {
          AbortPositions(req, index, subindex, Le32(0x0800_0000));
        } else if |e.data| <= 4 {
          ExpeditedPositions(req, index, subindex, e.data);
        } else {
          SegmentedPositions(req, index, subindex, |e.data|);
        }
    }
  }

  /** An expedited download of the bytes v: the command says how many of the four are used, or that all are. */
  predicate Downloads(req: seq<u8>, v: seq<u8>) {
    && IsRequest(req, 1) && 1 <= |v| <= 4 && req[12..12 + |v|] == v
    && (req[8] % 0x10 == 3 + 4 * (4 - |v|) || (|v| == 4 && req[8] % 4 == 2))
  }

  lemma PayloadOf(req: seq<u8>, v: seq<u8>)
    requires Downloads(req, v)
    ensures Bit1(req[8]) && PayloadLen(req[8]) == |v|
  {
    var cmd, n: int := req[8], 4 - |v|;
    var q: int := cmd / 0x10;
    if cmd % 0x10 == 3 + 4 * n {
      assert cmd == 0x10 * q + 3 + 4 * n;
      assert cmd / 4 == 4 * q + n && cmd / 2 == 8 * q + 2 * n + 1;
    }
  }

  /** A download stores exactly its bytes over the first ones of a writable object that is long enough, and is
      confirmed; otherwise it is answered by an abort that names the reason, and changes nothing. */
  lemma DownloadAnswer(s: State, req: seq<u8>, cap: nat, v: seq<u8>)
    requires ValidState(s) && Downloads(req, v) && cap >= 16
    ensures var answer, index, subindex := Process(s, req, cap), IndexOf(req), req[11];
            && IsResponse(req, answer.reply) && answer.state.up == s.up
            && match Lookup(s.od, index, subindex)
               case None => IsAbort(answer.reply, index, subindex, MissingCode(s.od, index)) && answer.state == s
               case Some(k) =>
                 var e := s.od[k];
                 if e.flags / 2 % 2 == 0 then IsAbort(answer.reply, index, subindex, 0x0601_0002) && answer.state == s
                 else if |v| > |e.data| then IsAbort(answer.reply, index, subindex, 0x0607_0010) && answer.state == s
                 else
                   && Says(answer.reply, 0x60, index, subindex) && answer.reply[12..16] == [0, 0, 0, 0]
                   && answer.state.od == s.od[k := e.(data := v + e.data[|v|..])]
  {
    hide SdoReply, Le16, Le32, DownloadSdo, IsResponse, Says, MissingCode, NotFoundCode, PayloadLen, Splice;
    var index, subindex := U16(req[9], req[10]), req[11];
    SdoOf(s, req, cap, 1);
    PayloadOf(req, v);
    assert Process(s, req, cap) == Download(s, req, cap, req[8], index, subindex);
    match Lookup(s.od, index, subindex) {
      case None =>
        MissingIs(s.od, index);
        AbortPositions(req, index, subindex, Le32(MissingCode(s.od, index)));
      case Some(k) =>
        var e := s.od[k];
        if e.flags / 2 % 2 == 0 {
          AbortPositions(req, index, subindex, Le32(0x0601_0002));
        } else if |v| > |e.data| {
          AbortPositions(req, index, subindex, Le32(0x0607_0010));
        } else {
          DownloadPositions(req, index, subindex);
          assert Splice(e.data, 0, v) == v + e.data[|v|..];
        }
    }
  }

  /** A segmented download is refused, whatever the object. */
  lemma SegmentedDownloadRefused(s: State, req: seq<u8>, cap: nat)
    requires ValidState(s) && IsRequest(req, 1) && req[8] / 2 % 2 == 0 && cap >= 16
    ensures var answer, index, subindex := Process(s, req, cap), IndexOf(req), req[11];
            && IsResponse(req, answer.reply) && answer.state == s
            && IsAbort(answer.reply, index, subindex,
                       match Lookup(s.od, index, subindex)
                       case None => MissingCode(s.od, index)
                       case Some(k) => if s.od[k].flags / 2 % 2 == 0 then 0x0601_0002 else 0x0800_0000)
  {
    hide SdoReply, Le16, Le32, Says, IsResponse, MissingCode, NotFoundCode, PayloadLen;
    var index, subindex := U16(req[9], req[10]), req[11];
    SdoOf(s, req, cap, 1);
    MissingIs(s.od, index);
    AbortPositions(req, index, subindex, Le32(MissingCode(s.od, index)));
    AbortPositions(req, index, subindex, Le32(0x0601_0002));
    AbortPositions(req, index, subindex, Le32(0x0800_0000));
  }

  /** A segment request: without an upload, and on a toggle bit that does not count the segments sent, an abort; else
      the next seven bytes or the rest, with the toggle bit of the request, the number of unused bytes and the LAST
      flag. */
  lemma SegmentAnswer(s: State, req: seq<u8>, cap: nat)
    requires ValidState(s) && IsRequest(req, 3) && cap >= 16
    ensures var answer := Process(s, req, cap);
            && IsResponse(req, answer.reply) && answer.state.od == s.od
            && if !s.up.active then IsAbort(answer.reply, 0, 0, 0x0800_0000) && answer.state == s
               else
                 var e, offset: nat := s.od[s.up.entry], s.up.offset;
                 if req[8] / 0x10 % 2 != offset / 7 % 2 then
                   IsAbort(answer.reply, e.index, e.subindex, 0x0503_0000) && !answer.state.up.active
                 else
                   var left := |e.data| - offset;
                   var size := if left < 7 then left else 7;
                   && answer.reply[8] == 0x10 * (req[8] / 0x10 % 2) + 2 * (7 - size) + (if left <= 7 then 1 else 0)
                   && answer.reply[9..16] == e.data[offset..offset + size] + Zeros(7 - size)
                   && answer.state.up.offset == offset + size && answer.state.up.entry == s.up.entry
                   && answer.state.up.active == (left > 7)
  {
    hide SdoReply, Le16, Le32, SegmentSdo, IsResponse, Says;
    SdoOf(s, req, cap, 3);
    assert Process(s, req, cap) == UploadSegment(s, req, cap, req[8]);
    if !s.up.active {
      AbortPositions(req, 0, 0, Le32(0x0800_0000));
    } else {
      var e := s.od[s.up.entry];
      var chunk := Chunk(e.data, s.up.offset);
      AbortPositions(req, e.index, e.subindex, Le32(0x0503_0000));
      SegmentPositions(req, ToggleOf(req[8]), chunk, |chunk| == |e.data| - s.up.offset);
    }
  }

  /** The master's abort ends the upload, without a reply. */
  lemma AbortTaken(s: State, req: seq<u8>, cap: nat)
    requires ValidState(s) && IsRequest(req, 4)
    ensures var answer := Process(s, req, cap);
            answer.reply == [] && answer.state.od == s.od && !answer.state.up.active
  {
    SdoOf(s, req, cap, 4);
  }

  /** Any other command specifier is answered by an abort. */
  lemma UnknownRefused(s: State, req: seq<u8>, cap: nat)
    requires ValidState(s) && |req| >= 16 && IsRequest(req, req[8] / 0x20) && cap >= 16
    requires req[8] / 0x20 !in {1, 2, 3, 4}
    ensures var answer := Process(s, req, cap);
            && IsResponse(req, answer.reply) && answer.state == s
            && IsAbort(answer.reply, IndexOf(req), req[11], 0x0800_0000)
  {
    hide SdoReply, Le16, Le32, Says, IsResponse;
    SdoOf(s, req, cap, req[8] / 0x20);
    AbortPositions(req, IndexOf(req), req[11], Le32(0x0800_0000));
  }

  /** Without room for the 16 bytes of a reply none is sent; the request has the effect it has with room, unless it
      would be answered by data: then it has none. */
  lemma NoRoom(s: State, req: seq<u8>, cap: nat)
    requires ValidState(s) && |req| >= 16 && IsRequest(req, req[8] / 0x20) && cap < 16
    ensures var answer, roomy := Process(s, req, cap), Process(s, req, 16);
            && answer.reply == []
            && answer.state == if req[8] / 0x20 in {2, 3} && !AbortCommand(roomy.reply) then s else roomy.state
  {
    SdoOf(s, req, cap, req[8] / 0x20);
    SdoOf(s, req, 16, req[8] / 0x20);
  }

  predicate AbortCommand(reply: seq<u8>) {
    |reply| == 16 && reply[8] == 0x80
  }

  /** Frames that are short, of another mailbox protocol or of another CoE service are not answered and change nothing;
      neither are SDO Information requests other than for the list. */
  lemma OthersIgnored(s: State, frame: seq<u8>, cap: nat)
    requires ValidState(s)
    requires |frame| < 16 || frame[5] % 0x10 != 3 || frame[7] / 0x10 !in {2, 8}
             || (frame[7] / 0x10 == 8 && frame[8] != 1)
    ensures Process(s, frame, cap) == Answer(s, [])
  {
  }

  /** A list of another type than "all objects" comes back empty. */
  lemma OtherListsEmpty(s: State, req: seq<u8>, cap: nat)
    requires ValidState(s) && |req| >= 16 && cap >= 16
    requires req[5] % 0x10 == 3 && req[7] / 0x10 == 8 && req[8] == 1 && U16(req[12], req[13]) != 1
    ensures var answer := Process(s, req, cap);
            && answer.state == s && |answer.reply| == 14 && U16(answer.reply[0], answer.reply[1]) == 8
            && answer.reply[2..6] == req[2..6] && answer.reply[6..8] == [0, 0x80]
            && answer.reply[8..12] == [2, 0, 0, 0] && answer.reply[12..14] == req[12..14]
  {
    hide Words, Listed;
    var listType := U16(req[12], req[13]);
    var body, h := ListBody(s.od, cap, listType), Headers(req, 6, SVC_SDO_INFO);
    assert |body| == 6;
    assert Process(s, req, cap) == Answer(s, h + body);
    Le16OfU16(req[12], req[13]);
    var reply := h + body;
    assert reply[..8] == h && reply[8..] == body;
    assert reply[2..6] == h[2..6] == req[2..6] && reply[6..8] == h[6..8];
    assert reply[8..12] == body[..4] && reply[12..14] == body[4..] == Le16(listType);
  }

  /** Whether an upload is open after a request and its reply, told from these two alone: a reply to an initiation opens
      it or not, a segment keeps it unless it is the last one, and an abort from either side closes it. */
  predicate OpenAfter(open: bool, req: seq<u8>, reply: seq<u8>) {
    if IsRequest(req, 2) then CoeRuns.Opens(reply)
    else if IsRequest(req, 3) then open && CoeRuns.IsSegment(reply) && !CoeRuns.IsLast(reply)
    else if IsRequest(req, 4) then false
    else open
  }

  lemma ActiveStep(s: State, req: seq<u8>, cap: nat)
    requires ValidState(s) && cap >= 16
    ensures var answer := Process(s, req, cap);
            answer.state.up.active == OpenAfter(s.up.active, req, answer.reply)
  {
    hide Process, ValidState, CoeRuns.Opens, CoeRuns.IsSegment, CoeRuns.IsLast;
    if IsRequest(req, 2) {
      UploadActive(s, req, cap);
    } else if IsRequest(req, 3) {
      SegmentActive(s, req, cap);
    } else if IsRequest(req, 4) {
      AbortTaken(s, req, cap);
    } else {
      OthersKeepUpload(s, req, cap);
    }
  }

  lemma UploadActive(s: State, req: seq<u8>, cap: nat)
    requires ValidState(s) && IsRequest(req, 2) && cap >= 16
    ensures var answer := Process(s, req, cap); answer.state.up.active == CoeRuns.Opens(answer.reply)
  {
    hide Process, IsResponse, MissingCode, ValidState, CoeRuns.Opens, U16, U32;
    UploadAnswer(s, req, cap);
    OpensByCommand(req, Process(s, req, cap).reply);
  }

  lemma SegmentActive(s: State, req: seq<u8>, cap: nat)
    requires ValidState(s) && IsRequest(req, 3) && cap >= 16
    ensures var answer := Process(s, req, cap);
            answer.state.up.active
            == (s.up.active && CoeRuns.IsSegment(answer.reply) && !CoeRuns.IsLast(answer.reply))
  {
    hide Process, IsResponse, CoeRuns.IsSegment, CoeRuns.IsLast, U16, U32;
    SegmentAnswer(s, req, cap);
    SegmentByCommand(req, Process(s, req, cap).reply);
  }

  lemma OpensByCommand(req: seq<u8>, reply: seq<u8>)
    requires |req| >= 16 && IsResponse(req, reply)
    ensures CoeRuns.Opens(reply) <==> reply[8] / 0x20 == 2 && reply[8] / 2 % 2 == 0
  {
  }

  lemma SegmentByCommand(req: seq<u8>, reply: seq<u8>)
    requires |req| >= 16 && IsResponse(req, reply)
    ensures CoeRuns.IsSegment(reply) <==> reply[8] / 0x20 == 0
    ensures CoeRuns.IsSegment(reply) ==> (CoeRuns.IsLast(reply) <==> reply[8] % 2 == 1)
  {
  }

  lemma OthersKeepUpload(s: State, req: seq<u8>, cap: nat)
    requires ValidState(s) && !IsRequest(req, 2) && !IsRequest(req, 3) && !IsRequest(req, 4)
    ensures Process(s, req, cap).state.up == s.up
  {
  }

  /** The same over a run of frames, each with the reply it got. */
  predicate OpenAfterAll(open: bool, s: State, frames: seq<seq<u8>>, cap: nat)
    requires ValidState(s)
    decreases |frames|
  {
    if frames == [] then open
    else
      ProcessKeepsValid(s, frames[0], cap);
      var answer := Process(s, frames[0], cap);
      OpenAfterAll(OpenAfter(open, frames[0], answer.reply), answer.state, frames[1..], cap)
  }

  /** After every run the server has an upload open exactly when requests and replies say so. */
  lemma {:induction false} ActiveFromReplies(s: State, frames: seq<seq<u8>>, cap: nat)
    requires ValidState(s) && cap >= 16
    ensures CoeRuns.Run(s, frames, cap).up.active == OpenAfterAll(s.up.active, s, frames, cap)
    decreases |frames|
  {
    hide Process, OpenAfter;
    if frames != [] {
      ProcessKeepsValid(s, frames[0], cap);
      ActiveStep(s, frames[0], cap);
      ActiveFromReplies(Process(s, frames[0], cap).state, frames[1..], cap);
    }
  }

  /** No reply of the run opens an upload. */
  predicate NothingOpened(s: State, frames: seq<seq<u8>>, cap: nat)
    requires ValidState(s)
    decreases |frames|
  {
    frames == [] ||
    (ProcessKeepsValid(s, frames[0], cap);
     !CoeRuns.Opens(Process(s, frames[0], cap).reply)
     && NothingOpened(Process(s, frames[0], cap).state, frames[1..], cap))
  }

  lemma {:induction false} StaysClosed(s: State, frames: seq<seq<u8>>, cap: nat)
    requires ValidState(s) && cap >= 16 && !s.up.active && NothingOpened(s, frames, cap)
    ensures !CoeRuns.Run(s, frames, cap).up.active
    decreases |frames|
  {
    hide Process, CoeRuns.Opens, CoeRuns.IsSegment;
    if frames != [] {
      ProcessKeepsValid(s, frames[0], cap);
      ActiveStep(s, frames[0], cap);
      StaysClosed(Process(s, frames[0], cap).state, frames[1..], cap);
    }
  }

  /** After the master's abort every segment request, with either toggle bit, is answered by an abort until an upload is
      opened again. */
  lemma AbortEndsUpload(s: State, abort: seq<u8>, frames: seq<seq<u8>>, segment: seq<u8>, cap: nat)
    requires ValidState(s) && cap >= 16 && IsRequest(abort, 4) && IsRequest(segment, 3)
    ensures var aborted := Process(s, abort, cap);
            && aborted.reply == [] && ValidState(aborted.state) && aborted.state.od == s.od
            && (NothingOpened(aborted.state, frames, cap) ==>
                  IsAbort(Process(CoeRuns.Run(aborted.state, frames, cap), segment, cap).reply, 0, 0, 0x0800_0000))
  {
    hide Process, NothingOpened, IsAbort, IsResponse;
    AbortTaken(s, abort, cap);
    ProcessKeepsValid(s, abort, cap);
    var aborted := Process(s, abort, cap).state;
    if NothingOpened(aborted, frames, cap) {
      StaysClosed(aborted, frames, cap);
      SegmentAnswer(CoeRuns.Run(aborted, frames, cap), segment, cap);
    }
  }
}
