/** Laws of whole runs of the CoE server: segmented uploads are prefixes, objects change only by
    accepted downloads, and the object list is complete up to the space for it. */
module CoeRuns {
  import opened Bytes
  import opened ObjectDictionary
  import opened Coe

  /** The server after a run of mailbox frames. */
  function Run(s: State, frames: seq<seq<u8>>, cap: nat): (r: State)
    requires ValidState(s)
    ensures ValidState(r) && |r.od| == |s.od|
    decreases |frames|
  {
    if frames == [] then s
    else
      ProcessKeepsValid(s, frames[0], cap);
      Run(Process(s, frames[0], cap).state, frames[1..], cap)
  }

  predicate IsSdoReply(reply: seq<u8>) {
    |reply| == FRAME_LEN && reply[7] == 0x10 * SVC_SDO_RESP
  }

  /** The reply announces a segmented upload. */
  predicate Opens(reply: seq<u8>) {
    IsSdoReply(reply) && reply[8] / 0x20 == 2 && !Bit1(reply[8])
  }

  /** The reply carries one segment. */
  predicate IsSegment(reply: seq<u8>) {
    IsSdoReply(reply) && reply[8] / 0x20 == 0
  }

  function SegmentBytes(reply: seq<u8>): seq<u8>
    requires IsSegment(reply)
  {
    reply[9..16 - reply[8] / 2 % 8]
  }

  predicate IsLast(reply: seq<u8>)
    requires IsSegment(reply)
  {
    Bit0(reply[8])
  }

  /** An observer that only reads replies: the segment bytes since the last announced upload.
      `clean` says that the object being uploaded has not been written since then. */
  datatype Observer = Observer(collected: seq<u8>, clean: bool)

  predicate Unwritten(s: State, answer: Answer) {
    s.up.active && s.up.entry < |s.od| && s.up.entry < |answer.state.od| ==>
      answer.state.od[s.up.entry].data == s.od[s.up.entry].data
  }

  function Observe(o: Observer, s: State, frame: seq<u8>, cap: nat): Observer
    requires ValidState(s)
  {
    var answer := Process(s, frame, cap);
    if Opens(answer.reply) then Observer([], true)
    else Observer(if IsSegment(answer.reply) then o.collected + SegmentBytes(answer.reply) else o.collected,
                  o.clean && Unwritten(s, answer))
  }

  function ObserveRun(o: Observer, s: State, frames: seq<seq<u8>>, cap: nat): Observer
    requires ValidState(s)
    decreases |frames|
  {
    if frames == [] then o
    else
      ProcessKeepsValid(s, frames[0], cap);
      ObserveRun(Observe(o, s, frames[0], cap), Process(s, frames[0], cap).state, frames[1..], cap)
  }

  /** While the object is not written, the observer has exactly the first `offset` bytes of it. */
  predicate InStep(o: Observer, s: State)
    requires ValidState(s)
  {
    s.up.active && o.clean ==> o.collected == s.od[s.up.entry].data[..s.up.offset]
  }

  lemma SegmentReplyForm(req: seq<u8>, toggle: u8, chunk: seq<u8>, last: bool)
    requires |req| >= FRAME_LEN && (toggle == 0 || toggle == TOGGLE) && |chunk| <= 7
    ensures var reply := SdoReply(req, SegmentSdo(toggle, chunk, last));
            IsSegment(reply) && !Opens(reply) && SegmentBytes(reply) == chunk && IsLast(reply) == last
            && ToggleOf(reply[8]) == toggle
  {
    var sdo := SegmentSdo(toggle, chunk, last);
    var reply := SdoReply(req, sdo);
    var n := 7 - |chunk|;
    assert reply[8] == sdo[0] == toggle + 2 * n + if last then 1 else 0;
    assert reply[8] / 2 == toggle / 2 + n;
    assert reply[9..16 - n] == Padded(chunk, 7)[..|chunk|];
  }

  lemma AbortReplyForm(req: seq<u8>, cap: nat, index: u16, subindex: u8, code: u32)
    requires |req| >= FRAME_LEN
    ensures var reply := Abort(req, cap, index, subindex, code);
            !IsSegment(reply) && !Opens(reply) && (IsSdoReply(reply) ==> reply[8] / 0x20 == CS_ABORT)
  {
  }

  lemma UploadReplyForm(req: seq<u8>, index: u16, subindex: u8, value: seq<u8>)
    requires |req| >= FRAME_LEN && 0 < |value| < 0x1_0000
    ensures |value| <= 4 ==> var reply := SdoReply(req, ExpeditedSdo(index, subindex, value));
                             IsSdoReply(reply) && !IsSegment(reply) && !Opens(reply) && reply[8] / 0x20 == 2
    ensures var reply := SdoReply(req, SegmentedSdo(index, subindex, |value|));
            Opens(reply) && !IsSegment(reply)
  {
  }

  lemma InfoReplyForm(t: Table, req: seq<u8>, cap: nat)
    requires |req| >= FRAME_LEN
    ensures !IsSdoReply(Info(t, req, cap))
  {
    var reply := Info(t, req, cap);
    if |reply| >= 8 {
      assert reply[7] == 0x10 * SVC_SDO_INFO;
    }
  }

  /** What each handler answers, as seen on the wire. */
  lemma SdoReplyKinds(s: State, req: seq<u8>, cap: nat)
    requires ValidState(s) && |req| >= FRAME_LEN
    ensures var answer, cs := Sdo(s, req, cap), req[8] / 0x20;
            && (Opens(answer.reply) <==> cs == CCS_UPLOAD && answer.state.up.active && answer.reply != [])
            && (IsSegment(answer.reply) ==> cs == CCS_SEGMENT && s.up.active && s.up.toggle == ToggleOf(req[8]))
  {
    assert !Opens([]) && !IsSegment([]);
    hide Opens, IsSegment, Abort, SdoReply, SegmentSdo, SegmentedSdo, ExpeditedSdo, DownloadSdo, NotFoundCode;
    var cmd, index, subindex := req[8], U16(req[9], req[10]), req[11];
    AbortReplyForm(req, cap, 0, 0, ABORT_GENERAL);
    AbortReplyForm(req, cap, index, subindex, ABORT_GENERAL);
    AbortReplyForm(req, cap, index, subindex, NotFoundCode(s.od, index));
    match Lookup(s.od, index, subindex) {
      case None =>
      case Some(k) =>
        var e := s.od[k];
        AbortReplyForm(req, cap, index, subindex, ABORT_READ_WO);
        AbortReplyForm(req, cap, index, subindex, ABORT_WRITE_RO);
        AbortReplyForm(req, cap, index, subindex, ABORT_LENGTH_MM);
        if |e.data| > 0 {
          UploadReplyForm(req, index, subindex, e.data);
        }
    }
    if s.up.active {
      var e := s.od[s.up.entry];
      AbortReplyForm(req, cap, e.index, e.subindex, ABORT_TOGGLE_BIT);
      var chunk := Chunk(e.data, s.up.offset);
      SegmentReplyForm(req, s.up.toggle, chunk, |chunk| == |e.data| - s.up.offset);
    }
  }

  /** Segment answers extend the prefix, and LAST is sent exactly with the last byte of the object. */
  predicate SegmentExtends(o: Observer, s: State, answer: Answer, o': Observer)
    requires ValidState(s)
  {
    && s.up.active
    && var data := s.od[s.up.entry].data;
       && answer.state.up.entry == s.up.entry
       && answer.state.up.offset <= |data| && o'.collected == data[..answer.state.up.offset]
       && |o.collected| < |o'.collected|
       && (IsSegment(answer.reply) ==> (IsLast(answer.reply) <==> o'.collected == data)
                                       && (IsLast(answer.reply) <==> !answer.state.up.active))
  }

  lemma AcceptedSegment(o: Observer, s: State, req: seq<u8>, cap: nat)
    requires ValidState(s) && |req| >= FRAME_LEN && s.up.active && ToggleOf(req[8]) == s.up.toggle && cap >= FRAME_LEN
    requires o.collected == s.od[s.up.entry].data[..s.up.offset]
    ensures var answer := UploadSegment(s, req, cap, req[8]);
            && IsSegment(answer.reply) && !Opens(answer.reply) && answer.state.od == s.od
            && SegmentExtends(o, s, answer, Observer(o.collected + SegmentBytes(answer.reply), true))
  {
    var data, offset := s.od[s.up.entry].data, s.up.offset;
    var chunk := Chunk(data, offset);
    SegmentReplyForm(req, s.up.toggle, chunk, |chunk| == |data| - offset);
    assert data[..offset] + chunk == data[..offset + |chunk|];
    assert data[..|data|] == data;
  }

  /** One frame keeps the observer in step, whatever it is. */
  lemma PrefixStep(o: Observer, s: State, frame: seq<u8>, cap: nat)
    requires ValidState(s) && InStep(o, s)
    ensures var answer, o' := Process(s, frame, cap), Observe(o, s, frame, cap);
            && ValidState(answer.state) && InStep(o', answer.state)
            && (IsSegment(answer.reply) && o.clean ==> SegmentExtends(o, s, answer, o'))
  {
    ProcessKeepsValid(s, frame, cap);
    if |frame| >= FRAME_LEN {
      InfoReplyForm(s.od, frame, cap);
      if frame[5] % 0x10 == MBX_TYPE_COE && frame[7] / 0x10 == SVC_SDO_REQ {
        SdoPrefixStep(o, s, frame, cap);
      }
    }
  }

  lemma SdoPrefixStep(o: Observer, s: State, frame: seq<u8>, cap: nat)
    requires ValidState(s) && InStep(o, s) && |frame| >= FRAME_LEN
    requires Process(s, frame, cap) == Sdo(s, frame, cap)
    ensures var answer, o' := Process(s, frame, cap), Observe(o, s, frame, cap);
            && ValidState(answer.state) && InStep(o', answer.state)
            && (IsSegment(answer.reply) && o.clean ==> SegmentExtends(o, s, answer, o'))
  {
    ProcessKeepsValid(s, frame, cap);
    SdoReplyKinds(s, frame, cap);
    var answer := Sdo(s, frame, cap);
    if frame[8] / 0x20 == CCS_SEGMENT {
      if s.up.active && o.clean && ToggleOf(frame[8]) == s.up.toggle && cap >= FRAME_LEN {
        AcceptedSegment(o, s, frame, cap);
      }
    } else if frame[8] / 0x20 == CCS_UPLOAD {
      assert Opens(answer.reply) ==> answer.state.up.offset == 0;
    }
  }

  /** Prefix safety over every run from a server without an upload, with any interleaving of frames:
      while the object is not written, the segments sent so far are a prefix of it of length `offset`,
      and LAST is sent exactly when the prefix is the whole object. */
  lemma {:induction false} PrefixSafety(o: Observer, s: State, frames: seq<seq<u8>>, cap: nat, k: nat)
    requires ValidState(s) && InStep(o, s) && k < |frames|
    ensures var before, seen := Run(s, frames[..k], cap), ObserveRun(o, s, frames[..k], cap);
            var answer := Process(before, frames[k], cap);
            && InStep(seen, before)
            && (IsSegment(answer.reply) && seen.clean ==>
                  SegmentExtends(seen, before, answer, Observe(seen, before, frames[k], cap)))
    decreases k
  {
    PrefixStep(o, s, frames[0], cap);
    if k > 0 {
      assert frames[..k][0] == frames[0] && frames[..k][1..] == frames[1..][..k - 1];
      PrefixSafety(Observe(o, s, frames[0], cap), Process(s, frames[0], cap).state, frames[1..], cap, k - 1);
    }
  }

  /** The same after the whole run: what was collected is the prefix of length `offset`. */
  lemma {:induction false} PrefixAtEnd(o: Observer, s: State, frames: seq<seq<u8>>, cap: nat)
    requires ValidState(s) && InStep(o, s)
    ensures InStep(ObserveRun(o, s, frames, cap), Run(s, frames, cap))
    decreases |frames|
  {
    hide Process, Observe, InStep, SegmentExtends, IsSegment;
    if frames != [] {
      PrefixStep(o, s, frames[0], cap);
      PrefixAtEnd(Observe(o, s, frames[0], cap), Process(s, frames[0], cap).state, frames[1..], cap);
    }
  }

  /** Any observer may start watching a server that has no upload in progress. */
  lemma IdleInStep(o: Observer, od: Table)
    ensures ValidState(State(od, NoUpload)) && InStep(o, State(od, NoUpload))
  {
  }

  /** Prefix safety of a new server, from its first frame on. */
  lemma NewServerPrefixSafety(od: Table, frames: seq<seq<u8>>, cap: nat, k: nat)
    requires k < |frames|
    ensures ValidState(State(od, NoUpload))
    ensures var s, o := State(od, NoUpload), Observer([], true);
            var before, seen := Run(s, frames[..k], cap), ObserveRun(o, s, frames[..k], cap);
            var answer := Process(before, frames[k], cap);
            && InStep(seen, before)
            && (IsSegment(answer.reply) && seen.clean ==>
                  SegmentExtends(seen, before, answer, Observe(seen, before, frames[k], cap)))
  {
    hide Process, InStep, SegmentExtends, IsSegment;
    IdleInStep(Observer([], true), od);
    PrefixSafety(Observer([], true), State(od, NoUpload), frames, cap, k);
  }

  /** The request carries an expedited download for object k of the table that will be accepted. */
  predicate AcceptsDownload(t: Table, frame: seq<u8>) {
    && |frame| >= FRAME_LEN && frame[5] % 0x10 == MBX_TYPE_COE && frame[7] / 0x10 == SVC_SDO_REQ
    && frame[8] / 0x20 == CCS_DOWNLOAD && Bit1(frame[8])
    && var k := Lookup(t, U16(frame[9], frame[10]), frame[11]);
       k.Some? && t[k.value].Writable() && PayloadLen(frame[8]) <= |t[k.value].data|
  }

  predicate SameShape(e: Entry, f: Entry) {
    f == e.(data := f.data) && |f.data| == |e.data|
  }

  /** A frame changes the table exactly as an accepted download says: the first bytes of one object. */
  lemma DownloadEffect(s: State, frame: seq<u8>, cap: nat)
    requires ValidState(s)
    ensures var t, u := s.od, Process(s, frame, cap).state.od;
            && |u| == |t|
            && (!AcceptsDownload(t, frame) ==> u == t)
            && (AcceptsDownload(t, frame) ==>
                  var k, n := Lookup(t, U16(frame[9], frame[10]), frame[11]).value, PayloadLen(frame[8]);
                  && (forall i :: 0 <= i < |t| && i != k ==> u[i] == t[i])
                  && SameShape(t[k], u[k])
                  && u[k].data == frame[12..12 + n] + t[k].data[n..])
  {
    ProcessKeepsValid(s, frame, cap);
  }

  lemma {:induction false} LookupKept(t: Table, u: Table, index: u16, subindex: u8)
    requires |t| == |u| && forall i :: 0 <= i < |t| ==> u[i].index == t[i].index && u[i].subindex == t[i].subindex
    ensures Lookup(u, index, subindex) == Lookup(t, index, subindex)
  {
    if t != [] {
      LookupKept(t[1..], u[1..], index, subindex);
    }
  }

  /** The answer to a download says whether it was accepted, and a following upload of a small object
      returns the updated bytes. */
  lemma DownloadThenUpload(s: State, frame: seq<u8>, cap: nat, req: seq<u8>)
    requires ValidState(s) && cap >= FRAME_LEN && |req| >= FRAME_LEN && AcceptsDownload(s.od, frame)
    ensures var index, subindex := U16(frame[9], frame[10]), frame[11];
            var k, answer := Lookup(s.od, index, subindex).value, Process(s, frame, cap);
            && answer.reply == SdoReply(frame, DownloadSdo(index, subindex))
            && ValidState(answer.state)
            && var value := frame[12..12 + PayloadLen(frame[8])] + s.od[k].data[PayloadLen(frame[8])..];
               (s.od[k].Readable() && |s.od[k].data| <= 4 ==>
                  UploadInit(answer.state, req, cap, index, subindex).reply
                  == SdoReply(req, ExpeditedSdo(index, subindex, value)))
  {
    ProcessKeepsValid(s, frame, cap);
    DownloadEffect(s, frame, cap);
    var index, subindex := U16(frame[9], frame[10]), frame[11];
    LookupKept(s.od, Process(s, frame, cap).state.od, index, subindex);
  }

  /** No run of frames changes an object that lacks the write flag, or the shape of any object. */
  lemma {:induction false} ReadOnlyObjectsKept(s: State, frames: seq<seq<u8>>, cap: nat, k: nat)
    requires ValidState(s) && k < |s.od|
    ensures SameShape(s.od[k], Run(s, frames, cap).od[k])
    ensures !s.od[k].Writable() ==> Run(s, frames, cap).od[k] == s.od[k]
    decreases |frames|
  {
    if frames != [] {
      ProcessKeepsValid(s, frames[0], cap);
      DownloadEffect(s, frames[0], cap);
      ReadOnlyObjectsKept(Process(s, frames[0], cap).state, frames[1..], cap, k);
    }
  }

  predicate Sorted(t: Table) {
    forall i, j :: 0 <= i < j < |t| ==> t[i].index <= t[j].index
  }

  predicate Increasing(ws: seq<u16>) {
    forall i, j :: 0 <= i < j < |ws| ==> ws[i] < ws[j]
  }

  lemma {:induction false} DistinctSorted(t: Table, prev: u16)
    requires Sorted(t) && (forall i :: 0 <= i < |t| ==> prev <= t[i].index)
    ensures Increasing(Distinct(t, prev)) && (forall i :: 0 <= i < |Distinct(t, prev)| ==> prev < Distinct(t, prev)[i])
    ensures forall w :: w in Distinct(t, prev) <==> w != prev && IndexExists(t, w)
  {
    if t != [] {
      hide IndexExists;
      DistinctSorted(t[1..], t[0].index);
      forall w: u16
        ensures IndexExists(t, w) <==> w == t[0].index || IndexExists(t[1..], w)
      {
        IndexOfHeadOrTail(t, w);
      }
    } else {
      assert forall w: u16 :: !IndexExists(t, w);
    }
  }

  lemma IndexOfHeadOrTail(t: Table, w: u16)
    requires t != []
    ensures IndexExists(t, w) <==> w == t[0].index || IndexExists(t[1..], w)
  {
    var tail := t[1..];
    if IndexExists(tail, w) {
      var i :| 0 <= i < |tail| && tail[i].index == w;
      assert t[i + 1].index == w;
    }
    assert forall i :: 1 <= i < |t| ==> t[i] == tail[i - 1];
  }

  lemma {:induction false} WordAt(ws: seq<u16>, i: nat)
    requires i < |ws|
    ensures Words(ws)[2 * i] == ws[i] % 0x100 && Words(ws)[2 * i + 1] == ws[i] / 0x100
    decreases |ws|
  {
    if i < |ws| - 1 {
      WordAt(ws[..|ws| - 1], i);
    }
  }

  predicate IsListRequest(req: seq<u8>) {
    |req| >= FRAME_LEN && req[8] == INFO_LIST_REQ && U16(req[12], req[13]) == LIST_ALL
  }

  /** How many indices go into the list reply. */
  function ListedCount(t: Table, cap: nat): nat
    requires cap >= FRAME_LEN
  {
    var room := (cap - 14) / 2;
    if |Distinct(t, 0xFFFF)| <= room then |Distinct(t, 0xFFFF)| else room
  }

  /** The largest number of indices whose lengths fit the two 16-bit length computations. */
  const LIST_LIMIT := 32763

  /** The list of a sorted table is increasing, and it has every index of the table if and only if the first one is not
      0xFFFF, which stands for "none so far". */
  lemma DistinctIsIndexSet(t: Table)
    requires Sorted(t)
    ensures Increasing(Distinct(t, 0xFFFF))
    ensures (forall w: u16 :: w in Distinct(t, 0xFFFF) <==> IndexExists(t, w))
            <==> (t != [] ==> t[0].index != 0xFFFF)
  {
    if t != [] && t[0].index == 0xFFFF {
      assert IndexExists(t, 0xFFFF);
      OnlyMarkers(t);
    } else if t != [] {
      DistinctSorted(t, t[0].index);
      DistinctSorted(t[1..], t[0].index);
      assert Distinct(t, 0xFFFF) == [t[0].index] + Distinct(t, t[0].index);
    }
  }

  lemma {:induction false} OnlyMarkers(t: Table)
    requires forall i :: 0 <= i < |t| ==> t[i].index == 0xFFFF
    ensures Distinct(t, 0xFFFF) == []
  {
    if t != [] {
      OnlyMarkers(t[1..]);
    }
  }

  /** A table whose only object has index 0xFFFF: the list is empty. */
  lemma MarkerNotListed(subindex: u8, data: seq<u8>)
    requires |data| < 0x1_0000
    ensures var t := [Object(0xFFFF, subindex, 0, 1, data)];
            Sorted(t) && IndexExists(t, 0xFFFF) && Distinct(t, 0xFFFF) == []
  {
    var t := [Object(0xFFFF, subindex, 0, 1, data)];
    assert t[0].index == 0xFFFF;
    OnlyMarkers(t);
  }

  lemma BodySize(t: Table, cap: nat)
    requires cap >= FRAME_LEN
    ensures |ListBody(t, cap, LIST_ALL)| == 6 + 2 * ListedCount(t, cap)
  {
    hide Distinct, Words;
  }

  lemma ListReplyParts(t: Table, req: seq<u8>, cap: nat)
    requires IsListRequest(req) && cap >= FRAME_LEN
    ensures var reply, body := Info(t, req, cap), ListBody(t, cap, LIST_ALL);
            && |body| == 6 + 2 * ListedCount(t, cap)
            && |reply| == 8 + |body| % 0x1_0000
            && U16(reply[0], reply[1]) == (2 + |body| % 0x1_0000) % 0x1_0000
            && reply[8..] == body[..|body| % 0x1_0000]
  {
    hide ListBody, ListedCount;
    BodySize(t, cap);
    var n := |ListBody(t, cap, LIST_ALL)| % 0x1_0000;
    Le16RoundTrip((2 + n) % 0x1_0000);
    var reply, h := Info(t, req, cap), Headers(req, n, SVC_SDO_INFO);
    assert reply[0] == h[0] && reply[1] == h[1];
  }

  /** The list reply is as long as its indices need, and its mailbox length matches the bytes emitted,
      exactly when at most LIST_LIMIT indices are listed. */
  lemma ListReplyLength(t: Table, req: seq<u8>, cap: nat)
    requires IsListRequest(req) && cap >= FRAME_LEN
    ensures var reply, k := Info(t, req, cap), ListedCount(t, cap);
            |reply| == 14 + 2 * k && U16(reply[0], reply[1]) == |reply| - 6 <==> k <= LIST_LIMIT
  {
    ListReplyParts(t, req, cap);
    LengthsMatch(ListedCount(t, cap));
  }

  lemma LengthsMatch(k: nat)
    ensures var n := (6 + 2 * k) % 0x1_0000;
            8 + n == 14 + 2 * k && (2 + n) % 0x1_0000 == 2 + n <==> k <= LIST_LIMIT
  {
    var n := (6 + 2 * k) % 0x1_0000;
    if k <= LIST_LIMIT + 1 {
      assert n == 6 + 2 * k;
    } else {
      assert n < 0x1_0000 <= 6 + 2 * k;
    }
  }

  lemma BodyWord(body: seq<u8>, head: seq<u8>, words: seq<u8>, reply: seq<u8>, i: nat)
    requires body == head + words && |head| == 6 && 2 * i + 1 < |words|
    requires |reply| == 8 + |body| && reply[8..] == body
    ensures reply[14 + 2 * i] == words[2 * i] && reply[15 + 2 * i] == words[2 * i + 1]
  {
    assert reply[14 + 2 * i] == reply[8..][6 + 2 * i];
    assert reply[15 + 2 * i] == reply[8..][7 + 2 * i];
  }

  /** The list reply holds the first indices that fit, two bytes each. */
  lemma ListReplyItem(t: Table, req: seq<u8>, cap: nat, i: nat)
    requires IsListRequest(req) && cap >= FRAME_LEN && i < ListedCount(t, cap) <= LIST_LIMIT
    ensures var reply := Info(t, req, cap);
            |reply| == 14 + 2 * ListedCount(t, cap)
            && U16(reply[14 + 2 * i], reply[15 + 2 * i]) == Distinct(t, 0xFFFF)[i]
  {
    hide Info, ListBody, Words, Distinct, Listed;
    ListReplyParts(t, req, cap);
    var reply, body, listed := Info(t, req, cap), ListBody(t, cap, LIST_ALL), Listed(t, cap);
    assert |body| % 0x1_0000 == |body| && body[..|body|] == body;
    ListedItem(t, cap, i);
    WordAt(listed, i);
    BodyWords(t, cap);
    BodyWord(body, body[..6], Words(listed), reply, i);
    Le16RoundTrip(listed[i]);
  }

  lemma ListedItem(t: Table, cap: nat, i: nat)
    requires cap >= FRAME_LEN && i < ListedCount(t, cap)
    ensures |Listed(t, cap)| == ListedCount(t, cap) && Listed(t, cap)[i] == Distinct(t, 0xFFFF)[i]
  {
  }

  lemma BodyWords(t: Table, cap: nat)
    requires cap >= FRAME_LEN
    ensures var body := ListBody(t, cap, LIST_ALL); body == body[..6] + Words(Listed(t, cap))
  {
    hide Words, Listed;
  }

  /** A reply buffer of up to 65541 bytes keeps the list within the limit. */
  lemma ListFitsBuffer(t: Table, cap: nat)
    requires FRAME_LEN <= cap <= 65541
    ensures ListedCount(t, cap) <= LIST_LIMIT
  {
  }

  function Consecutive(n: nat): Table
    requires n < 0xFFFF
  {
    seq(n, (i: int) requires 0 <= i < n => Object(i, 0, 0, 1, []))
  }

  lemma {:induction false} ConsecutiveCount(n: nat, i: nat, prev: u16)
    requires i <= n < 0xFFFF && (prev == 0xFFFF || prev < i)
    ensures |Distinct(Consecutive(n)[i..], prev)| == n - i
    decreases n - i
  {
    if i < n {
      assert Consecutive(n)[i..][1..] == Consecutive(n)[i + 1..];
      ConsecutiveCount(n, i + 1, i);
    }
  }

  /** A table of 40000 objects and a buffer of 100000 bytes: the lengths do not match. */
  lemma ListTooLong(req: seq<u8>)
    requires IsListRequest(req)
    ensures Sorted(Consecutive(40000)) && ListedCount(Consecutive(40000), 100000) == 40000
    ensures |Info(Consecutive(40000), req, 100000)| != 14 + 2 * 40000
  {
    ConsecutiveCount(40000, 0, 0xFFFF);
    assert Consecutive(40000)[0..] == Consecutive(40000);
    ListReplyLength(Consecutive(40000), req, 100000);
    ListReplyParts(Consecutive(40000), req, 100000);
  }
}
