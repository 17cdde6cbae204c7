/** Laws of whole runs of the slave: PDUs are folds of datagrams, the last writer of a byte wins,
    and the AL state machine is safe. */
module SlaveRuns {
  import opened Bytes
  import opened Esc
  import opened Frame
  import opened Slave
  import FrameLaws
  import Al
  import Mailbox
  import SyncManager

  /** The mirror after a run of datagrams. */
  function Run(pos: u16, m: Mem, ds: seq<Dgram>): Mem
    decreases |ds|
  {
    if ds == [] then m else Run(pos, StepMem(pos, m, ds[0]), ds[1..])
  }

  lemma {:induction false} RunAppend(pos: u16, m: Mem, a: seq<Dgram>, b: seq<Dgram>)
    ensures Run(pos, m, a + b) == Run(pos, Run(pos, m, a), b)
    decreases |a|
  {
    if a == [] {
      assert a + b == b;
    } else {
      assert (a + b)[1..] == a[1..] + b;
      RunAppend(pos, StepMem(pos, m, a[0]), a[1..], b);
    }
  }

  /** The run goes on with the step of the next datagram. */
  lemma RunNext(pos: u16, m: Mem, ds: seq<Dgram>, k: nat)
    requires k < |ds|
    ensures Run(pos, m, ds[..k + 1]) == StepMem(pos, Run(pos, m, ds[..k]), ds[k])
  {
    assert ds[..k + 1] == ds[..k] + [ds[k]];
    RunAppend(pos, m, ds[..k], [ds[k]]);
    assert [ds[k]][1..] == [];
  }

  /** How many datagrams of a PDU are carried out with `room` bytes for the answers. */
  function Executed(ds: seq<Dgram>, room: nat): (n: nat)
    ensures n <= |ds|
    decreases |ds|
  {
    if ds == [] || |ds[0].data| > DG_DATA_MAX then 0
    else if WireSize(|ds[0].data|) > room then 1
    else 1 + Executed(ds[1..], room - WireSize(|ds[0].data|))
  }

  predicate AllShort(ds: seq<Dgram>) {
    forall k :: 0 <= k < |ds| ==> |ds[k].data| <= DG_DATA_MAX
  }

  /** Also a PDU that fails midway leaves exactly the effects of the datagrams carried out. */
  lemma {:induction false} PduIsRun(pos: u16, m: Mem, ds: seq<Dgram>, room: nat)
    ensures RunPdu(pos, m, ds, room).mem == Run(pos, m, ds[..Executed(ds, room)])
    decreases |ds|
  {
    var n := Executed(ds, room);
    if n > 0 {
      assert ds[..n][0] == ds[0] && ds[..n][1..] == ds[1..][..n - 1];
      if WireSize(|ds[0].data|) <= room {
        PduIsRun(pos, StepMem(pos, m, ds[0]), ds[1..], room - WireSize(|ds[0].data|));
      }
    }
  }

  /** With room for the answers, the first over-long datagram is where the run stops. */
  lemma {:induction false} StopsAtOverlong(ds: seq<Dgram>, room: nat)
    requires |EncodeAll(ds)| <= room
    ensures AllShort(ds[..Executed(ds, room)])
    ensures Executed(ds, room) < |ds| ==> |ds[Executed(ds, room)].data| > DG_DATA_MAX
    decreases |ds|
  {
    if ds != [] && |ds[0].data| <= DG_DATA_MAX {
      StopsAtOverlong(ds[1..], room - WireSize(|ds[0].data|));
      var n := Executed(ds, room);
      assert ds[..n] == [ds[0]] + ds[1..][..n - 1];
    }
  }

  lemma {:induction false} SuccessCondition(pos: u16, m: Mem, ds: seq<Dgram>, room: nat)
    ensures RunPdu(pos, m, ds, room).replies.Some? <==> AllShort(ds) && |EncodeAll(ds)| <= room
    decreases |ds|
  {
    if ds != [] {
      if |ds[0].data| <= DG_DATA_MAX && WireSize(|ds[0].data|) <= room {
        SuccessCondition(pos, StepMem(pos, m, ds[0]), ds[1..], room - WireSize(|ds[0].data|));
      }
      assert AllShort(ds) <==> |ds[0].data| <= DG_DATA_MAX && AllShort(ds[1..]) by {
        assert ds == [ds[0]] + ds[1..];
      }
    }
  }

  /** A PDU succeeds exactly when it is well formed, has no over-long datagram and its answer fits. */
  lemma PduSucceedsIff(pos: u16, m: Mem, pdu: seq<u8>, room: nat)
    ensures ProcessPdu(pos, m, pdu, room).replies.Some?
            <==> Split(pdu).Some? && AllShort(Split(pdu).value) && |pdu| <= room
  {
    if Split(pdu).Some? {
      SuccessCondition(pos, m, Split(pdu).value, room);
      FrameLaws.EncodeOfSplit(pdu);
    }
  }

  /** Answer k is the answer to datagram k in the mirror left by the datagrams before it. */
  lemma {:induction false} ReplyInOrder(pos: u16, m: Mem, ds: seq<Dgram>, room: nat, k: nat)
    requires RunPdu(pos, m, ds, room).replies.Some? && k < |ds|
    ensures |RunPdu(pos, m, ds, room).replies.value| == |ds|
    ensures RunPdu(pos, m, ds, room).replies.value[k] == StepReply(pos, Run(pos, m, ds[..k]), ds[k])
    decreases |ds|
  {
    RepliesFit(pos, m, ds, room);
    if k > 0 {
      assert ds[..k][0] == ds[0] && ds[..k][1..] == ds[1..][..k - 1];
      ReplyInOrder(pos, StepMem(pos, m, ds[0]), ds[1..], room - WireSize(|ds[0].data|), k - 1);
    }
  }

  /** The answering PDU has the length of the request, and every datagram keeps its header. */
  lemma PduReplyShape(pos: u16, m: Mem, pdu: seq<u8>, room: nat, k: nat)
    requires ProcessPdu(pos, m, pdu, room).replies.Some? && k < |Split(pdu).value|
    ensures var replies, d := ProcessPdu(pos, m, pdu, room).replies.value, Split(pdu).value[k];
            && |replies| == |Split(pdu).value| && |EncodeAll(replies)| == |pdu|
            && replies[k] == d.(data := replies[k].data, wkc := replies[k].wkc)
            && |replies[k].data| == |d.data| && replies[k].wkc <= 1
  {
    var ds := Split(pdu).value;
    RepliesFit(pos, m, ds, room);
    FrameLaws.EncodeOfSplit(pdu);
    ReplyInOrder(pos, m, ds, room, k);
    assert ProcessPdu(pos, m, pdu, room).replies.value[k] == StepReply(pos, Run(pos, m, ds[..k]), ds[k]);
  }

  lemma {:induction false} RunPduAppend(pos: u16, m: Mem, a: seq<Dgram>, b: seq<Dgram>, room: nat)
    requires RunPdu(pos, m, a, room).replies.Some?
    ensures |EncodeAll(a)| <= room
    ensures var first := RunPdu(pos, m, a, room);
            var second := RunPdu(pos, first.mem, b, room - |EncodeAll(a)|);
            RunPdu(pos, m, a + b, room) == PduRun(second.mem, Prepend(first.replies.value, second.replies))
    decreases |a|
  {
    RepliesFit(pos, m, a, room);
    if a == [] {
      assert a + b == b;
      PrependNone(RunPdu(pos, m, b, room).replies);
    } else {
      var m', size, reply := StepMem(pos, m, a[0]), WireSize(|a[0].data|), StepReply(pos, m, a[0]);
      RunPduAppend(pos, m', a[1..], b, room - size);
      RunPduNext(pos, m, a, [], room);
      RunPduNext(pos, m, a, b, room);
      var rest := RunPdu(pos, m', a[1..], room - size);
      assert a[1..] + [] == a[1..] && a + [] == a;
      FrameLaws.PrependTwice([reply], rest.replies.value, RunPdu(pos, rest.mem, b, room - |EncodeAll(a)|).replies);
    }
  }

  lemma RunPduNext(pos: u16, m: Mem, a: seq<Dgram>, b: seq<Dgram>, room: nat)
    requires a != [] && |a[0].data| <= DG_DATA_MAX && WireSize(|a[0].data|) <= room
    ensures var rest := RunPdu(pos, StepMem(pos, m, a[0]), a[1..] + b, room - WireSize(|a[0].data|));
            RunPdu(pos, m, a + b, room) == PduRun(rest.mem, Prepend([StepReply(pos, m, a[0])], rest.replies))
  {
    assert (a + b)[0] == a[0] && (a + b)[1..] == a[1..] + b;
  }

  lemma {:induction false} RunPduStopped(pos: u16, m: Mem, a: seq<Dgram>, b: seq<Dgram>, room: nat)
    requires RunPdu(pos, m, a, room).replies.None?
    ensures RunPdu(pos, m, a + b, room) == RunPdu(pos, m, a, room)
    decreases |a|
  {
    assert (a + b)[0] == a[0] && (a + b)[1..] == a[1..] + b;
    if |a[0].data| <= DG_DATA_MAX && WireSize(|a[0].data|) <= room {
      RunPduStopped(pos, StepMem(pos, m, a[0]), a[1..], b, room - WireSize(|a[0].data|));
    }
  }

  /** Processing a concatenation is processing the first part and then, if it did not stop, the second. */
  lemma PduConcatenation(pos: u16, m: Mem, a: seq<u8>, b: seq<u8>, room: nat)
    requires Split(a).Some? && Split(b).Some?
    ensures var first := ProcessPdu(pos, m, a, room);
            if first.replies.None? then ProcessPdu(pos, m, a + b, room) == first
            else
              && |a| <= room
              && var second := ProcessPdu(pos, first.mem, b, room - |a|);
                 ProcessPdu(pos, m, a + b, room) == PduRun(second.mem, Prepend(first.replies.value, second.replies))
  {
    FrameLaws.SplitAppend(a, b);
    FrameLaws.EncodeOfSplit(a);
    var da, db := Split(a).value, Split(b).value;
    if RunPdu(pos, m, da, room).replies.None? {
      RunPduStopped(pos, m, da, db, room);
    } else {
      RunPduAppend(pos, m, da, db, room);
    }
  }

  /** One received PDU and the room for its answer. */
  datatype ReceivedPdu = ReceivedPdu(pdu: seq<u8>, room: nat)

  function AfterPdus(pos: u16, m: Mem, rs: seq<ReceivedPdu>): Mem
    decreases |rs|
  {
    if rs == [] then m else AfterPdus(pos, ProcessPdu(pos, m, rs[0].pdu, rs[0].room).mem, rs[1..])
  }

  function PduCarriedOut(r: ReceivedPdu): seq<Dgram> {
    match Split(r.pdu)
    case None => []
    case Some(ds) => ds[..Executed(ds, r.room)]
  }

  function AllCarriedOut(rs: seq<ReceivedPdu>): seq<Dgram> {
    if rs == [] then [] else PduCarriedOut(rs[0]) + AllCarriedOut(rs[1..])
  }

  /** Every run of PDUs, failing ones included, is one run of the datagrams carried out. */
  lemma {:induction false} PdusAreOneRun(pos: u16, m: Mem, rs: seq<ReceivedPdu>)
    ensures AfterPdus(pos, m, rs) == Run(pos, m, AllCarriedOut(rs))
    decreases |rs|
  {
    if rs != [] {
      if Split(rs[0].pdu).Some? {
        PduIsRun(pos, m, Split(rs[0].pdu).value, rs[0].room);
      }
      RunAppend(pos, m, PduCarriedOut(rs[0]), AllCarriedOut(rs[1..]));
      PdusAreOneRun(pos, ProcessPdu(pos, m, rs[0].pdu, rs[0].room).mem, rs[1..]);
    }
  }

  /** The bytes the slave itself changes: AL status and code, and the status bytes of SM0 and SM1. */
  predicate SlaveOwned(a: nat) {
    a == ALSTAT || a == ALSTAT + 1 || a == ALSTACODE || a == ALSTACODE + 1
    || a == SyncManager.StatusAddr(0) || a == SyncManager.StatusAddr(1)
  }

  predicate WritesByte(pos: u16, m: Mem, d: Dgram, a: nat) {
    IsWrite(d) && StepReply(pos, m, d).wkc == 1 && Covers(d.ado, |d.data|, a)
  }

  /** The byte last written to address `a` by a write datagram answered with working counter 1. */
  function LastWritten(pos: u16, m: Mem, ds: seq<Dgram>, a: nat): Option<u8>
    requires a < SIZE
    decreases |ds|
  {
    if ds == [] then None
    else
      var k := |ds| - 1;
      if WritesByte(pos, Run(pos, m, ds[..k]), ds[k], a) then Some(ds[k].data[a - ds[k].ado])
      else LastWritten(pos, m, ds[..k], a)
  }

  lemma StepByte(pos: u16, m: Mem, d: Dgram, a: nat)
    requires a < SIZE && !SlaveOwned(a)
    ensures StepMem(pos, m, d)[a] == if WritesByte(pos, m, d, a) then d.data[a - d.ado] else m[a]
  {
    if Performed(pos, m, d) && IsWrite(d) {
      var written := Splice(m, d.ado, d.data);
      assert AfterWrite(m, d)[a] == written[a];
    }
  }

  /** Last writer wins: every byte the slave does not own itself holds what was last written there. */
  lemma {:induction false} LastWriterWins(pos: u16, m: Mem, ds: seq<Dgram>, a: nat)
    requires a < SIZE && !SlaveOwned(a)
    ensures Run(pos, m, ds)[a] == match LastWritten(pos, m, ds, a) case Some(v) => v case None => m[a]
    decreases |ds|
  {
    if ds != [] {
      var k := |ds| - 1;
      assert ds[..k + 1] == ds;
      RunNext(pos, m, ds, k);
      StepByte(pos, Run(pos, m, ds[..k]), ds[k], a);
      LastWriterWins(pos, m, ds[..k], a);
    }
  }

  /** Every answered read returns the bytes last written, also by datagrams earlier in the same PDU. */
  lemma ReadsSeeLastWrites(pos: u16, m: Mem, ds: seq<Dgram>, room: nat, k: nat, a: nat)
    requires RunPdu(pos, m, ds, room).replies.Some? && k < |ds| && !SlaveOwned(a) && a < SIZE
    ensures |RunPdu(pos, m, ds, room).replies.value| == |ds|
    ensures var reply := RunPdu(pos, m, ds, room).replies.value[k];
            reply.cmd == CMD_FPRD && reply.wkc == 1 && Covers(reply.ado, |reply.data|, a) ==>
              reply.data[a - reply.ado]
              == match LastWritten(pos, m, ds[..k], a) case Some(v) => v case None => m[a]
  {
    ReplyInOrder(pos, m, ds, room, k);
    LastWriterWins(pos, m, ds[..k], a);
  }

  /** The AL state in the status register. */
  function AlState(m: Mem): nat {
    Al.State(ReadU16(m, ALSTAT))
  }

  predicate AlError(m: Mem) {
    Al.ErrorIndicated(ReadU16(m, ALSTAT))
  }

  /** A proper state, no stray status bits, and the error bit set exactly when there is an error code. */
  predicate WellFormedWords(status: u16, code: u16) {
    && Al.State(status) in {Al.INIT, Al.PREOP, Al.SAFEOP, Al.OP}
    && status == Al.State(status) + (if Al.ErrorIndicated(status) then Al.STAT_ERR else 0)
    && (Al.ErrorIndicated(status) <==> code != Al.ERR_NONE)
  }

  predicate AlWellFormed(m: Mem) {
    WellFormedWords(ReadU16(m, ALSTAT), ReadU16(m, ALSTACODE))
  }

  /** A write leaves the AL status and code registers alone. */
  predicate SparesAlStatus(d: Dgram) {
    IsWrite(d) ==> d.ado + |d.data| <= ALSTAT || ALSTACODE + 2 <= d.ado
  }

  predicate AllSpareAlStatus(ds: seq<Dgram>) {
    forall k :: 0 <= k < |ds| ==> SparesAlStatus(ds[k])
  }

  /** A step of the transition table; entering PREOP from INIT needs a valid mailbox pair. */
  predicate AlEdge(from: nat, to: nat, pairValid: bool) {
    Al.ValidTransition(from, to) && to != Al.BOOT && (from == Al.INIT && to == Al.PREOP ==> pairValid)
  }

  /** The datagram writes a control word that acknowledges the current state. */
  predicate Acknowledges(pos: u16, m: Mem, d: Dgram) {
    && IsWrite(d) && Performed(pos, m, d) && Covers(d.ado, |d.data|, ALCTL)
    && var control := ReadU16(Splice(m, d.ado, d.data), ALCTL);
       Bit4(control) && Al.State(control) == AlState(m)
  }

  /** The AL part of a mirror: its status and code words. */
  predicate SameAl(m: Mem, n: Mem) {
    ReadU16(m, ALSTAT) == ReadU16(n, ALSTAT) && ReadU16(m, ALSTACODE) == ReadU16(n, ALSTACODE)
  }

  lemma DecisionStep(control: u16, status: u16, code: u16, pairValid: bool)
    requires WellFormedWords(status, code)
    ensures var d := Al.Decide(control, Al.State(status), pairValid);
            d.Set? ==>
              && WellFormedWords(Al.StatusWord(d), d.code)
              && Al.State(Al.StatusWord(d)) == d.state
              && (d.state == Al.State(status) || AlEdge(Al.State(status), d.state, pairValid))
              && (d.code == Al.ERR_NONE <==>
                    d.state != Al.State(status) || (Bit4(control) && Al.State(control) == Al.State(status)))
    ensures Bit4(control) && Al.State(control) == Al.State(status) ==>
              Al.Decide(control, Al.State(status), pairValid).Set?
  {
    var d := Al.Decide(control, Al.State(status), pairValid);
    if d.Set? {
      assert d.state in {Al.INIT, Al.PREOP, Al.SAFEOP, Al.OP};
      assert Al.StatusWord(d) == d.state + if d.code != Al.ERR_NONE then Al.STAT_ERR else 0;
    }
  }

  /** The registers after the AL machine has looked at a control word. */
  lemma ControlWords(m: Mem)
    ensures var n := Al.OnControl(m);
            var d := Al.Decide(ReadU16(m, ALCTL), AlState(m), SyncManager.ValidPair(m));
            && SyncManager.ValidPair(n) == SyncManager.ValidPair(m)
            && (if d.Keep? then n == m
                else ReadU16(n, ALSTAT) == Al.StatusWord(d) && ReadU16(n, ALSTACODE) == d.code)
  {
    hide Al.Decide, SyncManager.ValidPair;
    Al.ControlFrame(m);
    SamePair(m, Al.OnControl(m));
  }

  lemma SamePair(m: Mem, n: Mem)
    requires forall a :: SM0 <= a < SM0 + 16 && a != SyncManager.StatusAddr(0) && a != SyncManager.StatusAddr(1) ==>
               n[a] == m[a]
    ensures SyncManager.ValidPair(n) == SyncManager.ValidPair(m)
  {
  }

  /** One datagram keeps the AL registers well formed, moves along the table or stays, and clears an
      indicated error exactly by an accepted transition or a matching acknowledge. */
  lemma AlStep(pos: u16, m: Mem, d: Dgram)
    requires AlWellFormed(m) && SparesAlStatus(d)
    ensures var n := StepMem(pos, m, d);
            && AlWellFormed(n)
            && (AlState(n) == AlState(m) || AlEdge(AlState(m), AlState(n), SyncManager.ValidPair(n)))
            && (AlError(m) ==> (!AlError(n) <==> AlState(n) != AlState(m) || Acknowledges(pos, m, d)))
  {
    hide Al.OnControl, Al.Decide, SyncManager.ValidPair, Al.StatusWord, AlEdge, Splice, ReadU16;
    if Performed(pos, m, d) && IsWrite(d) {
      var written, after := Splice(m, d.ado, d.data), AfterWrite(m, d);
      SpareWrite(m, d);
      if Covers(d.ado, |d.data|, ALCTL) {
        ControlWords(written);
        var pair := SyncManager.ValidPair(written);
        DecisionStep(ReadU16(written, ALCTL), ReadU16(m, ALSTAT), ReadU16(m, ALSTACODE), pair);
      }
      HandshakeKeepsAl(after, d.ado, |d.data|);
    } else {
      HandshakeKeepsAl(m, d.ado, |d.data|);
    }
  }

  lemma HandshakeKeepsAl(m: Mem, ado: u16, len: nat)
    ensures SameAl(m, Mailbox.OnSm0Write(m, ado, len)) && SameAl(m, Mailbox.OnSm1Read(m, ado, len))
    ensures SyncManager.ValidPair(Mailbox.OnSm0Write(m, ado, len)) == SyncManager.ValidPair(m)
  {
    hide Mailbox.OnSm0Write, Mailbox.OnSm1Read;
    Mailbox.HandshakeFrame(m, ado, len);
    SamePair(m, Mailbox.OnSm0Write(m, ado, len));
  }

  lemma SpareWrite(m: Mem, d: Dgram)
    requires IsWrite(d) && SparesAlStatus(d) && InRange(d.ado, |d.data|)
    ensures SameAl(m, Splice(m, d.ado, d.data))
  {
  }

  lemma {:induction false} AlStaysWellFormed(pos: u16, m: Mem, ds: seq<Dgram>)
    requires AlWellFormed(m) && AllSpareAlStatus(ds)
    ensures AlWellFormed(Run(pos, m, ds))
    decreases |ds|
  {
    if ds != [] {
      AlStep(pos, m, ds[0]);
      AlStaysWellFormed(pos, StepMem(pos, m, ds[0]), ds[1..]);
    }
  }

  /** Safety of every run: the registers stay well formed and the states follow the transition table. */
  lemma AlRunSafe(pos: u16, m: Mem, ds: seq<Dgram>, k: nat)
    requires AlWellFormed(m) && AllSpareAlStatus(ds) && k < |ds|
    ensures var before := Run(pos, m, ds[..k]);
            var after := StepMem(pos, before, ds[k]);
            && AlWellFormed(before) && AlWellFormed(after)
            && (AlState(after) == AlState(before)
                || AlEdge(AlState(before), AlState(after), SyncManager.ValidPair(after)))
            && (AlError(before) && !AlError(after) ==>
                  AlState(after) != AlState(before) || Acknowledges(pos, before, ds[k]))
  {
    AlStaysWellFormed(pos, m, ds[..k]);
    AlStep(pos, Run(pos, m, ds[..k]), ds[k]);
  }

  function StateAfter(pos: u16, m: Mem, ds: seq<Dgram>, k: nat): nat
    requires k <= |ds|
  {
    AlState(Run(pos, m, ds[..k]))
  }

  /** Datagram e is the last step from INIT to PREOP, taken with a valid mailbox pair. */
  predicate LastEntry(pos: u16, m: Mem, ds: seq<Dgram>, e: nat) {
    && e < |ds|
    && StateAfter(pos, m, ds, e) == Al.INIT && StateAfter(pos, m, ds, e + 1) == Al.PREOP
    && SyncManager.ValidPair(Run(pos, m, ds[..e + 1]))
    && forall j :: e < j <= |ds| ==> StateAfter(pos, m, ds, j) != Al.INIT
  }

  /** Every state beyond INIT was entered through PREOP with a valid mailbox pair, and OP through SAFEOP. */
  lemma {:induction false} AlHistory(pos: u16, m: Mem, ds: seq<Dgram>) returns (e: nat, s: nat)
    requires AlWellFormed(m) && AlState(m) == Al.INIT && AllSpareAlStatus(ds)
    requires AlState(Run(pos, m, ds)) != Al.INIT
    ensures LastEntry(pos, m, ds, e)
    ensures AlState(Run(pos, m, ds)) != Al.PREOP ==> e + 1 < s <= |ds| && StateAfter(pos, m, ds, s) == Al.SAFEOP
    ensures AlState(Run(pos, m, ds)) == Al.OP ==> s < |ds|
    decreases |ds|
  {
    assert ds != [];
    hide StepMem, SyncManager.ValidPair, AlState, AlError, AlWellFormed, Run, Acknowledges, LastEntry, StateAfter,
         SparesAlStatus;
    var k := |ds| - 1;
    var prefix := ds[..k];
    var before, after := AlState(Run(pos, m, prefix)), AlState(Run(pos, m, ds));
    var pair := SyncManager.ValidPair(Run(pos, m, ds));
    assert before in {Al.INIT, Al.PREOP, Al.SAFEOP, Al.OP} && (after == before || AlEdge(before, after, pair)) by {
      AlRunSafe(pos, m, ds, k);
      RunNext(pos, m, ds, k);
      assert ds[..k + 1] == ds;
      OneOfFour(Run(pos, m, prefix));
    }
    StatesOfPrefix(pos, m, ds, k);
    if before == Al.INIT {
      e, s := k, k + 1;
      EntryHere(pos, m, ds);
    } else {
      e, s := AlHistory(pos, m, prefix);
      ExtendEntry(pos, m, ds, e);
      if after == Al.SAFEOP {
        s := k + 1;
      } else if before == Al.SAFEOP {
        s := k;
      } else if after == Al.OP {
        StatesOfPrefix(pos, m, ds, s);
      }
    }
  }

  lemma StatesOfPrefix(pos: u16, m: Mem, ds: seq<Dgram>, j: nat)
    requires j < |ds|
    ensures StateAfter(pos, m, ds, j) == StateAfter(pos, m, ds[..|ds| - 1], j)
    ensures StateAfter(pos, m, ds, j) == AlState(Run(pos, m, ds[..j]))
    ensures StateAfter(pos, m, ds, |ds|) == AlState(Run(pos, m, ds))
  {
    hide Run, AlState;
    assert ds[..|ds| - 1][..j] == ds[..j] && ds[..|ds|] == ds;
  }

  lemma EntryHere(pos: u16, m: Mem, ds: seq<Dgram>)
    requires ds != [] && AlState(Run(pos, m, ds[..|ds| - 1])) == Al.INIT && AlState(Run(pos, m, ds)) == Al.PREOP
    requires SyncManager.ValidPair(Run(pos, m, ds))
    ensures LastEntry(pos, m, ds, |ds| - 1)
  {
    hide Run, AlState, SyncManager.ValidPair;
    assert ds[..|ds|] == ds;
  }

  lemma OneOfFour(m: Mem)
    requires AlWellFormed(m)
    ensures AlState(m) in {Al.INIT, Al.PREOP, Al.SAFEOP, Al.OP}
  {
  }

  lemma ExtendEntry(pos: u16, m: Mem, ds: seq<Dgram>, e: nat)
    requires ds != [] && LastEntry(pos, m, ds[..|ds| - 1], e) && AlState(Run(pos, m, ds)) != Al.INIT
    ensures LastEntry(pos, m, ds, e) && e < |ds| - 1
  {
    hide Run, AlState, SyncManager.ValidPair;
    var prefix := ds[..|ds| - 1];
    forall j | 0 <= j <= |prefix|
      ensures StateAfter(pos, m, ds, j) == StateAfter(pos, m, prefix, j)
    {
      assert ds[..j] == prefix[..j];
    }
    assert prefix[..e + 1] == ds[..e + 1];
    assert ds[..|ds|] == ds;
  }

  /** The mirror after initialisation satisfies the premise of the run theorems. */
  lemma InitialIsWellFormed(id: Identity)
    ensures AlWellFormed(Initial(id)) && AlState(Initial(id)) == Al.INIT && !AlError(Initial(id))
  {
    InitialAlWords(ApplyIdentity(Zeros(SIZE), id));
  }

  lemma InitialAlWords(m: Mem)
    ensures var n := Splice(Splice(m, ALSTAT, [1, 0]), ALSTACODE, [0, 0]);
            ReadU16(n, ALSTAT) == 1 && ReadU16(n, ALSTACODE) == 0
  {
  }
}
