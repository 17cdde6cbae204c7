/** The laws of datagram runs carry over to the controller: its replies go into SM1's buffer and nowhere else. */
module ControllerLaws {
  import opened Bytes
  import opened Esc
  import opened Frame
  import opened Controller
  import opened ControllerRuns
  import Al
  import Coe
  import CoeRuns
  import Mailbox
  import SM = SyncManager
  import Slave
  import SlaveRuns

  /** The bytes that a dispatch may change: SM1's buffer and the two status bytes. */
  predicate Private(m: Mem, a: nat) {
    Config(m, 1).start <= a < Config(m, 1).End() || a == SM.StatusAddr(0) || a == SM.StatusAddr(1)
  }

  /** Two mirrors with the same good layout that differ in private bytes at most. */
  predicate Agree(m: Mem, n: Mem) {
    GoodLayout(m) && SameLayout(m, n) && forall a :: 0 <= a < SIZE && !Private(m, a) ==> n[a] == m[a]
  }

  /** The registers that steer a datagram are not private. */
  lemma SameControl(m: Mem, n: Mem)
    requires Agree(m, n)
    ensures ReadU16(n, STADR) == ReadU16(m, STADR) && ReadU16(n, ALCTL) == ReadU16(m, ALCTL)
    ensures SlaveRuns.SameAl(m, n) && SM.ValidPair(n) == SM.ValidPair(m)
  {
    hide Private;
    Outside(m);
    SlaveRuns.SamePair(m, n);
  }

  lemma Outside(m: Mem)
    requires GoodLayout(m)
    ensures forall a :: a in {STADR, STADR + 1, ALCTL, ALCTL + 1, ALSTAT, ALSTAT + 1, ALSTACODE, ALSTACODE + 1} ==>
              !Private(m, a)
    ensures forall a :: SM0 <= a < SM0 + 16 && a != SM.StatusAddr(0) && a != SM.StatusAddr(1) ==> !Private(m, a)
  {
  }

  lemma SpliceAgrees(m: Mem, n: Mem, ado: nat, data: seq<u8>)
    requires Agree(m, n) && ado + |data| <= SIZE && (ado + |data| <= SM0 || SM0 + 16 <= ado)
    ensures Agree(Splice(m, ado, data), Splice(n, ado, data))
  {
    hide Splice, GoodBuffer, Private;
    var w, v := Splice(m, ado, data), Splice(n, ado, data);
    RegistersKept(m, w);
    RegistersKept(n, v);
    SamePrivate(m, w);
  }

  lemma SamePrivate(m: Mem, n: Mem)
    requires SameLayout(m, n)
    ensures forall a: nat :: Private(n, a) == Private(m, a)
  {
  }

  /** The AL machine decides alike in both. */
  lemma ControlAgrees(m: Mem, n: Mem)
    requires Agree(m, n)
    ensures Agree(Al.OnControl(m), Al.OnControl(n))
  {
    hide GoodBuffer, Private, Al.OnControl, Al.Decide, ReadU16, SM.ValidPair, Al.StatusWord;
    SameControl(m, n);
    Al.ControlFrame(m);
    Al.ControlFrame(n);
    RegistersKept(m, Al.OnControl(m));
    RegistersKept(n, Al.OnControl(n));
    SamePrivate(m, Al.OnControl(m));
    Outside(m);
    StatusBytesAgree(m, n);
  }

  lemma StatusBytesAgree(m: Mem, n: Mem)
    requires SlaveRuns.SameAl(m, n) && ReadU16(n, ALCTL) == ReadU16(m, ALCTL) && SM.ValidPair(n) == SM.ValidPair(m)
    ensures forall a :: a in {ALSTAT, ALSTAT + 1, ALSTACODE, ALSTACODE + 1} ==> Al.OnControl(n)[a] == Al.OnControl(m)[a]
  {
    hide Al.Decide, Al.StatusWord, SM.ValidPair, ReadU16, Al.OnControl, Al.State;
    SlaveRuns.ControlWords(m);
    SlaveRuns.ControlWords(n);
    WordBytes(Al.OnControl(m), Al.OnControl(n), ALSTAT);
    WordBytes(Al.OnControl(m), Al.OnControl(n), ALSTACODE);
  }

  lemma WordBytes(m: Mem, n: Mem, reg: nat)
    requires reg + 2 <= SIZE && ReadU16(n, reg) == ReadU16(m, reg)
    ensures n[reg] == m[reg] && n[reg + 1] == m[reg + 1]
  {
    Le16OfU16(m[reg], m[reg + 1]);
    Le16OfU16(n[reg], n[reg + 1]);
    assert [m[reg], m[reg + 1]] == [n[reg], n[reg + 1]];
  }

  /** Bytes outside the private ones change alike; the handshake touches private ones only. */
  lemma HandshakeAgrees(m: Mem, n: Mem, ado: u16, len: nat)
    requires Agree(m, n)
    ensures Agree(Mailbox.OnSm0Write(m, ado, len), Mailbox.OnSm0Write(n, ado, len))
    ensures Agree(Mailbox.OnSm1Read(m, ado, len), Mailbox.OnSm1Read(n, ado, len))
  {
    Mailbox.HandshakeFrame(m, ado, len);
    Mailbox.HandshakeFrame(n, ado, len);
    PrivateOnly(m, n, Mailbox.OnSm0Write(m, ado, len), Mailbox.OnSm0Write(n, ado, len));
    PrivateOnly(m, n, Mailbox.OnSm1Read(m, ado, len), Mailbox.OnSm1Read(n, ado, len));
  }

  lemma PrivateOnly(m: Mem, n: Mem, m': Mem, n': Mem)
    requires Agree(m, n)
    requires forall a :: 0 <= a < SIZE && a != SM.StatusAddr(0) && a != SM.StatusAddr(1) ==>
               m'[a] == m[a] && n'[a] == n[a]
    ensures Agree(m', n')
  {
    hide GoodBuffer;
    StatusOnly(m, m');
    SamePrivate(m, m');
    SameLayoutOf(n, n');
  }

  lemma SameLayoutOf(m: Mem, n: Mem)
    requires forall a :: 0 <= a < SIZE && a != SM.StatusAddr(0) && a != SM.StatusAddr(1) ==> n[a] == m[a]
    ensures SameLayout(m, n)
  {
  }

  /** One datagram keeps two mirrors in agreement. */
  lemma AgreeStep(pos: u16, m: Mem, n: Mem, d: Dgram)
    requires Agree(m, n) && KeepsLayout(d)
    ensures Agree(Slave.StepMem(pos, m, d), Slave.StepMem(pos, n, d))
  {
    hide Agree, ReadU16, Mailbox.OnSm0Write, Mailbox.OnSm1Read, Al.OnControl, Splice;
    SameControl(m, n);
    if Slave.Performed(pos, m, d) {
      HandshakeAgrees(m, n, d.ado, |d.data|);
      if Slave.IsWrite(d) {
        SpliceAgrees(m, n, d.ado, d.data);
        ControlAgrees(Splice(m, d.ado, d.data), Splice(n, d.ado, d.data));
        HandshakeAgrees(Slave.AfterWrite(m, d), Slave.AfterWrite(n, d), d.ado, |d.data|);
      }
    }
  }

  lemma {:induction false} AgreeRun(pos: u16, m: Mem, n: Mem, ds: seq<Dgram>)
    requires Agree(m, n) && AllKeepLayout(ds)
    ensures Agree(SlaveRuns.Run(pos, m, ds), SlaveRuns.Run(pos, n, ds))
    decreases |ds|
  {
    hide Agree, Slave.StepMem, KeepsLayout;
    if ds != [] {
      AgreeStep(pos, m, n, ds[0]);
      AgreeRun(pos, Slave.StepMem(pos, m, ds[0]), Slave.StepMem(pos, n, ds[0]), ds[1..]);
    }
  }

  /** A dispatch changes private bytes only. */
  lemma DispatchAgrees(m: Mem, n: Node)
    requires ValidNode(n) && Agree(m, n.mem)
    ensures Agree(m, Dispatch(n).mem)
  {
    hide Coe.Process, Coe.ValidState, Mailbox.WriteSm1, SM.ClearFull, GoodBuffer, Request, RequestReady;
    if RequestReady(n.mem) {
      var reply := Coe.Process(n.coe, Request(n.mem), REPLY_CAP).reply;
      GoodToo(m, n.mem);
      ReplyPrivate(n.mem, reply);
      SamePrivate(m, n.mem);
    }
  }

  lemma GoodToo(m: Mem, n: Mem)
    requires Agree(m, n)
    ensures GoodLayout(n)
  {
  }

  lemma ReplyPrivate(m: Mem, reply: seq<u8>)
    requires GoodLayout(m)
    ensures var n := SM.ClearFull(Mailbox.WriteSm1(m, reply), 0);
            SameLayout(m, n) && forall a :: 0 <= a < SIZE && !Private(m, a) ==> n[a] == m[a]
  {
    hide GoodLayout, Content;
    ReplyMaybeWritten(m, reply);
    Emptied(Mailbox.WriteSm1(m, reply));
    if Mailbox.AcceptsReply(m, |reply|) {
      ReplyWritten(m, reply);
    }
  }

  /** The datagrams that a run of frames carries out. */
  function AllFrames(fs: seq<ReceivedFrame>): seq<Dgram> {
    if fs == [] then [] else CarriedOut(fs[0].rx) + AllFrames(fs[1..])
  }

  /** Every run of frames through the controller, with all its replies, leaves what the run of their datagrams leaves,
      outside SM1's buffer and the two status bytes. */
  lemma {:induction false} ControllerIsRun(pos: u16, mac: seq<u8>, m: Mem, n: Node, fs: seq<ReceivedFrame>)
    requires |mac| == 6 && ValidNode(n) && Agree(m, n.mem)
    requires forall k :: 0 <= k < |fs| ==> AllKeepLayout(CarriedOut(fs[k].rx))
    ensures Agree(SlaveRuns.Run(pos, m, AllFrames(fs)), RunFrames(pos, mac, n, fs).mem)
    decreases |fs|
  {
    hide Agree, AllKeepLayout, CarriedOut, Dispatch, Slave.ProcessEthernet;
    if fs != [] {
      var ds := CarriedOut(fs[0].rx);
      var run := Slave.ProcessEthernet(pos, mac, n.mem, fs[0].rx, fs[0].txCap);
      FrameIsRun(pos, mac, n.mem, fs[0].rx, fs[0].txCap);
      AgreeRun(pos, m, n.mem, ds);
      DispatchAgrees(SlaveRuns.Run(pos, m, ds), Node(run.mem, n.coe));
      SlaveRuns.RunAppend(pos, m, ds, AllFrames(fs[1..]));
      var next := ProcessEthernet(pos, mac, n, fs[0].rx, fs[0].txCap).node;
      ControllerIsRun(pos, mac, SlaveRuns.Run(pos, m, ds), next, fs[1..]);
    }
  }

  lemma AgreeWithItself(m: Mem)
    requires GoodLayout(m)
    ensures Agree(m, m)
  {
  }

  /** AL safety of the controller: after every run of frames that spares layout and AL status, the registers are well
      formed, and they are those of the datagram run, which follows the transition table. */
  lemma ControllerAlSafe(pos: u16, mac: seq<u8>, n: Node, fs: seq<ReceivedFrame>)
    requires |mac| == 6 && ValidNode(n) && GoodLayout(n.mem) && SlaveRuns.AlWellFormed(n.mem)
    requires forall k :: 0 <= k < |fs| ==> AllKeepLayout(CarriedOut(fs[k].rx))
    requires SlaveRuns.AllSpareAlStatus(AllFrames(fs))
    ensures var m, run := RunFrames(pos, mac, n, fs).mem, SlaveRuns.Run(pos, n.mem, AllFrames(fs));
            SlaveRuns.AlWellFormed(m) && SlaveRuns.SameAl(run, m) && SM.ValidPair(m) == SM.ValidPair(run)
  {
    hide Agree, SlaveRuns.Run, AllFrames, SM.ValidPair, GoodLayout;
    AgreeWithItself(n.mem);
    ControllerIsRun(pos, mac, n.mem, n, fs);
    SlaveRuns.AlStaysWellFormed(pos, n.mem, AllFrames(fs));
    SameControl(SlaveRuns.Run(pos, n.mem, AllFrames(fs)), RunFrames(pos, mac, n, fs).mem);
  }

  /** Last writer wins in the controller too: a byte that neither the slave owns nor SM1's buffer holds is the one last
      written by a datagram. */
  lemma ControllerLastWriter(pos: u16, mac: seq<u8>, n: Node, fs: seq<ReceivedFrame>, a: nat)
    requires |mac| == 6 && ValidNode(n) && GoodLayout(n.mem)
    requires forall k :: 0 <= k < |fs| ==> AllKeepLayout(CarriedOut(fs[k].rx))
    requires a < SIZE && !SlaveRuns.SlaveOwned(a) && !(Config(n.mem, 1).start <= a < Config(n.mem, 1).End())
    ensures RunFrames(pos, mac, n, fs).mem[a]
            == match SlaveRuns.LastWritten(pos, n.mem, AllFrames(fs), a) case Some(v) => v case None => n.mem[a]
  {
    hide SlaveRuns.Run, SlaveRuns.LastWritten, GoodBuffer;
    AgreeWithItself(n.mem);
    ControllerIsRun(pos, mac, n.mem, n, fs);
    SlaveRuns.LastWriterWins(pos, n.mem, AllFrames(fs), a);
    LayoutOfRun(pos, n.mem, fs);
    SamePrivate(n.mem, SlaveRuns.Run(pos, n.mem, AllFrames(fs)));
  }

  /** The mailbox requests that a run of frames hands to the CoE server. */
  function Requests(pos: u16, mac: seq<u8>, n: Node, fs: seq<ReceivedFrame>): seq<seq<u8>>
    requires |mac| == 6 && ValidNode(n)
    decreases |fs|
  {
    if fs == [] then []
    else
      var run := Slave.ProcessEthernet(pos, mac, n.mem, fs[0].rx, fs[0].txCap);
      (if run.tx.Some? && RequestReady(run.mem) then [Request(run.mem)] else [])
      + Requests(pos, mac, ProcessEthernet(pos, mac, n, fs[0].rx, fs[0].txCap).node, fs[1..])
  }

  /** Over every run of frames, whatever they do to the registers, the server runs through exactly these requests. */
  lemma {:induction false} ServerIsRun(pos: u16, mac: seq<u8>, n: Node, fs: seq<ReceivedFrame>)
    requires |mac| == 6 && ValidNode(n)
    ensures RunFrames(pos, mac, n, fs).coe == CoeRuns.Run(n.coe, Requests(pos, mac, n, fs), REPLY_CAP)
    decreases |fs|
  {
    hide Slave.ProcessEthernet, Coe.Process, Coe.ValidState, Request, RequestReady;
    if fs != [] {
      var run := Slave.ProcessEthernet(pos, mac, n.mem, fs[0].rx, fs[0].txCap);
      var next := ProcessEthernet(pos, mac, n, fs[0].rx, fs[0].txCap).node;
      ServerIsRun(pos, mac, next, fs[1..]);
      var rest := Requests(pos, mac, next, fs[1..]);
      if run.tx.Some? && RequestReady(run.mem) {
        Coe.ProcessKeepsValid(n.coe, Request(run.mem), REPLY_CAP);
        assert ([Request(run.mem)] + rest)[1..] == rest;
        assert Requests(pos, mac, n, fs) == [Request(run.mem)] + rest;
      } else {
        assert [] + rest == rest;
      }
    }
  }

  /** Prefix safety over Ethernet frames: with any other traffic between, the segments that the server has sent are the
      first `offset` bytes of the object while it is not written, each one extends them, and LAST marks the whole. */
  lemma FramesPrefixSafety(o: CoeRuns.Observer, pos: u16, mac: seq<u8>, n: Node, fs: seq<ReceivedFrame>, k: nat)
    requires |mac| == 6 && ValidNode(n) && CoeRuns.InStep(o, n.coe)
    ensures var requests := Requests(pos, mac, n, fs);
            && CoeRuns.InStep(CoeRuns.ObserveRun(o, n.coe, requests, REPLY_CAP), RunFrames(pos, mac, n, fs).coe)
            && (k < |requests| ==>
                  var before := CoeRuns.Run(n.coe, requests[..k], REPLY_CAP);
                  var seen := CoeRuns.ObserveRun(o, n.coe, requests[..k], REPLY_CAP);
                  var answer := Coe.Process(before, requests[k], REPLY_CAP);
                  var sees := CoeRuns.Observe(seen, before, requests[k], REPLY_CAP);
                  CoeRuns.InStep(seen, before)
                  && (CoeRuns.IsSegment(answer.reply) && seen.clean ==>
                        CoeRuns.SegmentExtends(seen, before, answer, sees)))
  {
    hide Requests, RunFrames, CoeRuns.InStep, CoeRuns.Run, CoeRuns.ObserveRun, CoeRuns.Observe, CoeRuns.SegmentExtends,
         CoeRuns.IsSegment, Coe.Process, Coe.ValidState;
    var requests := Requests(pos, mac, n, fs);
    ServerIsRun(pos, mac, n, fs);
    CoeRuns.PrefixAtEnd(o, n.coe, requests, REPLY_CAP);
    if k < |requests| {
      CoeRuns.PrefixSafety(o, n.coe, requests, REPLY_CAP, k);
    }
  }

  /** No run of frames changes an object without the write flag. */
  lemma FramesKeepReadOnly(pos: u16, mac: seq<u8>, n: Node, fs: seq<ReceivedFrame>, k: nat)
    requires |mac| == 6 && ValidNode(n) && k < |n.coe.od| && !n.coe.od[k].Writable()
    ensures k < |RunFrames(pos, mac, n, fs).coe.od| && RunFrames(pos, mac, n, fs).coe.od[k] == n.coe.od[k]
  {
    hide Requests, RunFrames;
    ServerIsRun(pos, mac, n, fs);
    CoeRuns.ReadOnlyObjectsKept(n.coe, Requests(pos, mac, n, fs), REPLY_CAP, k);
  }

  lemma {:induction false} RunKeepsLayout(pos: u16, m: Mem, ds: seq<Dgram>)
    requires GoodLayout(m) && AllKeepLayout(ds)
    ensures SameLayout(m, SlaveRuns.Run(pos, m, ds)) && GoodLayout(SlaveRuns.Run(pos, m, ds))
    decreases |ds|
  {
    hide GoodBuffer, KeepsLayout, Slave.StepMem;
    if ds != [] {
      StepKeepsLayout(pos, m, ds[0]);
      RunKeepsLayout(pos, Slave.StepMem(pos, m, ds[0]), ds[1..]);
    }
  }

  lemma StepKeepsLayout(pos: u16, m: Mem, d: Dgram)
    requires GoodLayout(m) && KeepsLayout(d)
    ensures SameLayout(m, Slave.StepMem(pos, m, d)) && GoodLayout(Slave.StepMem(pos, m, d))
  {
    hide GoodBuffer, Slave.AfterWrite, Content, Mailbox.OnSm0Write, Mailbox.OnSm1Read;
    if Slave.Performed(pos, m, d) {
      if Slave.IsWrite(d) {
        WrittenLayout(m, d);
        Mailbox.HandshakeFrame(Slave.AfterWrite(m, d), d.ado, |d.data|);
        StatusOnly(Slave.AfterWrite(m, d), Mailbox.OnSm0Write(Slave.AfterWrite(m, d), d.ado, |d.data|));
      } else {
        Mailbox.HandshakeFrame(m, d.ado, |d.data|);
        StatusOnly(m, Mailbox.OnSm1Read(m, d.ado, |d.data|));
      }
    }
  }

  lemma {:induction false} LayoutOfRun(pos: u16, m: Mem, fs: seq<ReceivedFrame>)
    requires GoodLayout(m) && forall k :: 0 <= k < |fs| ==> AllKeepLayout(CarriedOut(fs[k].rx))
    ensures SameLayout(m, SlaveRuns.Run(pos, m, AllFrames(fs)))
    decreases |fs|
  {
    hide GoodBuffer, KeepsLayout, Slave.StepMem, CarriedOut, AllKeepLayout;
    if fs != [] {
      var ds := CarriedOut(fs[0].rx);
      RunKeepsLayout(pos, m, ds);
      SlaveRuns.RunAppend(pos, m, ds, AllFrames(fs[1..]));
      LayoutOfRun(pos, SlaveRuns.Run(pos, m, ds), fs[1..]);
    }
  }

  /** Where the padded reply goes over the AL status or code register, it puts the bytes that are there already. */
  predicate ReplySparesAl(m: Mem, reply: seq<u8>) {
    Mailbox.AcceptsReply(m, |reply|) ==>
      var c := SM.Read(m, 1);
      forall a :: a in {ALSTAT, ALSTAT + 1, ALSTACODE, ALSTACODE + 1} && c.start <= a < c.End() ==>
        Padded(reply, c.length)[a - c.start] == m[a]
  }

  /** In any layout, a dispatch keeps the AL registers if and only if its reply spares them. */
  lemma DispatchKeepsAlIff(n: Node)
    requires ValidNode(n)
    ensures SlaveRuns.SameAl(n.mem, Dispatch(n).mem)
            <==> RequestReady(n.mem) ==> ReplySparesAl(n.mem, Coe.Process(n.coe, Request(n.mem), REPLY_CAP).reply)
  {
    hide Coe.Process, Coe.ValidState, Mailbox.WriteSm1, SM.ClearFull, Request, RequestReady, ReplySparesAl,
         SlaveRuns.SameAl;
    if RequestReady(n.mem) {
      ReplyKeepsAlIff(n.mem, Coe.Process(n.coe, Request(n.mem), REPLY_CAP).reply);
    } else {
      assert SlaveRuns.SameAl(n.mem, n.mem) by {
        SameAlBytes(n.mem, n.mem);
      }
    }
  }

  lemma ReplyKeepsAlIff(m: Mem, reply: seq<u8>)
    ensures SlaveRuns.SameAl(m, SM.ClearFull(Mailbox.WriteSm1(m, reply), 0)) <==> ReplySparesAl(m, reply)
  {
    hide SM.SetFull, SM.ClearFull, SM.Read, Padded, Splice, SlaveRuns.SameAl;
    var n := SM.ClearFull(Mailbox.WriteSm1(m, reply), 0);
    SameAlBytes(m, n);
    FlagsSpareAl(Mailbox.WriteSm1(m, reply));
    if Mailbox.AcceptsReply(m, |reply|) {
      var c := SM.Read(m, 1);
      FlagsSpareAl(Splice(m, c.start, Padded(reply, c.length)));
    }
  }

  lemma FlagsSpareAl(m: Mem)
    ensures forall a :: 0 <= a < SM0 ==> SM.SetFull(m, 1)[a] == m[a] && SM.ClearFull(m, 0)[a] == m[a]
  {
  }

  lemma SameAlBytes(m: Mem, n: Mem)
    ensures SlaveRuns.SameAl(m, n)
            <==> forall a :: a in {ALSTAT, ALSTAT + 1, ALSTACODE, ALSTACODE + 1} ==> n[a] == m[a]
  {
    if SlaveRuns.SameAl(m, n) {
      WordBytes(m, n, ALSTAT);
      WordBytes(m, n, ALSTACODE);
    }
  }

  /** Without the good layout it fails: with SM1 at the AL status registers, the reply to an upload of a missing object
      goes over them. */
  lemma ReplyOverAlStatus(n: Node)
    requires ValidNode(n) && n.coe.od == [] && RequestReady(n.mem) && |Request(n.mem)| == 16
    requires var req := Request(n.mem);
             req[5] == Coe.MBX_TYPE_COE && req[7] == 0x10 * Coe.SVC_SDO_REQ && req[8] == 0x20 * Coe.CCS_UPLOAD
    requires SM.Read(n.mem, 1).Usable() && SM.Read(n.mem, 1).start == ALSTAT && SM.Read(n.mem, 1).length == 16
    ensures !SlaveRuns.AlWellFormed(Dispatch(n).mem)
  {
    hide SM.Read, Request, RequestReady, Coe.Process;
    var req := Request(n.mem);
    RefusesMissing(n.coe, req);
    var reply := Coe.Process(n.coe, req, REPLY_CAP).reply;
    assert reply == Padded(reply, 16) && reply[0] == 10 && reply[1] == 0;
    var written := Mailbox.WriteSm1(n.mem, reply);
    assert written[ALSTAT] == 10 && written[ALSTAT + 1] == 0;
    assert Dispatch(n).mem[ALSTAT] == 10 && Dispatch(n).mem[ALSTAT + 1] == 0;
  }

  lemma RefusesMissing(s: Coe.State, req: seq<u8>)
    requires Coe.ValidState(s) && s.od == [] && |req| == 16
    requires req[5] == Coe.MBX_TYPE_COE && req[7] == 0x10 * Coe.SVC_SDO_REQ && req[8] == 0x20 * Coe.CCS_UPLOAD
    ensures var reply := Coe.Process(s, req, REPLY_CAP).reply; |reply| == 16 && reply[0] == 10 && reply[1] == 0
  {
    assert Coe.Process(s, req, REPLY_CAP) == Coe.UploadInit(s, req, REPLY_CAP, U16(req[9], req[10]), req[11]);
  }
}
