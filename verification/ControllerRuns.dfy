/** The mailbox handshake over whole runs of the controller with a fixed, sensible mailbox layout. */
module ControllerRuns {
  import opened Bytes
  import opened Esc
  import opened Frame
  import opened Controller
  import Al
  import Coe
  import Mailbox
  import SM = SyncManager
  import Slave
  import SlaveRuns

  /** The configuration of a SyncManager without its status byte. */
  function Config(m: Mem, i: nat): SM.Config
    requires i < 2
  {
    SM.Read(m, i).(status := 0)
  }

  predicate SameLayout(m: Mem, n: Mem) {
    Config(m, 0) == Config(n, 0) && Config(m, 1) == Config(n, 1)
  }

  predicate Apart(sm: SM.Config, lo: nat, hi: nat) {
    sm.End() <= lo || hi <= sm.start
  }

  /** An active mailbox buffer of 16..256 bytes inside the mirror, clear of the registers in use. */
  predicate GoodBuffer(sm: SM.Config) {
    && sm.Usable() && 16 <= sm.length <= 256 && sm.End() <= SIZE
    && Apart(sm, STADR, STADR + 2) && Apart(sm, ALCTL, ALCTL + 2) && Apart(sm, ALSTAT, ALSTACODE + 2)
    && Apart(sm, SM0, SM0 + 2 * SM_SIZE)
  }

  predicate GoodLayout(m: Mem) {
    GoodBuffer(Config(m, 0)) && GoodBuffer(Config(m, 1)) && Apart(Config(m, 0), Config(m, 1).start, Config(m, 1).End())
  }

  /** A write leaves the SM0 and SM1 registers alone. */
  predicate KeepsLayout(d: Dgram) {
    Slave.IsWrite(d) ==> d.ado + |d.data| <= SM0 || SM0 + 2 * SM_SIZE <= d.ado
  }

  /** An observer of the handshake: a request was completed since the last dispatch (`armed`); the reply
      written since the last complete read of SM1 (`pending`); the master wrote into SM1's buffer (`touched`). */
  datatype Watch = Watch(armed: bool, pending: Option<seq<u8>>, touched: bool)

  predicate Overlaps(sm: SM.Config, ado: nat, len: nat) {
    ado < sm.End() && sm.start < ado + len
  }

  function WatchDgram(w: Watch, pos: u16, m: Mem, d: Dgram): Watch {
    if !Slave.Performed(pos, m, d) then w
    else if d.cmd == CMD_FPRD then
      if Mailbox.EndsAt(SM.Read(m, 1), d.ado, |d.data|) then w.(pending := None) else w
    else
      var armed := d.cmd == CMD_FPWR && Mailbox.EndsAt(SM.Read(m, 0), d.ado, |d.data|);
      w.(armed := w.armed || armed, touched := w.touched || Overlaps(SM.Read(m, 1), d.ado, |d.data|))
  }

  function Content(m: Mem): seq<u8>
    requires GoodLayout(m)
  {
    Slice(m, Config(m, 1).start, Config(m, 1).length)
  }

  /** What the flags mean: SM0 is full exactly when a request waits, SM1 exactly when a reply is unread,
      and the buffer then holds that reply padded with zeros unless the master wrote there. */
  predicate Handshake(w: Watch, m: Mem) {
    && GoodLayout(m)
    && (SM.Full(m, 0) <==> w.armed)
    && (SM.Full(m, 1) <==> w.pending.Some?)
    && (w.pending.Some? && !w.touched ==>
          |w.pending.value| <= Config(m, 1).length && Content(m) == Padded(w.pending.value, Config(m, 1).length))
  }

  lemma StatusOnly(m: Mem, n: Mem)
    requires GoodLayout(m)
    requires forall a :: 0 <= a < SIZE && a != SM.StatusAddr(0) && a != SM.StatusAddr(1) ==> n[a] == m[a]
    ensures SameLayout(m, n) && GoodLayout(n) && Content(n) == Content(m)
  {
  }

  lemma WrittenLayout(m: Mem, d: Dgram)
    requires GoodLayout(m) && Slave.IsWrite(d) && KeepsLayout(d) && InRange(d.ado, |d.data|)
    ensures var n := Slave.AfterWrite(m, d);
            && SameLayout(m, n) && GoodLayout(n)
            && (forall i :: 0 <= i < 2 ==> SM.Full(n, i) == SM.Full(m, i))
            && (!Overlaps(Config(m, 1), d.ado, |d.data|) ==> Content(n) == Content(m))
  {
    hide Slave.AfterWrite, GoodBuffer, Al.OnControl;
    var n := Slave.AfterWrite(m, d);
    WrittenBytes(m, d);
    RegistersKept(m, n);
    var c := Config(m, 1);
    assert GoodBuffer(c);
    BufferClear(c);
    if !Overlaps(c, d.ado, |d.data|) {
      assert forall a :: c.start <= a < c.End() ==> n[a] == m[a];
    }
  }

  lemma WrittenBytes(m: Mem, d: Dgram)
    requires InRange(d.ado, |d.data|)
    ensures var n := Slave.AfterWrite(m, d);
            forall a :: 0 <= a < SIZE && (a < ALSTAT || ALSTACODE + 2 <= a) ==>
              n[a] == if d.ado <= a < d.ado + |d.data| then d.data[a - d.ado] else m[a]
  {
    hide Al.OnControl, Splice;
    Al.ControlFrame(Splice(m, d.ado, d.data));
  }

  lemma RegistersKept(m: Mem, n: Mem)
    requires forall a :: SM0 <= a < SM0 + 2 * SM_SIZE ==> n[a] == m[a]
    ensures SameLayout(m, n) && forall i :: 0 <= i < 2 ==> SM.Full(n, i) == SM.Full(m, i)
  {
  }

  lemma BufferClear(sm: SM.Config)
    requires GoodBuffer(sm)
    ensures sm.End() <= SIZE && (sm.End() <= ALSTAT || ALSTACODE + 2 <= sm.start)
    ensures sm.End() <= SM0 || SM0 + 2 * SM_SIZE <= sm.start
  {
  }

  /** One datagram keeps the meaning of the flags. */
  lemma WatchStep(w: Watch, pos: u16, m: Mem, d: Dgram)
    requires Handshake(w, m) && KeepsLayout(d)
    ensures Handshake(WatchDgram(w, pos, m, d), Slave.StepMem(pos, m, d))
    ensures SameLayout(m, Slave.StepMem(pos, m, d))
  {
    if Slave.Performed(pos, m, d) {
      if d.cmd == CMD_FPRD {
        WatchRead(w, m, d);
      } else {
        WatchWrite(w, m, d);
      }
    }
  }

  lemma WatchRead(w: Watch, m: Mem, d: Dgram)
    requires Handshake(w, m) && InRange(d.ado, |d.data|)
    ensures var n := Mailbox.OnSm1Read(m, d.ado, |d.data|);
            && SameLayout(m, n)
            && Handshake(if Mailbox.EndsAt(SM.Read(m, 1), d.ado, |d.data|) then w.(pending := None) else w, n)
  {
    Mailbox.HandshakeFrame(m, d.ado, |d.data|);
    StatusOnly(m, Mailbox.OnSm1Read(m, d.ado, |d.data|));
    SM.FullAfter(m, 1);
  }

  lemma WatchWrite(w: Watch, m: Mem, d: Dgram)
    requires Handshake(w, m) && KeepsLayout(d) && Slave.IsWrite(d) && InRange(d.ado, |d.data|)
    ensures var after := Slave.AfterWrite(m, d);
            var n := if d.cmd == CMD_FPWR then Mailbox.OnSm0Write(after, d.ado, |d.data|) else after;
            var armed := d.cmd == CMD_FPWR && Mailbox.EndsAt(SM.Read(m, 0), d.ado, |d.data|);
            && SameLayout(m, n)
            && Handshake(w.(armed := w.armed || armed,
                            touched := w.touched || Overlaps(SM.Read(m, 1), d.ado, |d.data|)), n)
  {
    var after := Slave.AfterWrite(m, d);
    WrittenLayout(m, d);
    Mailbox.HandshakeFrame(after, d.ado, |d.data|);
    StatusOnly(after, Mailbox.OnSm0Write(after, d.ado, |d.data|));
    SM.FullAfter(after, 0);
  }

  function WatchRun(w: Watch, pos: u16, m: Mem, ds: seq<Dgram>): Watch
    decreases |ds|
  {
    if ds == [] then w else WatchRun(WatchDgram(w, pos, m, ds[0]), pos, Slave.StepMem(pos, m, ds[0]), ds[1..])
  }

  predicate AllKeepLayout(ds: seq<Dgram>) {
    forall k :: 0 <= k < |ds| ==> KeepsLayout(ds[k])
  }

  lemma {:induction false} WatchRunStep(w: Watch, pos: u16, m: Mem, ds: seq<Dgram>)
    requires Handshake(w, m) && AllKeepLayout(ds)
    ensures Handshake(WatchRun(w, pos, m, ds), SlaveRuns.Run(pos, m, ds))
    ensures SameLayout(m, SlaveRuns.Run(pos, m, ds))
    decreases |ds|
  {
    if ds != [] {
      WatchStep(w, pos, m, ds[0]);
      WatchRunStep(WatchDgram(w, pos, m, ds[0]), pos, Slave.StepMem(pos, m, ds[0]), ds[1..]);
    }
  }

  /** After a dispatch: the request is gone, and a reply that fits SM1 is pending. */
  function WatchDispatch(w: Watch, n: Node): Watch
    requires ValidNode(n)
  {
    if !w.armed || !RequestReady(n.mem) then w
    else
      var reply := Coe.Process(n.coe, Request(n.mem), REPLY_CAP).reply;
      if Mailbox.AcceptsReply(n.mem, |reply|) then Watch(false, Some(reply), false) else w.(armed := false)
  }

  lemma ReplyWritten(m: Mem, reply: seq<u8>)
    requires GoodLayout(m) && Mailbox.AcceptsReply(m, |reply|)
    ensures var n := Mailbox.WriteSm1(m, reply);
            && SameLayout(m, n) && GoodLayout(n)
            && SM.Full(n, 1) && SM.Full(n, 0) == SM.Full(m, 0)
            && Content(n) == Padded(reply, Config(m, 1).length)
            && (forall a :: 0 <= a < SIZE && a != SM.StatusAddr(1) && !Overlaps(Config(m, 1), a, 1) ==> n[a] == m[a])
  {
    hide GoodBuffer, Padded, Splice;
    var c := Config(m, 1);
    var written := Splice(m, c.start, Padded(reply, c.length));
    assert GoodBuffer(c);
    BufferClear(c);
    RegistersKept(m, written);
    assert Content(written) == Padded(reply, c.length);
    SetFrame(written);
    StatusOnly(written, SM.SetFull(written, 1));
  }

  lemma SetFrame(m: Mem)
    ensures var n := SM.SetFull(m, 1);
            && SM.Full(n, 1) && SM.Full(n, 0) == SM.Full(m, 0)
            && forall a :: 0 <= a < SIZE && a != SM.StatusAddr(1) ==> n[a] == m[a]
  {
    SM.FullAfter(m, 1);
  }

  lemma DispatchStep(w: Watch, n: Node)
    requires ValidNode(n) && Handshake(w, n.mem)
    ensures var w', n' := WatchDispatch(w, n), Dispatch(n);
            && Handshake(w', n'.mem) && SameLayout(n.mem, n'.mem)
            && !w'.armed
            && (!w.armed ==> n' == n)
  {
    hide Coe.Process, Coe.ValidState, GoodBuffer, Content, Mailbox.WriteSm1, Mailbox.AcceptsReply, SM.ClearFull;
    var m := n.mem;
    if w.armed {
      LayoutReady(m);
      var reply := Coe.Process(n.coe, Request(m), REPLY_CAP).reply;
      ReplyMaybeWritten(m, reply);
      Emptied(Mailbox.WriteSm1(m, reply));
    }
  }

  lemma LayoutReady(m: Mem)
    requires GoodLayout(m) && SM.Full(m, 0)
    ensures RequestReady(m)
  {
  }

  lemma ReplyMaybeWritten(m: Mem, reply: seq<u8>)
    requires GoodLayout(m)
    ensures var n, c := Mailbox.WriteSm1(m, reply), Config(m, 1);
            && SameLayout(m, n) && GoodLayout(n)
            && (!Mailbox.AcceptsReply(m, |reply|) ==> n == m)
            && (Mailbox.AcceptsReply(m, |reply|) ==>
                  SM.Full(n, 1) && |reply| <= c.length && Content(n) == Padded(reply, c.length))
  {
    hide GoodLayout, Content;
    if Mailbox.AcceptsReply(m, |reply|) {
      ReplyWritten(m, reply);
    }
  }

  lemma Emptied(m: Mem)
    requires GoodLayout(m)
    ensures var n := SM.ClearFull(m, 0);
            && SameLayout(m, n) && GoodLayout(n) && Content(n) == Content(m)
            && !SM.Full(n, 0) && SM.Full(n, 1) == SM.Full(m, 1)
  {
    hide GoodLayout, Content;
    StatusOnly(m, SM.ClearFull(m, 0));
    SM.FullAfter(m, 0);
  }

  /** The datagrams of a received frame, as far as they are carried out. */
  function CarriedOut(rx: seq<u8>): seq<Dgram> {
    if EthPayload(rx).None? || |EthPayload(rx).value| > MAX_EC_PAYLOAD then []
    else SlaveRuns.PduCarriedOut(SlaveRuns.ReceivedPdu(EthPayload(rx).value, MAX_EC_PAYLOAD))
  }

  lemma FrameIsRun(pos: u16, mac: seq<u8>, m: Mem, rx: seq<u8>, txCap: nat)
    requires |mac| == 6
    ensures Slave.ProcessEthernet(pos, mac, m, rx, txCap).mem == SlaveRuns.Run(pos, m, CarriedOut(rx))
  {
    if EthPayload(rx).Some? && Split(EthPayload(rx).value).Some? {
      SlaveRuns.PduIsRun(pos, m, Split(EthPayload(rx).value).value, MAX_EC_PAYLOAD);
    }
  }

  function WatchFrame(w: Watch, pos: u16, mac: seq<u8>, n: Node, rx: seq<u8>, txCap: nat): Watch
    requires |mac| == 6 && ValidNode(n)
  {
    var run := Slave.ProcessEthernet(pos, mac, n.mem, rx, txCap);
    var w' := WatchRun(w, pos, n.mem, CarriedOut(rx));
    if run.tx.Some? then WatchDispatch(w', Node(run.mem, n.coe)) else w'
  }

  /** One frame: the flags keep their meaning, an answered frame leaves SM0 empty, and the CoE server is
      called at most once, and only when a request was completed since the last call. */
  lemma FrameStep(w: Watch, pos: u16, mac: seq<u8>, n: Node, rx: seq<u8>, txCap: nat)
    requires |mac| == 6 && ValidNode(n) && Handshake(w, n.mem) && AllKeepLayout(CarriedOut(rx))
    ensures var r, w' := ProcessEthernet(pos, mac, n, rx, txCap), WatchFrame(w, pos, mac, n, rx, txCap);
            var armed := WatchRun(w, pos, n.mem, CarriedOut(rx)).armed;
            && Handshake(w', r.node.mem) && SameLayout(n.mem, r.node.mem)
            && (r.tx.Some? ==> !SM.Full(r.node.mem, 0))
            && (r.tx.Some? && armed ==>
                  var m := Slave.ProcessEthernet(pos, mac, n.mem, rx, txCap).mem;
                  RequestReady(m) && r.node.coe == Coe.Process(n.coe, Request(m), REPLY_CAP).state)
            && (r.tx.None? || !armed ==> r.node.coe == n.coe)
  {
    var run := Slave.ProcessEthernet(pos, mac, n.mem, rx, txCap);
    FrameIsRun(pos, mac, n.mem, rx, txCap);
    WatchRunStep(w, pos, n.mem, CarriedOut(rx));
    DispatchStep(WatchRun(w, pos, n.mem, CarriedOut(rx)), Node(run.mem, n.coe));
  }

  /** One received frame and the room for its answer. */
  datatype ReceivedFrame = ReceivedFrame(rx: seq<u8>, txCap: nat)

  function RunFrames(pos: u16, mac: seq<u8>, n: Node, fs: seq<ReceivedFrame>): (r: Node)
    requires |mac| == 6 && ValidNode(n)
    ensures ValidNode(r)
    decreases |fs|
  {
    if fs == [] then n else RunFrames(pos, mac, ProcessEthernet(pos, mac, n, fs[0].rx, fs[0].txCap).node, fs[1..])
  }

  function WatchFrames(w: Watch, pos: u16, mac: seq<u8>, n: Node, fs: seq<ReceivedFrame>): Watch
    requires |mac| == 6 && ValidNode(n)
    decreases |fs|
  {
    if fs == [] then w
    else
      WatchFrames(WatchFrame(w, pos, mac, n, fs[0].rx, fs[0].txCap), pos, mac,
                  ProcessEthernet(pos, mac, n, fs[0].rx, fs[0].txCap).node, fs[1..])
  }

  /** The handshake invariant over every run of frames that leaves the mailbox layout alone. */
  lemma {:induction false} HandshakeRun(w: Watch, pos: u16, mac: seq<u8>, n: Node, fs: seq<ReceivedFrame>)
    requires |mac| == 6 && ValidNode(n) && Handshake(w, n.mem)
    requires forall k :: 0 <= k < |fs| ==> AllKeepLayout(CarriedOut(fs[k].rx))
    ensures Handshake(WatchFrames(w, pos, mac, n, fs), RunFrames(pos, mac, n, fs).mem)
    ensures SameLayout(n.mem, RunFrames(pos, mac, n, fs).mem)
    decreases |fs|
  {
    if fs != [] {
      FrameStep(w, pos, mac, n, fs[0].rx, fs[0].txCap);
      HandshakeRun(WatchFrame(w, pos, mac, n, fs[0].rx, fs[0].txCap), pos, mac,
                   ProcessEthernet(pos, mac, n, fs[0].rx, fs[0].txCap).node, fs[1..]);
    }
  }

  /** With a good layout and both flags clear, watching may start. */
  lemma WatchStarts(m: Mem)
    requires GoodLayout(m) && !SM.Full(m, 0) && !SM.Full(m, 1)
    ensures Handshake(Watch(false, None, false), m)
  {
  }
}
