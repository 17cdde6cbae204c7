/** The slave controller: a received frame goes to the slave, and a complete mailbox request then goes to
    the CoE server, whose reply goes into SM1. */
module Controller {
  import opened Bytes
  import opened Esc
  import Coe
  import Mailbox
  import SM = SyncManager
  import Slave

  /** The reply buffer of the default mailbox handler. */
  const REPLY_CAP := 256

  datatype Backend = SoftwareEthernet | Lan9252Spi

  datatype Outcome = Answered(len: nat) | Failed | NotSupported

  /** The mirror and the CoE server behind it. */
  datatype Node = Node(mem: Mem, coe: Coe.State)

  predicate ValidNode(n: Node) {
    Coe.ValidState(n.coe)
  }

  /** The request in SM0 is complete and lies inside the mirror. */
  predicate RequestReady(m: Mem) {
    SM.Read(m, 0).Usable() && SM.Full(m, 0) && SM.Read(m, 0).End() <= SIZE
  }

  function Request(m: Mem): seq<u8>
    requires RequestReady(m)
  {
    Slice(m, SM.Read(m, 0).start, SM.Read(m, 0).length)
  }

  /** Hands a ready request to the CoE server, puts its reply into SM1 and empties SM0. */
  function Dispatch(n: Node): (r: Node)
    requires ValidNode(n)
    ensures ValidNode(r)
  {
    if !RequestReady(n.mem) then n
    else
      Coe.ProcessKeepsValid(n.coe, Request(n.mem), REPLY_CAP);
      var answer := Coe.Process(n.coe, Request(n.mem), REPLY_CAP);
      Node(SM.ClearFull(Mailbox.WriteSm1(n.mem, answer.reply), 0), answer.state)
  }

  datatype FrameResult = FrameResult(node: Node, tx: Option<seq<u8>>)

  /** One received frame; the mailbox is looked at only when the frame was answered. */
  function ProcessEthernet(pos: u16, mac: seq<u8>, n: Node, rx: seq<u8>, txCap: nat): (r: FrameResult)
    requires |mac| == 6 && ValidNode(n)
    ensures ValidNode(r.node)
  {
    var run := Slave.ProcessEthernet(pos, mac, n.mem, rx, txCap);
    var node := Node(run.mem, n.coe);
    FrameResult(if run.tx.Some? then Dispatch(node) else node, run.tx)
  }

  lemma NothingToWrite(m: Mem)
    ensures Mailbox.WriteSm1(m, []) == m
  {
  }

  class Device {
    const slave: Slave.Device
    const coe: Coe.Server
    const backend: Backend

    ghost predicate Valid()
      reads this, slave, coe, coe.od
    {
      slave.Valid() && coe.Valid()
    }

    ghost function Snapshot(): Node
      requires Valid()
      reads this, slave, slave.esc, coe, coe.od
    {
      Node(slave.Mirror(), coe.Snapshot())
    }

    constructor (slave: Slave.Device, coe: Coe.Server, backend: Backend)
      requires slave.Valid() && coe.Valid()
      ensures Valid() && this.slave == slave && this.coe == coe && this.backend == backend
    {
      this.slave, this.coe, this.backend := slave, coe, backend;
    }

    method DispatchMailbox()
      requires Valid()
      modifies slave.esc, coe, coe.od
      ensures Valid() && Snapshot() == Dispatch(old(Snapshot()))
    {
      hide SM.Read, SM.ClearFull, Mailbox.WriteSm1, Coe.Process, Coe.ValidState;
      ghost var m := slave.Mirror();
      var sm0 := SM.Read(slave.esc[..], 0);
      if !sm0.Active() || !sm0.Mailbox() || sm0.length == 0 {
        return;
      }
      if !Bit3(slave.esc[SM.StatusAddr(0)]) {
        return;
      }
      if sm0.start + sm0.length > SIZE {
        return;
      }
      assert RequestReady(m) && Request(m) == slave.esc[sm0.start..sm0.start + sm0.length];
      var reply := new u8[REPLY_CAP];
      NothingToWrite(m);
      var n := coe.ProcessFrame(slave.esc[sm0.start..sm0.start + sm0.length], reply, REPLY_CAP);
      if n > 0 {
        var ok := Mailbox.WriteReply(slave.esc, reply[..n]);
      }
      Mailbox.ClearStatusFull(slave.esc, 0);
    }

    method ProcessFrame(rx: seq<u8>, tx: array<u8>, txCap: nat) returns (r: Outcome)
      requires Valid() && tx != slave.esc && txCap <= tx.Length
      modifies slave.esc, coe, coe.od, tx
      ensures Valid()
      ensures backend != SoftwareEthernet ==> r == NotSupported && Snapshot() == old(Snapshot())
      ensures backend == SoftwareEthernet ==>
                var run := ProcessEthernet(slave.logicalPosition, slave.mac, old(Snapshot()), rx, txCap);
                && Snapshot() == run.node
                && (if run.tx.None? then r == Failed
                    else r == Answered(|run.tx.value|) && |run.tx.value| <= txCap
                         && tx[..|run.tx.value|] == run.tx.value)
    {
      if backend != SoftwareEthernet {
        return NotSupported;
      }
      var ok, len := slave.ProcessEthernetFrame(rx, tx, txCap);
      if ok == 0 {
        DispatchMailbox();
        return Answered(len);
      }
      r := Failed;
    }
  }
}
