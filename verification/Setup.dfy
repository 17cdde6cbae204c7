/** From a slave just initialised to one that is ready for mailbox traffic. */
module Setup {
  import opened Bytes
  import opened Esc
  import opened Frame
  import opened Controller
  import opened ControllerRuns
  import opened Upload
  import Al
  import Coe
  import Master
  import ObjectDictionary
  import SM = SyncManager
  import Slave
  import SlaveRuns

  /** The eight register bytes of a SyncManager. */
  function ConfigBytes(c: SM.Config): (b: seq<u8>)
    ensures |b| == SM_SIZE
  {
    Le16(c.start) + Le16(c.length) + [c.control, c.status, c.activate, c.pdiCtrl]
  }

  function AssignDgram(p: Path): Dgram {
    Datagram(CMD_APWR, 0, p.pos, STADR, 0, Le16(p.station), 0)
  }

  function ConfigDgram(p: Path, i: nat, c: SM.Config): Dgram
    requires i < 2
  {
    Datagram(CMD_FPWR, 0, p.station, SM.Base(i), 0, ConfigBytes(c), 0)
  }

  /** Assign the station address, then configure both mailboxes. */
  function Configure(p: Path, c0: SM.Config, c1: SM.Config): seq<Dgram> {
    [AssignDgram(p), ConfigDgram(p, 0, c0), ConfigDgram(p, 1, c1)]
  }

  lemma BytesOfConfig(c: SM.Config)
    ensures var b := ConfigBytes(c);
            c == SM.Config(U16(b[0], b[1]), U16(b[2], b[3]), b[4], b[5], b[6], b[7])
  {
  }

  lemma RegistersWritten(m: Mem, i: nat, c: SM.Config)
    requires i < 2
    ensures var n := Splice(m, SM.Base(i), ConfigBytes(c));
            && SM.Read(n, i) == c && SM.Read(n, 1 - i) == SM.Read(m, 1 - i)
            && ReadU16(n, STADR) == ReadU16(m, STADR) && SlaveRuns.SameAl(m, n)
  {
    hide ConfigBytes, Splice;
    var n, b := Splice(m, SM.Base(i), ConfigBytes(c)), ConfigBytes(c);
    BytesOfConfig(c);
    assert forall k :: 0 <= k < 8 ==> n[SM.Base(i) + k] == b[k];
  }

  /** A configuration write is not mistaken for a mailbox request, since the buffer is clear of the registers. */
  lemma ConfigStep(p: Path, m: Mem, i: nat, c: SM.Config)
    requires i < 2 && ReadU16(m, STADR) == p.station != 0
    requires GoodBuffer(if i == 0 then c else SM.Read(m, 0))
    ensures Slave.StepMem(p.pos, m, ConfigDgram(p, i, c)) == Splice(m, SM.Base(i), ConfigBytes(c))
  {
    hide ConfigBytes, SM.Read;
    var d, n := ConfigDgram(p, i, c), Splice(m, SM.Base(i), ConfigBytes(c));
    RegistersWritten(m, i, c);
    assert Slave.AfterWrite(m, d) == n;
    BufferClear(SM.Read(n, 0));
  }

  lemma AssignStep(p: Path, m: Mem)
    ensures var n := Slave.StepMem(p.pos, m, AssignDgram(p));
            ReadU16(n, STADR) == p.station && SlaveRuns.SameAl(m, n)
  {
    var n := Splice(m, STADR, Le16(p.station));
    assert n[STADR] == Le16(p.station)[0] && n[STADR + 1] == Le16(p.station)[1];
  }

  lemma RunOfThree(pos: u16, m: Mem, a: Dgram, b: Dgram, c: Dgram)
    ensures SlaveRuns.Run(pos, m, [a, b, c]) == Slave.StepMem(pos, Slave.StepMem(pos, Slave.StepMem(pos, m, a), b), c)
  {
    hide Slave.StepMem;
    var m1 := Slave.StepMem(pos, m, a);
    var m2 := Slave.StepMem(pos, m1, b);
    assert [a, b, c][1..] == [b, c] && [b, c][1..] == [c] && [c][1..] == [];
    assert SlaveRuns.Run(pos, m2, [c]) == SlaveRuns.Run(pos, Slave.StepMem(pos, m2, c), []);
    assert SlaveRuns.Run(pos, m1, [b, c]) == SlaveRuns.Run(pos, m2, [c]);
  }

  /** Whatever the slave holds, for every station address and pair of disjoint mailbox buffers clear of the
      registers, the three writes leave it ready for mailbox traffic, with both flags clear and the AL state kept. */
  lemma ConfigureMakesReady(p: Path, m: Mem, od: ObjectDictionary.Table, c0: SM.Config, c1: SM.Config)
    requires ValidPath(p) && GoodBuffer(c0) && GoodBuffer(c1) && Apart(c0, c1.start, c1.End())
    requires c0.status == 0 && c1.status == 0
    ensures var n := SlaveRuns.Run(p.pos, m, Configure(p, c0, c1));
            && Ready(p, Node(n, Coe.State(od, Coe.NoUpload))) && Handshake(Watch(false, None, false), n)
            && SlaveRuns.SameAl(m, n) && Config(n, 0) == c0 && Config(n, 1) == c1
  {
    hide Slave.StepMem, ConfigBytes, SM.Read, GoodBuffer, Splice;
    var m1 := Slave.StepMem(p.pos, m, AssignDgram(p));
    AssignStep(p, m);
    var m2 := Splice(m1, SM.Base(0), ConfigBytes(c0));
    RegistersWritten(m1, 0, c0);
    ConfigStep(p, m1, 0, c0);
    var m3 := Splice(m2, SM.Base(1), ConfigBytes(c1));
    RegistersWritten(m2, 1, c1);
    ConfigStep(p, m2, 1, c1);
    RunOfThree(p.pos, m, AssignDgram(p), ConfigDgram(p, 0, c0), ConfigDgram(p, 1, c1));
    StatusClear(m3, c0, c1);
    WatchStarts(m3);
  }

  lemma StatusClear(m: Mem, c0: SM.Config, c1: SM.Config)
    requires SM.Read(m, 0) == c0 && SM.Read(m, 1) == c1 && c0.status == 0 && c1.status == 0
    ensures !SM.Full(m, 0) && !SM.Full(m, 1) && Config(m, 0) == c0 && Config(m, 1) == c1
  {
  }

  /** From such a configuration on, the handshake invariant holds over every run of frames that leaves it alone. */
  lemma HandshakeAfterSetup(p: Path, m: Mem, od: ObjectDictionary.Table, c0: SM.Config, c1: SM.Config,
                            fs: seq<ReceivedFrame>)
    requires ValidPath(p) && GoodBuffer(c0) && GoodBuffer(c1) && Apart(c0, c1.start, c1.End())
    requires c0.status == 0 && c1.status == 0
    requires forall k :: 0 <= k < |fs| ==> AllKeepLayout(CarriedOut(fs[k].rx))
    ensures var w, n := Watch(false, None, false),
                        Node(SlaveRuns.Run(p.pos, m, Configure(p, c0, c1)), Coe.State(od, Coe.NoUpload));
            Handshake(WatchFrames(w, p.pos, p.slaveMac, n, fs), RunFrames(p.pos, p.slaveMac, n, fs).mem)
  {
    hide Handshake, Configure, GoodBuffer, SlaveRuns.Run, AllKeepLayout;
    ConfigureMakesReady(p, m, od, c0, c1);
    var n := Node(SlaveRuns.Run(p.pos, m, Configure(p, c0, c1)), Coe.State(od, Coe.NoUpload));
    HandshakeRun(Watch(false, None, false), p.pos, p.slaveMac, n, fs);
  }

  /** A request for a state, without acknowledge. */
  function RequestDgram(p: Path, state: nat): Dgram {
    Master.ControlDgram(p.station, Al.ControlWord(state, false))
  }

  lemma RequestGranted(p: Path, m: Mem, state: nat)
    requires SlaveRuns.AlWellFormed(m) && ReadU16(m, STADR) == p.station != 0
    requires Master.StateCode(state) && Master.Granted(m, state)
    ensures var n := Slave.StepMem(p.pos, m, RequestDgram(p, state));
            && SlaveRuns.AlWellFormed(n) && ReadU16(n, STADR) == p.station
            && SlaveRuns.AlState(n) == state && !SlaveRuns.AlError(n)
  {
    hide SlaveRuns.AlWellFormed, Master.Granted, Slave.StepMem;
    Master.RequestSent(p.pos, m, state);
  }

  /** From initialisation to OP: after the configuration, the requests for PREOP, SAFEOP and OP are all granted. */
  lemma BringUpReachesOp(p: Path, id: Identity, c0: SM.Config, c1: SM.Config)
    requires ValidPath(p) && GoodBuffer(c0) && GoodBuffer(c1) && Apart(c0, c1.start, c1.End())
    requires c0.status == 0 && c1.status == 0
    ensures var requests := [RequestDgram(p, Al.PREOP), RequestDgram(p, Al.SAFEOP), RequestDgram(p, Al.OP)];
            var m := SlaveRuns.Run(p.pos, Initial(id), Configure(p, c0, c1) + requests);
            SlaveRuns.AlState(m) == Al.OP && !SlaveRuns.AlError(m)
  {
    hide SlaveRuns.AlWellFormed, SlaveRuns.AlState, SlaveRuns.AlError, Slave.StepMem, RequestDgram, Configure, Initial,
         SM.ValidPair, GoodBuffer;
    var requests := [RequestDgram(p, Al.PREOP), RequestDgram(p, Al.SAFEOP), RequestDgram(p, Al.OP)];
    var m := SlaveRuns.Run(p.pos, Initial(id), Configure(p, c0, c1));
    ConfigureMakesReady(p, Initial(id), [], c0, c1);
    SlaveRuns.InitialIsWellFormed(id);
    Master.AlMoves(Initial(id), m);
    PairOfLayout(m);
    RequestGranted(p, m, Al.PREOP);
    var m1 := Slave.StepMem(p.pos, m, RequestDgram(p, Al.PREOP));
    RequestGranted(p, m1, Al.SAFEOP);
    var m2 := Slave.StepMem(p.pos, m1, RequestDgram(p, Al.SAFEOP));
    RequestGranted(p, m2, Al.OP);
    SlaveRuns.RunAppend(p.pos, Initial(id), Configure(p, c0, c1), requests);
    RunOfThree(p.pos, m, requests[0], requests[1], requests[2]);
  }

  lemma PairOfLayout(m: Mem)
    requires GoodLayout(m)
    ensures SM.ValidPair(m)
  {
  }
}
