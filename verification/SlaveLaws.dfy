/** Which datagrams the slave answers, whom it answers, and what its mailbox registers let through, told by register
    addresses and bytes. */
module SlaveLaws {
  import opened Bytes
  import opened Esc
  import opened Frame
  import Al
  import Controller
  import FrameLaws
  import Mailbox
  import Slave
  import SlaveRuns
  import SM = SyncManager

  /** The station address register, 0x0010. */
  function Station(m: Mem): nat {
    var lo: int, hi: int := m[0x10], m[0x11];
    lo + 0x100 * hi
  }

  /** A datagram is answered with working counter 1 exactly when it is a read or write for the nonzero station
      address, or a positional write for the slave's place, and stays inside the mirror; otherwise it comes back as it
      was, with 0, and nothing changes. */
  lemma AnsweredIff(pos: u16, m: Mem, d: Dgram)
    ensures var reply := Slave.StepReply(pos, m, d);
            && (reply.wkc == 1 <==>
                  && 0 < |d.data| && d.ado + |d.data| <= 4096
                  && (((d.cmd == 4 || d.cmd == 5) && d.adp == Station(m) != 0) || (d.cmd == 2 && d.adp == pos)))
            && (reply.wkc != 1 ==> reply == d.(wkc := 0) && Slave.StepMem(pos, m, d) == m)
            && (reply.wkc == 1 ==>
                  reply == d.(wkc := 1, data := if d.cmd == 4 then m[d.ado..d.ado + |d.data|] else d.data))
  {
    hide Slave.AfterWrite, Mailbox.OnSm0Write, Mailbox.OnSm1Read;
  }

  /** Addressed by station or by place, the same data at the same registers have the same effect, but for the mailbox
      flag of SM0, which only a write by station sets. */
  lemma WritesAlike(pos: u16, m: Mem, d: Dgram)
    requires d.cmd == 5 && Slave.StepReply(pos, m, d).wkc == 1
    ensures var n := Slave.StepMem(pos, m, d.(cmd := 2, adp := pos));
            && (forall a :: 0 <= a < SIZE && a != 0x805 ==> Slave.StepMem(pos, m, d)[a] == n[a])
            && n == Slave.AfterWrite(m, d)
  {
    hide Slave.AfterWrite, Mailbox.OnSm0Write;
    Mailbox.HandshakeFrame(Slave.AfterWrite(m, d), d.ado, |d.data|);
    SameData(m, d, d.(cmd := 2, adp := pos));
  }

  lemma SameData(m: Mem, d: Dgram, e: Dgram)
    requires InRange(d.ado, |d.data|) && e.ado == d.ado && e.data == d.data
    ensures Slave.AfterWrite(m, e) == Slave.AfterWrite(m, d)
  {
  }

  /** The initial mirror: no station address, both mailboxes off, and zeros but for identity and AL status. */
  lemma InitialZeros(id: Identity)
    ensures Station(Initial(id)) == 0 && !SM.Read(Initial(id), 0).Usable() && !SM.Read(Initial(id), 1).Usable()
    ensures forall a :: 0 <= a < SIZE && !(0x12 <= a < 0x22) && a != 0x130 ==> Initial(id)[a] == 0
  {
    IdentityOnly(id);
  }

  lemma IdentityOnly(id: Identity)
    ensures forall a :: 0 <= a < SIZE && !(0x12 <= a < 0x22) ==> ApplyIdentity(Zeros(SIZE), id)[a] == 0
  {
    hide Le32;
  }

  /** Until it has a station address the slave answers no datagram addressed by station, and nothing in it changes. */
  lemma {:induction false} SilentUntilAddressed(pos: u16, m: Mem, ds: seq<Dgram>, k: nat)
    requires Station(m) == 0 && (forall i :: 0 <= i < |ds| ==> ds[i].cmd != 2) && k < |ds|
    ensures SlaveRuns.Run(pos, m, ds[..k]) == m && Slave.StepReply(pos, m, ds[k]).wkc == 0
    decreases k
  {
    hide Slave.StepMem, Slave.StepReply;
    AnsweredIff(pos, m, ds[0]);
    AnsweredIff(pos, m, ds[k]);
    OneOrZero(pos, m, ds[k]);
    if k > 0 {
      assert ds[..k][0] == ds[0] && ds[..k][1..] == ds[1..][..k - 1];
      SilentUntilAddressed(pos, m, ds[1..], k - 1);
    }
  }

  lemma OneOrZero(pos: u16, m: Mem, d: Dgram)
    ensures Slave.StepReply(pos, m, d).wkc <= 1
  {
  }

  /** An answering frame goes to the sender of the request, comes from the slave, and is as long as the request
      without its padding. */
  lemma AnswerGoesBack(pos: u16, mac: seq<u8>, m: Mem, rx: seq<u8>, txCap: nat)
    requires |mac| == 6
    ensures var tx := Slave.ProcessEthernet(pos, mac, m, rx, txCap).tx;
            tx.Some? ==>
              && |rx| >= 18 && |tx.value| == 16 + U16(rx[14], rx[15]) <= |rx| && |tx.value| <= txCap
              && tx.value[..6] == rx[6..12] && tx.value[6..12] == mac && tx.value[12..16] == rx[12..16]
  {
    hide EthFrame, Slave.RunPdu, EncodeAll, U16, Split;
    var tx := Slave.ProcessEthernet(pos, mac, m, rx, txCap).tx;
    if tx.Some? {
      var pdu := EthPayload(rx).value;
      var ds := Split(pdu).value;
      var out := EncodeAll(Slave.ProcessPdu(pos, m, pdu, MAX_EC_PAYLOAD).replies.value);
      Slave.RepliesFit(pos, m, ds, MAX_EC_PAYLOAD);
      FrameLaws.EncodeOfSplit(pdu);
      FrameLaws.FrameLayout(rx[6..12], mac, out);
      FrameLaws.PayloadIff(rx, pdu);
      var f := EthFrame(rx[6..12], mac, out);
      SameWord(f, rx);
    }
  }

  /** The area that the length word at 14 announces, behind two reserved bytes. */
  function Area(rx: seq<u8>): (pdu: seq<u8>)
    requires |rx| >= 18 && 2 <= U16(rx[14], rx[15]) <= |rx| - 16
  {
    rx[18..16 + U16(rx[14], rx[15])]
  }

  /** A frame is answered exactly when it is an EtherCAT frame whose length word fits it, its area is made of
      datagrams of at most 256 bytes, not over 1498 bytes in all, and there is room for an answer of that length. The
      answer then holds the answers to these datagrams; a frame without such an area has no effect. */
  lemma FrameAnsweredIff(pos: u16, mac: seq<u8>, m: Mem, rx: seq<u8>, txCap: nat)
    requires |mac| == 6
    ensures var run := Slave.ProcessEthernet(pos, mac, m, rx, txCap);
            if |rx| >= 18 && rx[12] == 0x88 && rx[13] == 0xA4 && 2 <= U16(rx[14], rx[15]) <= |rx| - 16
               && |Area(rx)| <= 1498 then
              var pdu := Area(rx);
              var done := Slave.ProcessPdu(pos, m, pdu, 1498);
              && (run.tx.Some? <==> |pdu| + 18 <= txCap && Split(pdu).Some?
                                    && forall k :: 0 <= k < |Split(pdu).value| ==> |Split(pdu).value[k].data| <= 256)
              && run.mem == done.mem
              && (run.tx.Some? ==>
                    done.replies.Some? && EthPayload(run.tx.value) == Some(EncodeAll(done.replies.value)))
            else run == Slave.FrameRun(m, None)
  {
    hide EthFrame, Slave.RunPdu, EncodeAll, U16, Split, EthPayload, Slave.ProcessPdu;
    if |rx| >= 18 && rx[12] == 0x88 && rx[13] == 0xA4 && 2 <= U16(rx[14], rx[15]) <= |rx| - 16 {
      var pdu := Area(rx);
      FrameLaws.PayloadIff(rx, pdu);
      if |pdu| <= 1498 {
        AreaAnsweredIff(pos, m, pdu);
        var done := Slave.ProcessPdu(pos, m, pdu, 1498);
        if done.replies.Some? && |pdu| + 18 <= txCap {
          var out := EncodeAll(done.replies.value);
          FrameLaws.FrameRoundTrip(rx[6..12], mac, out, []);
          assert EthFrame(rx[6..12], mac, out) + [] == EthFrame(rx[6..12], mac, out);
        }
      }
    } else {
      NoArea(rx);
    }
  }

  lemma NoArea(rx: seq<u8>)
    requires !(|rx| >= 18 && rx[12] == 0x88 && rx[13] == 0xA4 && 2 <= U16(rx[14], rx[15]) <= |rx| - 16)
    ensures EthPayload(rx) == None
  {
    if EthPayload(rx).Some? {
      FrameLaws.PayloadIff(rx, EthPayload(rx).value);
    }
  }

  lemma AreaAnsweredIff(pos: u16, m: Mem, pdu: seq<u8>)
    requires |pdu| <= 1498
    ensures var done := Slave.ProcessPdu(pos, m, pdu, 1498);
            && (done.replies.Some? <==>
                  Split(pdu).Some? && forall k :: 0 <= k < |Split(pdu).value| ==> |Split(pdu).value[k].data| <= 256)
            && (done.replies.Some? ==> |EncodeAll(done.replies.value)| == |pdu|)
  {
    hide Slave.RunPdu, EncodeAll, Split;
    SlaveRuns.PduSucceedsIff(pos, m, pdu, 1498);
    if Slave.ProcessPdu(pos, m, pdu, 1498).replies.Some? {
      Slave.RepliesFit(pos, m, Split(pdu).value, 1498);
      FrameLaws.EncodeOfSplit(pdu);
    }
  }

  lemma SameWord(f: seq<u8>, g: seq<u8>)
    requires |f| >= 16 && |g| >= 16 && U16(f[14], f[15]) == U16(g[14], g[15]) && f[12] == g[12] && f[13] == g[13]
    ensures f[12..16] == g[12..16]
  {
    Le16OfU16(f[14], f[15]);
    Le16OfU16(g[14], g[15]);
    assert [f[14], f[15]] == [g[14], g[15]];
  }

  /** A mailbox buffer is in use: activate bit, mailbox mode and a length, in the eight bytes from 0x0800 + 8 * i on. */
  predicate Usable(m: Mem, i: nat)
    requires i < 2
  {
    var b := 0x800 + 8 * i;
    m[b + 6] % 2 == 1 && m[b + 4] % 4 == 2 && (m[b + 2] != 0 || m[b + 3] != 0)
  }

  /** The mailbox test before PREOP looks at both buffers. */
  lemma PairIff(m: Mem)
    ensures SM.ValidPair(m) <==> Usable(m, 0) && Usable(m, 1)
  {
    UsableMeans(m, 0);
    UsableMeans(m, 1);
  }

  /** The registers after a control word, 0x0120, in the state of the low nibble of 0x0130. Asking for that state, and
      acknowledging another one, does nothing; an acknowledge of the state, a request for INIT and one along the five
      edges, the first only with both mailboxes, leave the state without error; every other one is refused with the
      error bit and a code in 0x0134. */
  lemma ControlByRegisters(m: Mem)
    ensures var n := Al.OnControl(m);
            var req, cur, ack := m[0x120] % 0x10, m[0x130] % 0x10, m[0x120] / 0x10 % 2 == 1;
            if ack <==> req != cur then n == m
            else
              var granted := ack || req == 1
                             || ((cur, req) in {(1, 2), (2, 4), (4, 8), (8, 4), (4, 2)}
                                 && (cur == 1 ==> Usable(m, 0) && Usable(m, 1)));
              && n[0x130] == (if granted then req else cur + 0x10) && n[0x131] == 0
              && n[0x135] == 0
              && n[0x134] == (if granted then 0 else if req == 3 then 0x13
                              else if (cur, req) == (1, 2) then 0x16 else 0x11)
              && forall a :: 0 <= a < SIZE && a !in {0x130, 0x131, 0x134, 0x135} ==> n[a] == m[a]
  {
    hide Al.WriteStatus, Al.Decide, Al.StatusWord, SM.ValidPair, Usable, U16;
    PairIff(m);
    LowBits(m[0x120], m[0x121]);
    LowBits(m[0x130], m[0x131]);
    var req, cur, ack := m[0x120] % 0x10, m[0x130] % 0x10, m[0x120] / 0x10 % 2 == 1;
    var d := Al.Decide(ReadU16(m, 0x120), cur, SM.ValidPair(m));
    assert Al.OnControl(m) == Al.Apply(m, d);
    Decided(ReadU16(m, 0x120), req, ack, cur, SM.ValidPair(m));
    if d.Set? {
      var n := Al.WriteStatus(m, Al.StatusWord(d), d.code);
      SmallWord(n[0x130], n[0x131]);
      SmallWord(n[0x134], n[0x135]);
    }
  }

  lemma LowBits(lo: u8, hi: u8)
    ensures var w := U16(lo, hi); w % 0x10 == lo % 0x10 && w / 0x10 % 2 == lo / 0x10 % 2
  {
    var q: int, r: int := lo / 0x10, lo % 0x10;
    var w: int := U16(lo, hi);
    assert w == 0x10 * (q + 0x10 * hi) + r;
    assert w / 0x10 == q + 2 * (8 * hi);
  }

  lemma SmallWord(lo: u8, hi: u8)
    ensures U16(lo, hi) < 0x100 ==> lo == U16(lo, hi) && hi == 0
  {
  }

  lemma Decided(control: u16, req: nat, ack: bool, cur: nat, pair: bool)
    requires control % 0x10 == req && (control / 0x10 % 2 == 1) == ack && cur < 0x10
    ensures var d := Al.Decide(control, cur, pair);
            var granted := ack || req == 1
                           || ((cur, req) in {(1, 2), (2, 4), (4, 8), (8, 4), (4, 2)} && (cur == 1 ==> pair));
            if ack <==> req != cur then d == Al.Keep
            else
              && d.Set? && Al.StatusWord(d) == (if granted then req else cur + 0x10)
              && d.code == (if granted then 0 else if req == 3 then 0x13
                            else if (cur, req) == (1, 2) then 0x16 else 0x11)
  {
  }

  function Start(m: Mem, i: nat): nat
    requires i < 2
  {
    var b := 0x800 + 8 * i;
    U16(m[b], m[b + 1])
  }

  function Length(m: Mem, i: nat): nat
    requires i < 2
  {
    var b := 0x800 + 8 * i;
    U16(m[b + 2], m[b + 3])
  }

  /** The mailbox flag, bit 3 of the status byte. */
  predicate Flag(m: Mem, i: nat)
    requires i < 2
  {
    m[0x805 + 8 * i] / 8 % 2 == 1
  }

  /** An access that starts in the buffer and whose last byte is the buffer's last byte. */
  predicate Completes(m: Mem, i: nat, ado: nat, len: nat)
    requires i < 2
  {
    var last := Start(m, i) + Length(m, i) - 1;
    Usable(m, i) && Start(m, i) <= ado <= last == ado + len - 1
  }

  /** A write raises SM0's flag exactly when it completes a usable SM0, a read lowers SM1's exactly when it completes a
      usable SM1, and nothing else changes either flag. */
  lemma FlagsIff(m: Mem, ado: u16, len: nat)
    ensures Flag(Mailbox.OnSm0Write(m, ado, len), 0) <==> Flag(m, 0) || Completes(m, 0, ado, len)
    ensures Flag(Mailbox.OnSm1Read(m, ado, len), 1) <==> Flag(m, 1) && !Completes(m, 1, ado, len)
    ensures Flag(Mailbox.OnSm0Write(m, ado, len), 1) == Flag(m, 1)
    ensures Flag(Mailbox.OnSm1Read(m, ado, len), 0) == Flag(m, 0)
  {
    hide Mailbox.OnSm0Write, Mailbox.OnSm1Read, U16;
    Mailbox.HandshakeFrame(m, ado, len);
    CompletesMeans(m, 0, ado, len);
    CompletesMeans(m, 1, ado, len);
    SM.FullAfter(m, 0);
    SM.FullAfter(m, 1);
    FlagUnfolds(m, ado, len);
  }

  lemma FlagUnfolds(m: Mem, ado: u16, len: nat)
    ensures Mailbox.OnSm0Write(m, ado, len)
            == if len > 0 && SM.Read(m, 0).Usable() && Mailbox.EndsAt(SM.Read(m, 0), ado, len) then SM.SetFull(m, 0)
               else m
    ensures Mailbox.OnSm1Read(m, ado, len)
            == if len > 0 && SM.Read(m, 1).Usable() && Mailbox.EndsAt(SM.Read(m, 1), ado, len) then SM.ClearFull(m, 1)
               else m
  {
  }

  lemma CompletesMeans(m: Mem, i: nat, ado: u16, len: nat)
    requires i < 2
    ensures Completes(m, i, ado, len)
            <==> len > 0 && SM.Read(m, i).Usable() && Mailbox.EndsAt(SM.Read(m, i), ado, len)
  {
    hide SM.Read, Usable, Start, Length;
    UsableMeans(m, i);
    LengthOfUsable(m, i);
  }

  lemma LengthOfUsable(m: Mem, i: nat)
    requires i < 2
    ensures Usable(m, i) ==> Length(m, i) > 0
  {
  }

  lemma UsableMeans(m: Mem, i: nat)
    requires i < 2
    ensures var sm := SM.Read(m, i);
            (sm.Usable() <==> Usable(m, i)) && sm.start == Start(m, i) && sm.length == Length(m, i)
  {
  }

  /** The SM1 buffer takes a reply exactly when it is usable, lies in the mirror and is long enough for one that is not
      empty; then it holds the reply and zeros behind it, and its flag is up. Nothing else changes. */
  lemma ReplyTakenIff(m: Mem, frame: seq<u8>)
    ensures var n := Mailbox.WriteSm1(m, frame);
            if Usable(m, 1) && 0 < |frame| <= Length(m, 1) && Start(m, 1) + Length(m, 1) <= 4096 then
              && Flag(n, 1)
              && forall a :: 0 <= a < SIZE && a != 0x80D ==>
                   n[a] == if a < Start(m, 1) || Start(m, 1) + Length(m, 1) <= a then m[a]
                           else if a < Start(m, 1) + |frame| then frame[a - Start(m, 1)] else 0
            else n == m
  {
    hide SM.Read, U16;
    UsableMeans(m, 1);
    if Mailbox.AcceptsReply(m, |frame|) {
      var written := Splice(m, Start(m, 1), Padded(frame, Length(m, 1)));
      SM.FullAfter(written, 1);
      assert Padded(frame, Length(m, 1)) == frame + Zeros(Length(m, 1) - |frame|);
    }
  }

  /** A request goes to the server exactly when SM0 is usable, full and in the mirror, and then it is SM0's buffer. */
  lemma RequestReadyIff(m: Mem)
    ensures Controller.RequestReady(m) <==> Usable(m, 0) && Flag(m, 0) && Start(m, 0) + Length(m, 0) <= 4096
    ensures Controller.RequestReady(m) ==>
              Controller.Request(m) == m[Start(m, 0)..Start(m, 0) + Length(m, 0)]
  {
    UsableMeans(m, 0);
  }

  /** Where the fields of a mailbox header are (section 5.6 of ETG.1000.6). */
  lemma HeaderLayout(h: Mailbox.Header)
    requires Mailbox.ValidHeader(h)
    ensures var b := Mailbox.EncodeHeader(h);
            && |b| == 6 && U16(b[0], b[1]) == h.length && U16(b[2], b[3]) == h.address
            && b[4] == h.channel + 64 * h.priority && b[5] == h.msgType + 16 * h.counter
  {
    hide Le16, U16;
    var b := Mailbox.EncodeHeader(h);
    assert b[0] == Le16(h.length)[0] && b[1] == Le16(h.length)[1];
    assert b[2] == Le16(h.address)[0] && b[3] == Le16(h.address)[1];
    Le16RoundTrip(h.length);
    Le16RoundTrip(h.address);
  }
}
