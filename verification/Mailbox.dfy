/** The SM0 (master to slave) and SM1 (slave to master) mailbox handshake on the mirror. */
module Mailbox {
  import opened Bytes
  import opened Esc
  import SM = SyncManager

  const HDR_LEN := 6

  datatype Header = Header(length: u16, address: u16, channel: u8, priority: u8, msgType: u8, counter: u8)

  /** The header fields fit their bit widths. */
  predicate ValidHeader(h: Header) {
    h.channel < 64 && h.priority < 4 && h.msgType < 16 && h.counter < 16
  }

  function DecodeHeader(frame: seq<u8>): Header
    requires |frame| >= HDR_LEN
  {
    Header(U16(frame[0], frame[1]), U16(frame[2], frame[3]), frame[4] % 64, frame[4] / 64, frame[5] % 16, frame[5] / 16)
  }

  /** Out-of-range fields are cut to their bit widths. */
  function EncodeHeader(h: Header): (b: seq<u8>)
    ensures |b| == HDR_LEN
  {
    Le16(h.length) + Le16(h.address) + [h.channel % 64 + 64 * (h.priority % 4), h.msgType % 16 + 16 * (h.counter % 16)]
  }

  /** The two fields of each of the last two bytes can be taken apart again. */
  lemma SixAndTwoBits(lo: int, hi: int)
    ensures var b := lo % 64 + 64 * (hi % 4); b % 64 == lo % 64 && b / 64 == hi % 4
  {
  }

  lemma FourAndFourBits(lo: int, hi: int)
    ensures var b := lo % 16 + 16 * (hi % 16); b % 16 == lo % 16 && b / 16 == hi % 16
  {
  }

  lemma HeaderOfBytes(frame: seq<u8>)
    requires |frame| == HDR_LEN
    ensures EncodeHeader(DecodeHeader(frame)) == frame && ValidHeader(DecodeHeader(frame))
  {
    hide Le16, U16;
    Le16OfU16(frame[0], frame[1]);
    Le16OfU16(frame[2], frame[3]);
    assert frame == [frame[0], frame[1]] + [frame[2], frame[3]] + [frame[4], frame[5]];
  }

  /** The two header codecs are inverse on all six-byte headers and on all headers whose fields fit. */
  lemma HeaderRoundTrip(h: Header, frame: seq<u8>)
    requires |frame| == HDR_LEN
    ensures DecodeHeader(EncodeHeader(h)) == h <==> ValidHeader(h)
    ensures EncodeHeader(DecodeHeader(frame)) == frame && ValidHeader(DecodeHeader(frame))
  {
    hide Le16, U16;
    var b := EncodeHeader(h);
    assert b[0] == Le16(h.length)[0] && b[1] == Le16(h.length)[1];
    assert b[2] == Le16(h.address)[0] && b[3] == Le16(h.address)[1];
    Le16RoundTrip(h.length);
    Le16RoundTrip(h.address);
    SixAndTwoBits(h.channel, h.priority);
    FourAndFourBits(h.msgType, h.counter);
    HeaderOfBytes(frame);
  }

  /** An access of `len` bytes at `ado` lies in the buffer of `sm` from some point to its last byte. */
  predicate EndsAt(sm: SM.Config, ado: nat, len: nat) {
    ado + len == sm.End() && sm.start <= ado
  }

  function OnSm0Write(m: Mem, ado: u16, len: nat): Mem {
    if len > 0 && SM.Read(m, 0).Usable() && EndsAt(SM.Read(m, 0), ado, len) then SM.SetFull(m, 0) else m
  }

  function OnSm1Read(m: Mem, ado: u16, len: nat): Mem {
    if len > 0 && SM.Read(m, 1).Usable() && EndsAt(SM.Read(m, 1), ado, len) then SM.ClearFull(m, 1) else m
  }

  lemma HandshakeFrame(m: Mem, ado: u16, len: nat)
    ensures forall a :: 0 <= a < SIZE && a != SM.StatusAddr(0) ==> OnSm0Write(m, ado, len)[a] == m[a]
    ensures forall a :: 0 <= a < SIZE && a != SM.StatusAddr(1) ==> OnSm1Read(m, ado, len)[a] == m[a]
  {
  }

  predicate AcceptsReply(m: Mem, len: nat) {
    var sm1 := SM.Read(m, 1);
    0 < len <= sm1.length && sm1.Usable() && sm1.End() <= SIZE
  }

  /** The reply at the start of SM1's buffer, zeros to its end, MBX_FULL set. */
  function WriteSm1(m: Mem, frame: seq<u8>): Mem {
    if AcceptsReply(m, |frame|) then
      SM.SetFull(Splice(m, SM.Read(m, 1).start, Padded(frame, SM.Read(m, 1).length)), 1)
    else m
  }

  method SetStatusFull(esc: array<u8>, i: nat)
    requires esc.Length == SIZE && i < 2
    modifies esc
    ensures esc[..] == SM.SetFull(old(esc[..]), i)
  {
    var a := SM.StatusAddr(i);
    esc[a] := if Bit3(esc[a]) then esc[a] else esc[a] + MBX_FULL;
  }

  method ClearStatusFull(esc: array<u8>, i: nat)
    requires esc.Length == SIZE && i < 2
    modifies esc
    ensures esc[..] == SM.ClearFull(old(esc[..]), i)
  {
    var a := SM.StatusAddr(i);
    esc[a] := if Bit3(esc[a]) then esc[a] - MBX_FULL else esc[a];
  }

  /** Puts a reply into SM1; an unread earlier reply is not looked at. */
  method WriteReply(esc: array<u8>, frame: seq<u8>) returns (r: int)
    requires esc.Length == SIZE
    modifies esc
    ensures r == if AcceptsReply(old(esc[..]), |frame|) then 0 else -1
    ensures esc[..] == WriteSm1(old(esc[..]), frame)
  {
    hide SM.Read, SM.SetFull, Splice;
    if |frame| == 0 {
      return -1;
    }
    var sm1 := SM.Read(esc[..], 1);
    if !sm1.Active() || !sm1.Mailbox() || sm1.length == 0 {
      return -1;
    }
    if |frame| > sm1.length {
      return -1;
    }
    if sm1.start + sm1.length > SIZE {
      return -1;
    }
    ghost var before := esc[..];
    assert AcceptsReply(before, |frame|);
    Copy(esc, sm1.start, frame);
    if |frame| < sm1.length {
      Copy(esc, sm1.start + |frame|, Zeros(sm1.length - |frame|));
      SpliceJoin(before, sm1.start, frame, Zeros(sm1.length - |frame|));
    } else {
      assert Padded(frame, sm1.length) == frame;
    }
    SetStatusFull(esc, 1);
    r := 0;
  }

  /** After a write: MBX_FULL of SM0 is set when the write ends at the last byte of its buffer. */
  method AfterSm0Write(esc: array<u8>, ado: u16, len: u16) returns (complete: bool)
    requires esc.Length == SIZE
    modifies esc
    ensures esc[..] == OnSm0Write(old(esc[..]), ado, len)
    ensures complete == (len > 0 && SM.Read(old(esc[..]), 0).Usable() && EndsAt(SM.Read(old(esc[..]), 0), ado, len))
  {
    if len == 0 {
      return false;
    }
    var sm0 := SM.Read(esc[..], 0);
    if !sm0.Active() || !sm0.Mailbox() || sm0.length == 0 {
      return false;
    }
    var bufferEnd: int, writeEnd: int := sm0.start + sm0.length, ado + len;
    if writeEnd != bufferEnd {
      return false;
    }
    if ado < sm0.start {
      return false;
    }
    SetStatusFull(esc, 0);
    complete := true;
  }

  /** After a read: MBX_FULL of SM1 is cleared when the read ends at the last byte of its buffer. */
  method AfterSm1Read(esc: array<u8>, ado: u16, len: u16)
    requires esc.Length == SIZE
    modifies esc
    ensures esc[..] == OnSm1Read(old(esc[..]), ado, len)
  {
    if len == 0 {
      return;
    }
    var sm1 := SM.Read(esc[..], 1);
    if !sm1.Active() || !sm1.Mailbox() || sm1.length == 0 {
      return;
    }
    var bufferEnd: int, readEnd: int := sm1.start + sm1.length, ado + len;
    if readEnd != bufferEnd {
      return;
    }
    if ado < sm1.start {
      return;
    }
    ClearStatusFull(esc, 1);
  }
}
