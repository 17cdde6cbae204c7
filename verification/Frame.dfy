/** The EtherCAT wire format: datagrams, PDUs (concatenated datagrams) and Ethernet frames. */
module Frame {
  import opened Bytes

  const HDR_LEN := 10
  const WKC_LEN := 2
  const MAX_DATA := 1498
  const MAX_EC_PAYLOAD := 1498
  const ETHERTYPE: u16 := 0x88A4

  const CMD_APWR: u8 := 0x02
  const CMD_FPRD: u8 := 0x04
  const CMD_FPWR: u8 := 0x05

  /** The fields of one datagram; the length word is the length of `data`. */
  datatype Datagram = Datagram(cmd: u8, idx: u8, adp: u16, ado: u16, irq: u16, data: seq<u8>, wkc: u16)

  /** The length word has 11 bits. */
  type Dgram = d: Datagram | |d.data| < 0x800 witness Datagram(0, 0, 0, 0, 0, [], 0)

  function WireSize(dataLen: nat): nat {
    HDR_LEN + dataLen + WKC_LEN
  }

  /** The bytes of one datagram on the wire. */
  function Encode(d: Dgram): (b: seq<u8>)
    ensures |b| == WireSize(|d.data|)
  {
    Header(d.cmd, d.idx, d.adp, d.ado, |d.data|, d.irq) + d.data + Le16(d.wkc)
  }

  function Header(cmd: u8, idx: u8, adp: u16, ado: u16, dataLen: u16, irq: u16): (b: seq<u8>)
    ensures |b| == HDR_LEN
  {
    [cmd, idx] + Le16(adp) + Le16(ado) + Le16(dataLen) + Le16(irq)
  }

  function EncodeAll(ds: seq<Dgram>): seq<u8> {
    if ds == [] then [] else Encode(ds[0]) + EncodeAll(ds[1..])
  }

  /** The length word without its 5 upper bits. */
  function LenField(b: seq<u8>): nat
    requires |b| >= HDR_LEN + WKC_LEN
  {
    var upper: int := b[7] / 8;
    U16(b[6], b[7]) - 0x800 * upper
  }

  /** The PDU area starts with a whole datagram. */
  predicate HasHead(b: seq<u8>) {
    |b| >= HDR_LEN + WKC_LEN && WireSize(LenField(b)) <= |b|
  }

  function HeadSize(b: seq<u8>): (n: nat)
    requires HasHead(b)
    ensures HDR_LEN + WKC_LEN <= n <= |b|
  {
    WireSize(LenField(b))
  }

  function Head(b: seq<u8>): Dgram
    requires HasHead(b)
  {
    var n := LenField(b);
    Datagram(b[0], b[1], U16(b[2], b[3]), U16(b[4], b[5]), U16(b[8], b[9]), b[10..10 + n], U16(b[10 + n], b[11 + n]))
  }

  /** The datagrams of a PDU area, or None when it is not a whole number of them. */
  function Split(b: seq<u8>): Option<seq<Dgram>>
    decreases |b|
  {
    if b == [] then Some([])
    else if !HasHead(b) then None
    else
      Prepend([Head(b)], Split(b[HeadSize(b)..]))
  }

  function Prepend(ds: seq<Dgram>, rest: Option<seq<Dgram>>): Option<seq<Dgram>> {
    if rest.None? then None else Some(ds + rest.value)
  }

  /** The number of datagrams, or -1. */
  function Count(b: seq<u8>): (n: int)
    ensures n >= -1
  {
    match Split(b) case Some(ds) => |ds| case None => -1
  }

  lemma CountStep(b: seq<u8>, off: nat)
    requires off <= |b| && HasHead(b[off..])
    ensures var next := off + HeadSize(b[off..]);
            next <= |b| && Count(b[off..]) == if Count(b[next..]) < 0 then -1 else 1 + Count(b[next..])
  {
    assert b[off..][HeadSize(b[off..])..] == b[off + HeadSize(b[off..])..];
  }

  lemma CountEnd(b: seq<u8>, off: nat)
    requires off <= |b|
    ensures off == |b| ==> Count(b[off..]) == 0
    ensures off < |b| && !HasHead(b[off..]) ==> Count(b[off..]) == -1
  {
  }

  /** The datagram reached by skipping `i` of them, whatever follows it. */
  function RecordAt(b: seq<u8>, i: nat): Option<Dgram>
    decreases i
  {
    if !HasHead(b) then None
    else if i == 0 then Some(Head(b))
    else RecordAt(b[HeadSize(b)..], i - 1)
  }

  lemma RecordStep(b: seq<u8>, off: nat, i: nat)
    requires off <= |b|
    ensures !HasHead(b[off..]) ==> RecordAt(b[off..], i) == None
    ensures HasHead(b[off..]) ==>
              var next := off + HeadSize(b[off..]);
              && next <= |b|
              && RecordAt(b[off..], i) == if i == 0 then Some(Head(b[off..])) else RecordAt(b[next..], i - 1)
  {
    if HasHead(b[off..]) {
      assert b[off..][HeadSize(b[off..])..] == b[off + HeadSize(b[off..])..];
    }
  }

  /** What a parse of datagram `i` yields; `cap` is the room for its data, None when no buffer is passed. */
  function Parse(b: seq<u8>, i: nat, cap: Option<nat>): Option<Dgram> {
    match RecordAt(b, i)
    case None => None
    case Some(d) =>
      if |d.data| > MAX_DATA then None
      else if cap.Some? && |d.data| > cap.value then None
      else Some(d)
  }

  /** DA, SA, EtherType, 2-byte length (which counts the 2 reserved bytes), reserved, datagrams. */
  function EthFrame(dst: seq<u8>, src: seq<u8>, payload: seq<u8>): (f: seq<u8>)
    requires |dst| == 6 && |src| == 6 && |payload| <= MAX_EC_PAYLOAD
    ensures |f| == 18 + |payload|
  {
    dst + src + [ETHERTYPE / 0x100, ETHERTYPE % 0x100] + Le16(2 + |payload|) + Le16(0) + payload
  }

  /** The datagram area of a received frame; bytes after it (padding) are ignored. */
  function EthPayload(frame: seq<u8>): Option<seq<u8>> {
    if |frame| < 18 then None
    else if U16(frame[13], frame[12]) != ETHERTYPE then None
    else
      var field := U16(frame[14], frame[15]);
      if field < 2 || |frame| < 16 + field then None
      else Some(frame[18..16 + field])
  }

  /** Encodes one datagram into `out` from `off` on, with `cap` bytes of room; -1 when it does not fit.
      No data buffer means zero bytes. */
  method DgramEncode(out: array<u8>, off: nat, cap: nat, cmd: u8, idx: u8, adp: u16, ado: u16,
                     dataLen: u16, irq: u16, wkc: u16, data: Option<seq<u8>>)
    returns (r: int)
    requires off + cap <= out.Length
    requires data.Some? ==> dataLen <= |data.value|
    modifies out
    ensures r == if dataLen > MAX_DATA || WireSize(dataLen) > cap then -1 else WireSize(dataLen)
    ensures r < 0 ==> out[..] == old(out[..])
    ensures r >= 0 ==>
              var body := if data.Some? then data.value[..dataLen] else Zeros(dataLen);
              out[..] == Splice(old(out[..]), off, Encode(Datagram(cmd, idx, adp, ado, irq, body, wkc)))
  {
    if dataLen > MAX_DATA {
      return -1;
    }
    var need := WireSize(dataLen);
    if need > cap {
      return -1;
    }
    ghost var base, done := out[..], Header(cmd, idx, adp, ado, dataLen, irq);
    PutHeader(out, off, cmd, idx, adp, ado, dataLen, irq);
    if dataLen > 0 && data.Some? {
      CopyNext(out, off, base, done, off + HDR_LEN, data.value[..dataLen]);
      done := done + data.value[..dataLen];
    } else if dataLen > 0 {
      CopyNext(out, off, base, done, off + HDR_LEN, Zeros(dataLen));
      done := done + Zeros(dataLen);
    }
    CopyNext(out, off, base, done, off + HDR_LEN + dataLen, Le16(wkc));
    ghost var body := if data.Some? then data.value[..dataLen] else Zeros(dataLen);
    assert done == Header(cmd, idx, adp, ado, dataLen, irq) + body;
    r := need;
  }

  method PutHeader(out: array<u8>, off: nat, cmd: u8, idx: u8, adp: u16, ado: u16, dataLen: u16, irq: u16)
    requires off + HDR_LEN <= out.Length
    modifies out
    ensures out[..] == Splice(old(out[..]), off, Header(cmd, idx, adp, ado, dataLen, irq))
  {
    ghost var base, done := out[..], [cmd, idx];
    Copy(out, off, [cmd, idx]);
    CopyNext(out, off, base, done, off + 2, Le16(adp));
    done := done + Le16(adp);
    CopyNext(out, off, base, done, off + 4, Le16(ado));
    done := done + Le16(ado);
    CopyNext(out, off, base, done, off + 6, Le16(dataLen));
    done := done + Le16(dataLen);
    CopyNext(out, off, base, done, off + 8, Le16(irq));
  }

  /** Walks to datagram `index` and decodes it. */
  method DgramParse(pdu: seq<u8>, index: nat, cap: Option<nat>) returns (r: Option<Dgram>)
    ensures r == Parse(pdu, index, cap)
  {
    hide RecordAt, Head, LenField;
    var off, i := 0, 0;
    assert pdu[0..] == pdu;
    while i <= index
      invariant 0 <= off <= |pdu| && 0 <= i <= index
      invariant RecordAt(pdu, index) == RecordAt(pdu[off..], index - i)
      decreases index + 1 - i
    {
      RecordStep(pdu, off, index - i);
      if off + HDR_LEN + WKC_LEN > |pdu| {
        return None;
      }
      var dgram := pdu[off..];
      var total := WireSize(LenField(dgram));
      if total > |dgram| {
        return None;
      }
      if i == index {
        var d := Head(dgram);
        if |d.data| > MAX_DATA || (cap.Some? && |d.data| > 0 && cap.value < |d.data|) {
          return None;
        }
        return Some(d);
      }
      off := off + total;
      i := i + 1;
    }
    assert false;
  }

  /** Counts the datagrams of a PDU area, or -1 when they do not fill it exactly. */
  method CountDatagrams(pdu: seq<u8>) returns (count: int)
    ensures count == Count(pdu)
  {
    hide Count, LenField;
    var off := 0;
    count := 0;
    assert pdu[0..] == pdu;
    while off + HDR_LEN + WKC_LEN <= |pdu|
      invariant 0 <= off <= |pdu| && 0 <= count
      invariant Count(pdu) == if Count(pdu[off..]) < 0 then -1 else count + Count(pdu[off..])
    {
      var dgram := pdu[off..];
      var total := WireSize(LenField(dgram));
      if total > |dgram| {
        CountEnd(pdu, off);
        return -1;
      }
      CountStep(pdu, off);
      off := off + total;
      count := count + 1;
    }
    CountEnd(pdu, off);
    if off != |pdu| {
      return -1;
    }
  }

  /** Builds a whole Ethernet frame; -1 when it exceeds the buffer or the payload limit. */
  method BuildEthFrame(dst: seq<u8>, src: seq<u8>, payload: seq<u8>, out: array<u8>, cap: nat) returns (r: int)
    requires |dst| == 6 && |src| == 6 && cap <= out.Length
    modifies out
    ensures r == if 18 + |payload| > cap || |payload| > MAX_EC_PAYLOAD then -1 else 18 + |payload|
    ensures r < 0 ==> out[..] == old(out[..])
    ensures r >= 0 ==> out[..] == Splice(old(out[..]), 0, EthFrame(dst, src, payload))
  {
    var ethLen := 14 + 4 + |payload|;
    if ethLen > cap {
      return -1;
    }
    if |payload| > MAX_EC_PAYLOAD {
      return -1;
    }
    ghost var base, done := out[..], dst;
    Copy(out, 0, dst);
    CopyNext(out, 0, base, done, 6, src);
    done := done + src;
    CopyNext(out, 0, base, done, 12, [ETHERTYPE / 0x100, ETHERTYPE % 0x100]);
    done := done + [ETHERTYPE / 0x100, ETHERTYPE % 0x100];
    CopyNext(out, 0, base, done, 14, Le16(2 + |payload|));
    done := done + Le16(2 + |payload|);
    CopyNext(out, 0, base, done, 16, Le16(0));
    done := done + Le16(0);
    CopyNext(out, 0, base, done, 18, payload);
    r := ethLen;
  }

  method ParseEthFrame(frame: seq<u8>) returns (r: Option<seq<u8>>)
    ensures r == EthPayload(frame)
  {
    if |frame| < 14 + 4 {
      return None;
    }
    if U16(frame[13], frame[12]) != ETHERTYPE {
      return None;
    }
    var field := U16(frame[14], frame[15]);
    if field < 2 {
      return None;
    }
    var area: int := field - 2;
    if |frame| < 14 + 4 + area {
      return None;
    }
    r := Some(frame[18..18 + area]);
  }
}
