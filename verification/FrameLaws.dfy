/** What the codec promises: encoding and splitting are inverse, and a PDU splits in at most one way. */
module FrameLaws {
  import opened Bytes
  import opened Frame

  lemma EncodedParts(d: Dgram, rest: seq<u8>)
    ensures var b, n := Encode(d) + rest, |d.data|;
            && b[..10] == Header(d.cmd, d.idx, d.adp, d.ado, n, d.irq) && b[10..10 + n] == d.data
            && b[10 + n..12 + n] == Le16(d.wkc) && b[12 + n..] == rest
  {
    hide Header, Le16;
  }

  lemma SmallLength(n: u16)
    requires n < 0x800
    ensures Le16(n)[1] % 8 == Le16(n)[1]
  {
  }

  lemma EncodedHeader(cmd: u8, idx: u8, adp: u16, ado: u16, n: u16, irq: u16)
    ensures var h := Header(cmd, idx, adp, ado, n, irq);
            && h[0] == cmd && h[1] == idx && U16(h[2], h[3]) == adp && U16(h[4], h[5]) == ado
            && h[6..8] == Le16(n) && U16(h[6], h[7]) == n && U16(h[8], h[9]) == irq
  {
  }

  /** Counting and parsing give back any list of datagrams that was encoded. */
  lemma {:induction false} SplitOfEncode(ds: seq<Dgram>)
    ensures Split(EncodeAll(ds)) == Some(ds)
  {
    hide Encode, Le16, U16;
    if ds != [] {
      var d, rest := ds[0], EncodeAll(ds[1..]);
      var b, n := Encode(d) + rest, |d.data|;
      assert HasHead(b) && HeadSize(b) == |Encode(d)| && Head(b) == d && b[|Encode(d)|..] == rest by {
        EncodedParts(d, rest);
        EncodedHeader(d.cmd, d.idx, d.adp, d.ado, n, d.irq);
        SmallLength(n);
        assert forall k :: 0 <= k < 10 ==> b[k] == b[..10][k];
        assert b[10 + n..12 + n][0] == b[10 + n] && b[10 + n..12 + n][1] == b[11 + n];
        Le16RoundTrip(d.wkc);
      }
      SplitOfEncode(ds[1..]);
      assert [ds[0]] + ds[1..] == ds;
    }
  }

  /** Where each field of a datagram is on the wire (section 5.4 of ETG.1000.4). */
  lemma DatagramLayout(d: Dgram)
    ensures var b, n := Encode(d), |d.data|;
            && |b| == 12 + n && b[0] == d.cmd && b[1] == d.idx
            && U16(b[2], b[3]) == d.adp && U16(b[4], b[5]) == d.ado && U16(b[6], b[7]) == n && U16(b[8], b[9]) == d.irq
            && b[10..10 + n] == d.data && U16(b[10 + n], b[11 + n]) == d.wkc
  {
    hide Encode, Le16, U16, Header;
    var b, n := Encode(d), |d.data|;
    EncodedParts(d, []);
    assert b + [] == b;
    EncodedHeader(d.cmd, d.idx, d.adp, d.ado, n, d.irq);
    assert forall k :: 0 <= k < 10 ==> b[k] == b[..10][k];
    assert b[10 + n..12 + n][0] == b[10 + n] && b[10 + n..12 + n][1] == b[11 + n];
    Le16RoundTrip(d.wkc);
  }

  /** Where each part of a frame is: destination, source, EtherType 0x88A4, the length of reserved bytes and datagrams,
      two reserved bytes, the datagrams. */
  lemma FrameLayout(dst: seq<u8>, src: seq<u8>, payload: seq<u8>)
    requires |dst| == 6 && |src| == 6 && |payload| <= MAX_EC_PAYLOAD
    ensures var f := EthFrame(dst, src, payload);
            && |f| == 18 + |payload| && f[..6] == dst && f[6..12] == src && f[12] == 0x88 && f[13] == 0xA4
            && U16(f[14], f[15]) == 2 + |payload| && f[16..18] == [0, 0] && f[18..] == payload
  {
    hide Le16, U16;
    var f := EthFrame(dst, src, payload);
    assert f[14] == Le16(2 + |payload|)[0] && f[15] == Le16(2 + |payload|)[1];
    assert f[16..18] == Le16(0) == [0, 0] by {
      ZeroWord();
    }
    Le16RoundTrip(2 + |payload|);
  }

  lemma ZeroWord()
    ensures Le16(0) == [0, 0]
  {
  }

  /** A frame yields a payload exactly when it has EtherType and length field of a frame with that payload and holds it,
      whatever the addresses, the reserved bytes and the bytes behind it. */
  lemma PayloadIff(frame: seq<u8>, payload: seq<u8>)
    ensures EthPayload(frame) == Some(payload)
            <==> 18 + |payload| <= |frame| && frame[12] == 0x88 && frame[13] == 0xA4
                 && U16(frame[14], frame[15]) == 2 + |payload| && frame[18..18 + |payload|] == payload
  {
    if |frame| >= 18 {
      var lo: int, hi: int := frame[13], frame[12];
      assert U16(frame[13], frame[12]) == 0x88A4 <==> hi == 0x88 && lo == 0xA4;
    }
  }

  /** Item i of a PDU can be parsed exactly when it is there, has at most 1498 bytes and fits the caller's buffer. */
  lemma ParseIff(b: seq<u8>, i: nat, cap: Option<nat>)
    requires Split(b).Some?
    ensures Parse(b, i, cap)
            == if i < |Split(b).value| && |Split(b).value[i].data| <= 1498
                  && (cap.Some? ==> |Split(b).value[i].data| <= cap.value)
               then Some(Split(b).value[i]) else None
  {
    RecordOfSplit(b, i);
  }

  /** When the whole area splits, item i of the walk is item i of the split. */
  lemma {:induction false} RecordOfSplit(b: seq<u8>, i: nat)
    requires Split(b).Some?
    ensures RecordAt(b, i) == if i < |Split(b).value| then Some(Split(b).value[i]) else None
    decreases i
  {
    if b != [] && i > 0 {
      RecordOfSplit(b[HeadSize(b)..], i - 1);
    }
  }

  /** The round trip of the codec: any list of datagrams of at most 1498 bytes is counted and parsed back. */
  lemma CodecRoundTrip(ds: seq<Dgram>, i: nat)
    requires i < |ds| && |ds[i].data| <= MAX_DATA
    ensures Split(EncodeAll(ds)) == Some(ds)
    ensures Parse(EncodeAll(ds), i, Some(MAX_DATA)) == Some(ds[i])
  {
    SplitOfEncode(ds);
    RecordOfSplit(EncodeAll(ds), i);
  }

  /** One record: a byte string that is exactly one datagram. */
  predicate IsRecord(b: seq<u8>) {
    HasHead(b) && HeadSize(b) == |b|
  }

  predicate AreRecords(parts: seq<seq<u8>>) {
    forall k :: 0 <= k < |parts| ==> IsRecord(parts[k])
  }

  /** The cut that the walk makes. */
  function Records(b: seq<u8>): seq<seq<u8>>
    requires Split(b).Some?
    decreases |b|
  {
    if b == [] then [] else [b[..HeadSize(b)]] + Records(b[HeadSize(b)..])
  }

  lemma {:induction false} RecordsCut(b: seq<u8>)
    requires Split(b).Some?
    ensures AreRecords(Records(b)) && Flatten(Records(b)) == b
    ensures |Records(b)| == |Split(b).value|
    decreases |b|
  {
    hide IsRecord, HasHead, HeadSize, Head;
    if b != [] {
      var first, rest := b[..HeadSize(b)], b[HeadSize(b)..];
      RecordsCut(rest);
      FirstRecord(b);
      assert Records(b) == [first] + Records(rest);
      assert Records(b)[1..] == Records(rest);
      assert Flatten(Records(b)) == first + Flatten(Records(rest));
    }
  }

  lemma FirstRecord(b: seq<u8>)
    requires HasHead(b)
    ensures IsRecord(b[..HeadSize(b)])
  {
  }

  lemma {:induction false} CutUnique(b: seq<u8>, parts: seq<seq<u8>>)
    requires AreRecords(parts) && Flatten(parts) == b
    ensures Split(b).Some? && Records(b) == parts
    decreases |parts|
  {
    if parts != [] {
      var rest := Flatten(parts[1..]);
      assert b == parts[0] + rest;
      assert IsRecord(parts[0]);
      assert b[6] == parts[0][6] && b[7] == parts[0][7];
      assert HeadSize(b) == |parts[0]|;
      assert b[HeadSize(b)..] == rest && b[..HeadSize(b)] == parts[0];
      CutUnique(rest, parts[1..]);
      assert parts == [parts[0]] + parts[1..];
    }
  }

  /** A PDU is accepted if and only if it is a concatenation of records, and then in one way only. */
  lemma CountIffRecords(b: seq<u8>)
    ensures Split(b).Some? <==> exists parts :: AreRecords(parts) && Flatten(parts) == b
    ensures forall p, q :: AreRecords(p) && AreRecords(q) && Flatten(p) == b && Flatten(q) == b ==> p == q
  {
    if Split(b).Some? {
      RecordsCut(b);
    }
    forall parts | AreRecords(parts) && Flatten(parts) == b
      ensures Split(b).Some? && Records(b) == parts
    {
      CutUnique(b, parts);
    }
  }

  /** A PDU with the five bits above each 11-bit length cleared. */
  function ClearLenFlags(b: seq<u8>): (r: seq<u8>)
    requires Split(b).Some?
    ensures |r| == |b|
    decreases |b|
  {
    if b == [] then []
    else b[..HeadSize(b)][7 := b[7] % 8] + ClearLenFlags(b[HeadSize(b)..])
  }

  /** The length is the lower 11 bits of the length word. */
  lemma LengthBits(b: seq<u8>)
    requires |b| >= HDR_LEN + WKC_LEN
    ensures LenField(b) == U16(b[6], b[7]) % 0x800 == U16(b[6], b[7] % 8)
  {
    var low: int, high: int := b[7] % 8, b[7] / 8;
    assert U16(b[6], b[7]) == b[6] + 0x100 * low + 0x800 * high;
  }

  /** Re-encoding the parsed datagrams gives the PDU back, up to the dropped bits of the length words. */
  lemma {:induction false} EncodeOfSplit(b: seq<u8>)
    requires Split(b).Some?
    ensures EncodeAll(Split(b).value) == ClearLenFlags(b)
    decreases |b|
  {
    hide Le16, U16, LenField;
    if b != [] {
      assert Encode(Head(b)) == b[..HeadSize(b)][7 := b[7] % 8] by {
        var n := LenField(b);
        LengthBits(b);
        Le16OfU16(b[2], b[3]);
        Le16OfU16(b[4], b[5]);
        Le16OfU16(b[6], b[7] % 8);
        Le16OfU16(b[8], b[9]);
        Le16OfU16(b[10 + n], b[11 + n]);
        var header := [b[0], b[1]] + [b[2], b[3]] + [b[4], b[5]] + [b[6], b[7] % 8] + [b[8], b[9]];
        assert Encode(Head(b)) == header + b[10..10 + n] + [b[10 + n], b[11 + n]];
        assert header == b[..10][7 := b[7] % 8];
      }
      EncodeOfSplit(b[HeadSize(b)..]);
      assert Split(b).value[1..] == Split(b[HeadSize(b)..]).value;
    }
  }

  lemma {:induction false} EncodeAllAppend(a: seq<Dgram>, b: seq<Dgram>)
    ensures EncodeAll(a + b) == EncodeAll(a) + EncodeAll(b)
  {
    if a == [] {
      assert a + b == b;
    } else {
      assert (a + b)[1..] == a[1..] + b;
      EncodeAllAppend(a[1..], b);
    }
  }

  /** Splitting a concatenation of two well-formed PDUs. */
  lemma {:induction false} SplitAppend(a: seq<u8>, b: seq<u8>)
    requires Split(a).Some?
    ensures Split(a + b) == Prepend(Split(a).value, Split(b))
    decreases |a|
  {
    if a == [] {
      assert a + b == b;
      assert Split(b).Some? ==> [] + Split(b).value == Split(b).value;
    } else {
      HeadOfAppend(a, b);
      SplitAppend(a[HeadSize(a)..], b);
      PrependTwice([Head(a)], Split(a[HeadSize(a)..]).value, Split(b));
    }
  }

  lemma PrependTwice(a: seq<Dgram>, b: seq<Dgram>, rest: Option<seq<Dgram>>)
    ensures Prepend(a, Prepend(b, rest)) == Prepend(a + b, rest)
  {
    if rest.Some? {
      assert a + (b + rest.value) == a + b + rest.value;
    }
  }

  lemma HeadOfAppend(a: seq<u8>, b: seq<u8>)
    requires HasHead(a)
    ensures HasHead(a + b) && HeadSize(a + b) == HeadSize(a) && Head(a + b) == Head(a)
    ensures (a + b)[HeadSize(a)..] == a[HeadSize(a)..] + b
  {
    assert forall i :: 0 <= i < |a| ==> (a + b)[i] == a[i];
    var n := LenField(a);
    assert (a + b)[10..10 + n] == a[10..10 + n];
  }

  /** A frame built from a payload yields it back, with or without trailing padding. */
  lemma FrameRoundTrip(dst: seq<u8>, src: seq<u8>, payload: seq<u8>, padding: seq<u8>)
    requires |dst| == 6 && |src| == 6 && |payload| <= MAX_EC_PAYLOAD
    ensures EthPayload(EthFrame(dst, src, payload) + padding) == Some(payload)
    ensures EthPayload(EthFrame(dst, src, payload)) == Some(payload)
  {
    var f := EthFrame(dst, src, payload);
    var g := f + padding;
    assert f[12] == ETHERTYPE / 0x100 && f[13] == ETHERTYPE % 0x100;
    assert f[14] == Le16(2 + |payload|)[0] && f[15] == Le16(2 + |payload|)[1];
    assert f[18..16 + U16(f[14], f[15])] == payload;
    assert g[18..16 + U16(g[14], g[15])] == payload;
  }
}
