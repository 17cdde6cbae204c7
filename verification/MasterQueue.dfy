/** The master's datagram queue: encoded datagrams wait in order and go out in as few frames as possible. */
module MasterQueue {
  import opened Bytes
  import opened Frame
  import FrameLaws

  const Q_MAX := 32
  /** Room for one encoded datagram. */
  const DGRAM_BUF := 512

  type Wires = seq<seq<u8>>

  /** Every entry fits into a frame of its own. */
  predicate Sendable(q: Wires) {
    forall k :: 0 <= k < |q| ==> |q[k]| <= MAX_EC_PAYLOAD
  }

  /** How many entries from the front fit into `room` bytes. */
  function Fitting(q: Wires, room: nat): (n: nat)
    ensures n <= |q| && |Flatten(q[..n])| <= room
  {
    if q == [] || |q[0]| > room then 0
    else
      var n := Fitting(q[1..], room - |q[0]|);
      assert q[..n + 1][0] == q[0] && q[..n + 1][1..] == q[1..][..n];
      n + 1
  }

  /** The entries of each frame. */
  function Batches(q: Wires): seq<Wires>
    requires Sendable(q)
    decreases |q|
  {
    if q == [] then []
    else
      var n := Fitting(q, MAX_EC_PAYLOAD);
      [q[..n]] + Batches(q[n..])
  }

  function Join(batches: seq<Wires>): Wires {
    if batches == [] then [] else batches[0] + Join(batches[1..])
  }

  predicate Fits(batches: seq<Wires>) {
    forall k :: 0 <= k < |batches| ==> |Flatten(batches[k])| <= MAX_EC_PAYLOAD
  }

  /** The frames hold the queue in order, cut only between entries, none empty and none too large. */
  lemma {:induction false} BatchesConserve(q: Wires)
    requires Sendable(q)
    ensures Join(Batches(q)) == q && Fits(Batches(q))
    ensures forall k :: 0 <= k < |Batches(q)| ==> Batches(q)[k] != []
    decreases |q|
  {
    if q != [] {
      var n := Fitting(q, MAX_EC_PAYLOAD);
      BatchesConserve(q[n..]);
      assert Batches(q) == [q[..n]] + Batches(q[n..]);
      assert Batches(q)[1..] == Batches(q[n..]);
      assert Join(Batches(q)) == q[..n] + Join(Batches(q[n..]));
      assert q == q[..n] + q[n..];
    }
  }

  /** A prefix that fits is no longer than the greedy one. */
  lemma {:induction false} GreedyLongest(q: Wires, room: nat, k: nat)
    requires k <= |q| && |Flatten(q[..k])| <= room
    ensures k <= Fitting(q, room)
    decreases |q|
  {
    if k > 0 {
      assert q[..k][0] == q[0] && q[..k][1..] == q[1..][..k - 1];
      GreedyLongest(q[1..], room - |q[0]|, k - 1);
    }
  }

  lemma {:induction false} FittingLater(q: Wires, k: nat)
    requires k <= Fitting(q, MAX_EC_PAYLOAD)
    ensures k + Fitting(q[k..], MAX_EC_PAYLOAD) >= Fitting(q, MAX_EC_PAYLOAD)
  {
    var n := Fitting(q, MAX_EC_PAYLOAD);
    assert q[..n] == q[..k] + q[k..][..n - k];
    FlattenAppend(q[..k], q[k..][..n - k]);
    GreedyLongest(q[k..], MAX_EC_PAYLOAD, n - k);
  }

  lemma BatchesStep(q: Wires)
    requires Sendable(q) && q != []
    ensures Fitting(q, MAX_EC_PAYLOAD) > 0
    ensures |Batches(q)| == 1 + |Batches(q[Fitting(q, MAX_EC_PAYLOAD)..])|
  {
  }

  lemma DropTwice(q: Wires, a: nat, b: nat)
    requires a <= b <= |q|
    ensures q[a..][b - a..] == q[b..]
  {
  }

  /** A shorter rest of the queue never needs more frames. */
  lemma {:induction false} SuffixNeedsNoMore(q: Wires, k: nat)
    requires Sendable(q) && k <= |q|
    ensures |Batches(q[k..])| <= |Batches(q)|
    decreases |q|
  {
    hide Fitting, Batches, Flatten;
    if k < |q| {
      var n := Fitting(q, MAX_EC_PAYLOAD);
      BatchesStep(q);
      if k >= n {
        DropTwice(q, n, k);
        SuffixNeedsNoMore(q[n..], k - n);
      } else {
        var later := Fitting(q[k..], MAX_EC_PAYLOAD);
        FittingLater(q, k);
        DropTwice(q, k, k + later);
        DropTwice(q, n, k + later);
        BatchesStep(q[k..]);
        SuffixNeedsNoMore(q[n..], k + later - n);
      }
    } else {
      NoBatches();
      assert q[k..] == [];
    }
  }

  lemma NoBatches()
    ensures Batches([]) == []
  {
  }

  /** No order-preserving cut into frames of legal size has fewer frames. */
  lemma {:induction false} FewestFrames(q: Wires, cut: seq<Wires>)
    requires Sendable(q) && Join(cut) == q && Fits(cut)
    ensures |Batches(q)| <= |cut|
    decreases |cut|
  {
    hide Fitting, Batches, Flatten;
    if q != [] {
      var first := cut[0];
      assert q[..|first|] == first && q[|first|..] == Join(cut[1..]);
      GreedyLongest(q, MAX_EC_PAYLOAD, |first|);
      var n := Fitting(q, MAX_EC_PAYLOAD);
      BatchesStep(q);
      DropTwice(q, |first|, n);
      SuffixNeedsNoMore(q[|first|..], n - |first|);
      FewestFrames(q[|first|..], cut[1..]);
    } else {
      NoBatches();
    }
  }

  /** The frames on the wire. */
  function Frames(dst: seq<u8>, src: seq<u8>, batches: seq<Wires>): seq<seq<u8>>
    requires |dst| == 6 && |src| == 6 && Fits(batches)
  {
    if batches == [] then [] else [EthFrame(dst, src, Flatten(batches[0]))] + Frames(dst, src, batches[1..])
  }

  function Encoded(ds: seq<Dgram>): (q: Wires)
    ensures |q| == |ds|
  {
    if ds == [] then [] else [Encode(ds[0])] + Encoded(ds[1..])
  }

  lemma {:induction false} EncodedAt(ds: seq<Dgram>, k: nat)
    requires k < |ds|
    ensures Encoded(ds)[k] == Encode(ds[k])
  {
    if k > 0 {
      EncodedAt(ds[1..], k - 1);
    }
  }

  lemma {:induction false} EncodedAppend(a: seq<Dgram>, b: seq<Dgram>)
    ensures Encoded(a + b) == Encoded(a) + Encoded(b)
  {
    if a == [] {
      assert a + b == b;
    } else {
      assert (a + b)[1..] == a[1..] + b;
      EncodedAppend(a[1..], b);
    }
  }

  lemma {:induction false} FlattenEncoded(ds: seq<Dgram>)
    ensures Flatten(Encoded(ds)) == EncodeAll(ds)
  {
    if ds != [] {
      FlattenEncoded(ds[1..]);
      assert Encoded(ds)[1..] == Encoded(ds[1..]);
    }
  }

  /** What a receiver gets out of a sequence of frames: all their datagrams, or None if one is malformed. */
  function ReceiveAll(frames: seq<seq<u8>>): Option<seq<Dgram>> {
    if frames == [] then Some([])
    else
      match EthPayload(frames[0])
      case None => None
      case Some(pdu) =>
        match Split(pdu)
        case None => None
        case Some(ds) => Prepend(ds, ReceiveAll(frames[1..]))
  }

  lemma {:induction false} FramesReceived(dst: seq<u8>, src: seq<u8>, batches: seq<Wires>, ds: seq<Dgram>)
    requires |dst| == 6 && |src| == 6 && Fits(batches) && Join(batches) == Encoded(ds)
    ensures ReceiveAll(Frames(dst, src, batches)) == Some(ds)
    decreases |batches|
  {
    if batches != [] {
      var n := |batches[0]|;
      assert ds == ds[..n] + ds[n..];
      EncodedAppend(ds[..n], ds[n..]);
      assert batches[0] == Encoded(ds)[..n] == Encoded(ds[..n]);
      assert Join(batches[1..]) == Encoded(ds)[n..] == Encoded(ds[n..]);
      FlattenEncoded(ds[..n]);
      FrameLaws.SplitOfEncode(ds[..n]);
      FrameLaws.FrameRoundTrip(dst, src, Flatten(batches[0]), []);
      FramesReceived(dst, src, batches[1..], ds[n..]);
      var frames := Frames(dst, src, batches);
      assert frames[0] == EthFrame(dst, src, Flatten(batches[0])) && frames[1..] == Frames(dst, src, batches[1..]);
    } else {
      assert ds == [];
    }
  }

  /** The whole trip: whatever was queued arrives, in order, in the fewest frames. */
  lemma QueueDelivered(dst: seq<u8>, src: seq<u8>, ds: seq<Dgram>, cut: seq<Wires>)
    requires |dst| == 6 && |src| == 6 && Sendable(Encoded(ds))
    ensures Fits(Batches(Encoded(ds)))
    ensures ReceiveAll(Frames(dst, src, Batches(Encoded(ds)))) == Some(ds)
    ensures Join(cut) == Encoded(ds) && Fits(cut) ==> |Batches(Encoded(ds))| <= |cut|
  {
    hide Batches, ReceiveAll, Frames, Join, Encoded, Flatten;
    BatchesConserve(Encoded(ds));
    FramesReceived(dst, src, Batches(Encoded(ds)), ds);
    if Join(cut) == Encoded(ds) && Fits(cut) {
      FewestFrames(Encoded(ds), cut);
    }
  }

  class Queue {
    var entries: Wires
    var indexSeq: u8
    var open: bool
    const dst: seq<u8>
    const src: seq<u8>
    /** The frames handed to the transport. */
    var sent: seq<seq<u8>>
    /** The datagrams waiting in `entries`. */
    ghost var accepted: seq<Dgram>

    ghost predicate Valid()
      reads this
    {
      && |dst| == 6 && |src| == 6
      && |entries| <= Q_MAX && entries == Encoded(accepted)
      && forall k :: 0 <= k < |entries| ==> |entries[k]| <= DGRAM_BUF
    }

    constructor (dst: seq<u8>, src: seq<u8>)
      requires |dst| == 6 && |src| == 6
      ensures Valid() && accepted == [] && sent == [] && open && this.dst == dst && this.src == src && indexSeq == 0
    {
      this.dst, this.src := dst, src;
      entries, indexSeq, open, sent, accepted := [], 0, true, [], [];
    }

    method PushEncoded(wire: seq<u8>, ghost d: Dgram) returns (ok: bool)
      requires Valid() && wire == Encode(d)
      modifies this`entries, this`accepted
      ensures Valid()
      ensures ok == (|old(accepted)| < Q_MAX && |wire| <= DGRAM_BUF)
      ensures accepted == if ok then old(accepted) + [d] else old(accepted)
    {
      if |entries| >= Q_MAX {
        return false;
      }
      if |wire| > DGRAM_BUF {
        return false;
      }
      EncodedAppend(accepted, [d]);
      assert Encoded([d]) == [Encode(d)] + Encoded([d][1..]);
      entries := entries + [wire];
      accepted := accepted + [d];
      ok := true;
    }

    /** Queues a datagram with the next index; it is dropped when it is too long or the queue is full. */
    method Enqueue(cmd: u8, adp: u16, ado: u16, len: u16, data: Option<seq<u8>>)
      requires Valid() && (data.Some? ==> |data.value| == len)
      modifies this`entries, this`accepted, this`indexSeq
      ensures Valid() && indexSeq == (old(indexSeq) + 1) % 0x100
      ensures var fits := |old(accepted)| < Q_MAX && WireSize(len) <= DGRAM_BUF;
              var body := if data.Some? then data.value else Zeros(len);
              accepted == if fits then old(accepted) + [Datagram(cmd, old(indexSeq), adp, ado, 0, body, 0)]
                          else old(accepted)
    {
      var tmp := new u8[DGRAM_BUF];
      var idx := indexSeq;
      indexSeq := (indexSeq + 1) % 0x100;
      var n := DgramEncode(tmp, 0, DGRAM_BUF, cmd, idx, adp, ado, len, 0, 0, data);
      if n < 0 {
        return;
      }
      ghost var d := Datagram(cmd, idx, adp, ado, 0, if data.Some? then data.value[..len] else Zeros(len), 0);
      assert data.Some? ==> data.value[..len] == data.value;
      assert tmp[..n] == Encode(d);
      var ok := PushEncoded(tmp[..n], d);
    }

    method QueueFprd(adp: u16, ado: u16, len: u16)
      requires Valid()
      modifies this`entries, this`accepted, this`indexSeq
      ensures Valid() && indexSeq == (old(indexSeq) + 1) % 0x100
      ensures accepted == if |old(accepted)| < Q_MAX && WireSize(len) <= DGRAM_BUF
                          then old(accepted) + [Datagram(CMD_FPRD, old(indexSeq), adp, ado, 0, Zeros(len), 0)]
                          else old(accepted)
    {
      Enqueue(CMD_FPRD, adp, ado, len, None);
    }

    method QueueFpwr(adp: u16, ado: u16, data: seq<u8>)
      requires Valid() && |data| < 0x1_0000
      modifies this`entries, this`accepted, this`indexSeq
      ensures Valid() && indexSeq == (old(indexSeq) + 1) % 0x100
      ensures accepted == if |old(accepted)| < Q_MAX && WireSize(|data|) <= DGRAM_BUF
                          then old(accepted) + [Datagram(CMD_FPWR, old(indexSeq), adp, ado, 0, data, 0)]
                          else old(accepted)
    {
      Enqueue(CMD_FPWR, adp, ado, |data|, Some(data));
    }

    /** Sends the queue in frames filled from the front, and empties it. */
    method SendBatched()
      requires Valid()
      modifies this`entries, this`accepted, this`sent
      ensures Valid()
      ensures !open ==> accepted == old(accepted) && sent == old(sent)
      ensures open ==> accepted == [] && Sendable(old(entries)) && Fits(Batches(old(entries)))
                       && sent == old(sent) + Frames(dst, src, Batches(old(entries)))
    {
      if !open {
        return;
      }
      assert Sendable(entries);
      SendAll(entries);
      entries := [];
      accepted := [];
    }

    method SendAll(q: Wires)
      requires |dst| == 6 && |src| == 6 && Sendable(q)
      modifies this`sent
      ensures Fits(Batches(q)) && sent == old(sent) + Frames(dst, src, Batches(q))
    {
      hide Batches, Frames, Fitting, Flatten, Fits;
      BatchesConserve(q);
      assert q[0..] == q;
      var i := 0;
      while i < |q|
        invariant 0 <= i <= |q| && Fits(Batches(q[i..]))
        invariant sent + Frames(dst, src, Batches(q[i..])) == old(sent) + Frames(dst, src, Batches(q))
      {
        ghost var n0 := Fitting(q[i..], MAX_EC_PAYLOAD);
        FramesNext(q[i..]);
        DropTwice(q, i, i + n0);
        FramesAppend(sent, EthFrame(dst, src, Flatten(q[i..][..n0])), Frames(dst, src, Batches(q[i + n0..])));
        var n := SendFrame(q, i);
        i := i + n;
      }
      NoFrames(q[i..]);
    }

    lemma NoFrames(q: Wires)
      requires |dst| == 6 && |src| == 6 && q == []
      ensures Sendable(q) && Fits(Batches(q)) && Frames(dst, src, Batches(q)) == []
    {
    }

    /** Fills one frame from entry `start` on and sends it. */
    method SendFrame(q: Wires, start: nat) returns (n: nat)
      requires |dst| == 6 && |src| == 6 && start < |q|
      modifies this`sent
      ensures n == Fitting(q[start..], MAX_EC_PAYLOAD)
      ensures sent == old(sent) + [EthFrame(dst, src, Flatten(q[start..][..n]))]
    {
      var ecBuf := new u8[MAX_EC_PAYLOAD];
      var off: nat;
      n, off := FillFrame(q, start, ecBuf);
      var frame := new u8[1600];
      var len := BuildEthFrame(dst, src, ecBuf[..off], frame, 1600);
      assert frame[..len] == EthFrame(dst, src, ecBuf[..off]);
      sent := sent + [frame[..len]];
    }

    /** Copies entries from `start` on into the frame buffer while they fit. */
    method FillFrame(q: Wires, start: nat, ecBuf: array<u8>) returns (n: nat, off: nat)
      requires start < |q| && ecBuf.Length == MAX_EC_PAYLOAD
      modifies ecBuf
      ensures n == Fitting(q[start..], MAX_EC_PAYLOAD)
      ensures off <= MAX_EC_PAYLOAD && ecBuf[..off] == Flatten(q[start..][..n])
    {
      hide Flatten, Fitting;
      off := 0;
      var i := start;
      ghost var rest := q[start..];
      FlattenNothing(rest);
      while i < |q|
        invariant start <= i <= |q| && off <= MAX_EC_PAYLOAD
        invariant ecBuf[..off] == Flatten(rest[..i - start])
        invariant Fitting(rest, MAX_EC_PAYLOAD) == i - start + Fitting(q[i..], MAX_EC_PAYLOAD - off)
      {
        FittingNext(q, i, MAX_EC_PAYLOAD - off);
        if off + |q[i]| > MAX_EC_PAYLOAD {
          return i - start, off;
        }
        FlattenNext(rest, i - start);
        ghost var filled := ecBuf[..];
        Copy(ecBuf, off, q[i]);
        SplicePrefix(filled, off, q[i]);
        off := off + |q[i]|;
        i := i + 1;
      }
      FittingNothing(q[i..], MAX_EC_PAYLOAD - off);
      n := i - start;
    }

    lemma FramesAppend(a: seq<seq<u8>>, f: seq<u8>, b: seq<seq<u8>>)
      ensures a + [f] + b == a + ([f] + b)
    {
    }

    lemma FramesNext(q: Wires)
      requires |dst| == 6 && |src| == 6 && Sendable(q) && q != []
      ensures Fitting(q, MAX_EC_PAYLOAD) > 0
      ensures Fits(Batches(q)) && Fits(Batches(q[Fitting(q, MAX_EC_PAYLOAD)..]))
      ensures var n := Fitting(q, MAX_EC_PAYLOAD);
              Frames(dst, src, Batches(q)) == [EthFrame(dst, src, Flatten(q[..n]))] + Frames(dst, src, Batches(q[n..]))
    {
      BatchesConserve(q);
      BatchesConserve(q[Fitting(q, MAX_EC_PAYLOAD)..]);
    }
  }

  lemma FlattenNothing(q: Wires)
    ensures Flatten(q[..0]) == []
  {
  }

  lemma FittingNext(q: Wires, i: nat, room: nat)
    requires i < |q|
    ensures Fitting(q[i..], room) == if |q[i]| > room then 0 else 1 + Fitting(q[i + 1..], room - |q[i]|)
  {
    assert q[i..][0] == q[i] && q[i..][1..] == q[i + 1..];
  }

  lemma FittingNothing(q: Wires, room: nat)
    requires q == []
    ensures Fitting(q, room) == 0
  {
  }

  lemma FlattenNext(q: Wires, k: nat)
    requires k < |q|
    ensures Flatten(q[..k + 1]) == Flatten(q[..k]) + q[k]
  {
    assert q[..k + 1] == q[..k] + [q[k]];
    FlattenAppend(q[..k], [q[k]]);
    assert Flatten([q[k]]) == q[k] + Flatten([q[k]][1..]);
  }
}
