/** Fixed-width integers, little-endian words and byte strings shared by every layer. */
module Bytes {

  type u8 = x: int | 0 <= x < 0x100
  type u16 = x: int | 0 <= x < 0x1_0000
  type u32 = x: int | 0 <= x < 0x1_0000_0000

  datatype Option<+T> = None | Some(value: T)

  /** Two bytes, least significant first. */
  function Le16(v: u16): (b: seq<u8>)
    ensures |b| == 2
  {
    [v % 0x100, v / 0x100]
  }

  function U16(lo: u8, hi: u8): u16 {
    lo + 0x100 * hi
  }

  /** Four bytes, least significant first. */
  function Le32(v: u32): (b: seq<u8>)
    ensures |b| == 4
  {
    [v % 0x100, v / 0x100 % 0x100, v / 0x1_0000 % 0x100, v / 0x100_0000]
  }

  function U32(b: seq<u8>): u32
    requires |b| == 4
  {
    U16(b[0], b[1]) + 0x1_0000 * U16(b[2], b[3])
  }

  lemma Le16RoundTrip(v: u16)
    ensures U16(Le16(v)[0], Le16(v)[1]) == v
    ensures var lo: int, hi: int := Le16(v)[0], Le16(v)[1]; lo + 0x100 * hi == v
  {
  }

  lemma Le16OfU16(lo: u8, hi: u8)
    ensures Le16(U16(lo, hi)) == [lo, hi]
  {
  }

  lemma Le32RoundTrip(v: u32)
    ensures U32(Le32(v)) == v
    ensures var a: int, b: int, c: int, d: int := Le32(v)[0], Le32(v)[1], Le32(v)[2], Le32(v)[3];
            a + 0x100 * b + 0x1_0000 * c + 0x100_0000 * d == v
  {
    var a, b, c := v % 0x100, v / 0x100, v / 0x1_0000;
    assert v == a + 0x100 * b;
    assert b == b % 0x100 + 0x100 * (b / 0x100);
    assert b / 0x100 == c;
    assert c == c % 0x100 + 0x100 * (c / 0x100);
    assert c / 0x100 == v / 0x100_0000;
  }

  predicate Bit0(b: nat) {
    b % 2 == 1
  }

  predicate Bit1(b: nat) {
    b / 2 % 2 == 1
  }

  predicate Bit3(b: nat) {
    b / 8 % 2 == 1
  }

  predicate Bit4(b: nat) {
    b / 0x10 % 2 == 1
  }

  /** A buffer after copying `src` over its bytes from `off` on. */
  function Splice(s: seq<u8>, off: nat, src: seq<u8>): (r: seq<u8>)
    requires off + |src| <= |s|
    ensures |r| == |s|
    ensures forall i :: 0 <= i < |s| ==> r[i] == if off <= i < off + |src| then src[i - off] else s[i]
  {
    s[..off] + src + s[off + |src|..]
  }

  function Zeros(n: nat): (z: seq<u8>)
    ensures |z| == n && forall i :: 0 <= i < n ==> z[i] == 0
  {
    seq(n, i => 0)
  }

  /** A request or reply put into a buffer of `n` bytes and padded with zeros. */
  function Padded(b: seq<u8>, n: nat): (r: seq<u8>)
    requires |b| <= n
    ensures |r| == n && r[..|b|] == b
  {
    b + Zeros(n - |b|)
  }

  function Flatten(parts: seq<seq<u8>>): seq<u8> {
    if parts == [] then [] else parts[0] + Flatten(parts[1..])
  }

  lemma {:induction false} FlattenAppend(a: seq<seq<u8>>, b: seq<seq<u8>>)
    ensures Flatten(a + b) == Flatten(a) + Flatten(b)
  {
    if a == [] {
      assert a + b == b;
    } else {
      assert (a + b)[1..] == a[1..] + b;
      FlattenAppend(a[1..], b);
    }
  }

  lemma SpliceNothing(s: seq<u8>, off: nat)
    requires off <= |s|
    ensures Splice(s, off, []) == s
  {
  }

  lemma SplicePrefix(s: seq<u8>, off: nat, a: seq<u8>)
    requires off + |a| <= |s|
    ensures Splice(s, off, a)[..off + |a|] == s[..off] + a
  {
  }

  /** Bytes added right behind the part of a buffer from `from` to `off`. */
  lemma SpliceNext(s: seq<u8>, from: nat, off: nat, src: seq<u8>)
    requires from <= off && off + |src| <= |s|
    ensures Splice(s, off, src)[from..off + |src|] == s[from..off] + src
    ensures Splice(s, off, src)[..from] == s[..from]
  {
  }

  lemma SpliceJoin(s: seq<u8>, off: nat, a: seq<u8>, b: seq<u8>)
    requires off + |a| + |b| <= |s|
    ensures Splice(Splice(s, off, a), off + |a|, b) == Splice(s, off, a + b)
  {
  }

  /** memcpy: `src` over the bytes of `a` from `off` on. */
  method Copy(a: array<u8>, off: nat, src: seq<u8>)
    requires off + |src| <= a.Length
    modifies a
    ensures a[..] == Splice(old(a[..]), off, src)
  {
    forall i | 0 <= i < |src| {
      a[off + i] := src[i];
    }
  }

  /** memcpy right after the bytes `done` that were already put at `off` over `base`. */
  method CopyNext(a: array<u8>, off: nat, ghost base: seq<u8>, ghost done: seq<u8>, at: nat, src: seq<u8>)
    requires |base| == a.Length && at == off + |done| && at + |src| <= a.Length
    requires a[..] == Splice(base, off, done)
    modifies a
    ensures a[..] == Splice(base, off, done + src)
  {
    Copy(a, at, src);
    SpliceJoin(base, off, done, src);
  }
}
