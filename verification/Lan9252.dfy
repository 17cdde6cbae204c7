/** The LAN9252 driver: chunked, aligned register access and FIFO access to process RAM equal a flat byte copy. */
module Lan9252 {
  import opened Bytes
  import opened Lan9252Chip

  /** Polls before a wait gives up. */
  const BUSY_MAX := 100000

  /** Addresses from here on are process RAM. */
  const PDRAM_BASE := 0x1000

  datatype Status = Ok | Invalid | Io | Timeout

  /** The size of the next indirect access. */
  function NextChunk(address: nat, len: nat): (n: nat)
    requires len > 0
    ensures 1 <= n <= 4 && n <= len
  {
    var size := if len > 4 then 4 else len;
    if address % 2 != 0 then 1
    else if address / 2 % 2 != 0 then (if size % 2 != 0 then 1 else 2)
    else if size == 3 then 1
    else size
  }

  /** The accesses that the chunk loop makes. */
  function Chunks(address: nat, len: nat): seq<Access>
    decreases len
  {
    if len == 0 then []
    else
      var n := NextChunk(address, len);
      [Access(address, n)] + Chunks(address + n, len - n)
  }

  lemma ChunkAccepted(address: nat, len: nat)
    requires len > 0 && address + len <= CORE_SIZE
    ensures Accepted(Access(address, NextChunk(address, len)))
  {
    var n := NextChunk(address, len);
    if n == 4 {
      assert address % 4 == 0;
    }
  }

  /** A chunk is the largest of the three access sizes that divides both the address and what is left, four bytes of
      it at most. */
  lemma ChunkIsLargest(address: nat, len: nat)
    requires len > 0
    ensures var n, left := NextChunk(address, len), if len < 4 then len else 4;
            && (n == 1 || n == 2 || n == 4) && address % n == 0 && left % n == 0
            && (address % 2 == 0 && left % 2 == 0 ==> n >= 2)
            && (address % 4 == 0 && left % 4 == 0 ==> n == 4)
  {
    var q := address / 2;
    if address % 2 == 0 {
      assert address == 2 * q && (address % 4 == 0 <==> q % 2 == 0);
    }
  }

  /** The accesses follow each other without gap or overlap, from `address` up to `end`. */
  predicate Tile(cs: seq<Access>, address: nat, end: nat)
    decreases |cs|
  {
    if cs == [] then address == end
    else cs[0].address == address && Accepted(cs[0]) && Tile(cs[1..], address + cs[0].size, end)
  }

  /** Every access is accepted by the chip, and together they cover the range once and in order. */
  lemma {:induction false} ChunksTile(address: nat, len: nat)
    requires address + len <= CORE_SIZE
    ensures Tile(Chunks(address, len), address, address + len)
    decreases len
  {
    if len > 0 {
      var n := NextChunk(address, len);
      ChunkAccepted(address, len);
      ChunksTile(address + n, len - n);
      assert Chunks(address, len)[1..] == Chunks(address + n, len - n);
    }
  }

  /** How far a range that starts at this alignment may exceed one access for each four bytes. */
  function Slack(alignment: nat): nat {
    if alignment == 0 then 9 else if alignment == 1 then 14 else if alignment == 2 then 11 else 12
  }

  lemma NextChunkCases(address: nat, len: nat)
    requires len > 0
    ensures var n, r := NextChunk(address, len), address % 4;
            && (r == 1 ==> n == 1 && (address + n) % 4 == 2)
            && (r == 3 ==> n == 1 && (address + n) % 4 == 0)
            && (r == 2 && len >= 4 ==> n == 2 && (address + n) % 4 == 0)
            && (r == 0 && len >= 4 ==> n == 4 && (address + n) % 4 == 0)
            && (len <= 2 && r % 2 == 0 ==> n == len)
  {
    var q := address / 4;
    assert address == 4 * q + address % 4;
    if address % 4 == 0 {
      assert address == 4 * q && (address + 4) % 4 == 0;
    } else if address % 4 == 1 {
      assert address + 1 == 4 * q + 2;
    } else if address % 4 == 2 {
      assert address == 4 * q + 2 && address / 2 == 2 * q + 1;
    } else {
      assert address + 1 == 4 * (q + 1);
    }
  }

  lemma {:induction false} ChunkCountBound(address: nat, len: nat)
    ensures |Chunks(address, len)| <= len
    ensures 4 * |Chunks(address, len)| <= len + Slack(address % 4)
    decreases len
  {
    if len > 0 {
      var n := NextChunk(address, len);
      NextChunkCases(address, len);
      var rest := |Chunks(address + n, len - n)|;
      ChunkCountBound(address + n, len - n);
      assert |Chunks(address, len)| == 1 + rest;
      assert 4 * rest <= len - n + Slack((address + n) % 4);
    }
  }

  /** At most len / 4 + 4 accesses. */
  lemma ChunkCount(address: nat, len: nat)
    ensures |Chunks(address, len)| <= len / 4 + 4
  {
    ChunkCountBound(address, len);
  }

  lemma ChunksNext(log: seq<Access>, address: nat, len: nat)
    requires len > 0
    ensures var n := NextChunk(address, len);
            log + Chunks(address, len) == log + [Access(address, n)] + Chunks(address + n, len - n)
  {
  }

  lemma ChunksEnd(log: seq<Access>, address: nat)
    ensures log + Chunks(address, 0) == log
  {
  }

  /** Copying a range piece by piece: one more piece of the source ... */
  lemma PieceRead(base: seq<u8>, m: seq<u8>, ado: nat, p: nat, n: nat)
    requires p + n <= |base| && ado + p + n <= |m|
    ensures Splice(Splice(base, 0, m[ado..ado + p]), p, m[ado + p..ado + p + n]) == Splice(base, 0, m[ado..ado + p + n])
  {
    SpliceJoin(base, 0, m[ado..ado + p], m[ado + p..ado + p + n]);
    assert m[ado..ado + p] + m[ado + p..ado + p + n] == m[ado..ado + p + n];
  }

  /** ... or one more piece of the destination. */
  lemma PieceWritten(base: seq<u8>, ado: nat, src: seq<u8>, p: nat, n: nat)
    requires p + n <= |src| && ado + |src| <= |base|
    ensures Splice(Splice(base, ado, src[..p]), ado + p, src[p..p + n]) == Splice(base, ado, src[..p + n])
  {
    SpliceJoin(base, ado, src[..p], src[p..p + n]);
    assert src[..p] + src[p..p + n] == src[..p + n];
  }

  method WaitNotBusy(chip: Chip) returns (r: Status)
    modifies chip`busy
    ensures r == if old(chip.busy) < BUSY_MAX then Ok else Timeout
    ensures r == Ok ==> chip.busy == 0
  {
    var n := 0;
    while n < BUSY_MAX
      invariant 0 <= n <= BUSY_MAX
      invariant chip.busy == old(chip.busy) - n
      decreases BUSY_MAX - n
    {
      var b := chip.PollBusy();
      if !b {
        return Ok;
      }
      n := n + 1;
    }
    r := Timeout;
  }

  method ReadCsr(chip: Chip, address: nat, buf: array<u8>, at: nat, len: nat) returns (r: Status)
    requires chip.busy == 0 && Accepted(Access(address, len)) && at + len <= buf.Length
    modifies chip`data, chip`busy, chip`accesses, buf
    ensures chip.maxDelay < BUSY_MAX ==> r == Ok
    ensures chip.accesses == old(chip.accesses) + [Access(address, len)]
    ensures r == Ok ==> chip.busy == 0 && buf[..] == Splice(old(buf[..]), at, chip.core[address..address + len])
  {
    chip.CommandRead(Access(address, len));
    r := WaitNotBusy(chip);
    if r != Ok {
      return Timeout;
    }
    var w := chip.ReadData();
    Copy(buf, at, w[..len]);
  }

  method WriteCsr(chip: Chip, address: nat, bytes: seq<u8>) returns (r: Status)
    requires chip.busy == 0 && Accepted(Access(address, |bytes|))
    modifies chip`data, chip`busy, chip`accesses, chip`core
    ensures chip.maxDelay < BUSY_MAX ==> r == Ok
    ensures chip.accesses == old(chip.accesses) + [Access(address, |bytes|)]
    ensures chip.core == Splice(old(chip.core), address, bytes)
    ensures r == Ok ==> chip.busy == 0
  {
    var w := Padded(bytes, 4);
    chip.WriteData(w);
    assert w[..|bytes|] == bytes;
    chip.CommandWrite(Access(address, |bytes|));
    r := WaitNotBusy(chip);
  }

  /** Reads a range of registers or of process RAM: exactly the bytes there. */
  method EscRead(chip: Chip, ado: nat, buf: array<u8>, len: nat) returns (r: Status)
    requires chip.busy == 0 && len <= buf.Length
    requires if ado < PDRAM_BASE then ado + len <= CORE_SIZE else ado + len <= PRAM_SIZE
    modifies chip`data, chip`busy, chip`accesses, chip`rd, buf
    ensures len == 0 ==> r == Invalid && buf[..] == old(buf[..])
    ensures len > 0 && chip.maxDelay < BUSY_MAX ==> r == Ok
    ensures r == Ok ==> chip.busy == 0
    ensures r == Ok && ado < PDRAM_BASE ==>
              && buf[..] == Splice(old(buf[..]), 0, chip.core[ado..ado + len])
              && chip.accesses == old(chip.accesses) + Chunks(ado, len)
    ensures r == Ok && ado >= PDRAM_BASE ==> buf[..] == Splice(old(buf[..]), 0, chip.pram[ado..ado + len])
  {
    if len == 0 {
      return Invalid;
    }
    if ado >= PDRAM_BASE {
      r := PdramRead(chip, ado, buf, len);
      return;
    }
    r := ReadRegisters(chip, ado, buf, len);
  }

  /** The chunk loop of a register read. */
  method ReadRegisters(chip: Chip, ado: nat, buf: array<u8>, len: nat) returns (r: Status)
    requires chip.busy == 0 && len <= buf.Length && ado + len <= CORE_SIZE
    modifies chip`data, chip`busy, chip`accesses, buf
    ensures chip.maxDelay < BUSY_MAX ==> r == Ok
    ensures r == Ok ==>
              && buf[..] == Splice(old(buf[..]), 0, chip.core[ado..ado + len]) && chip.busy == 0
              && chip.accesses == old(chip.accesses) + Chunks(ado, len)
  {
    hide Splice, Chunks;
    assert chip.core[ado..ado + 0] == [] && Splice(buf[..], 0, []) == buf[..] by { SpliceNothing(buf[..], 0); }
    var p := 0;
    ghost var base, log, core := buf[..], chip.accesses, chip.core;
    while p < len
      invariant 0 <= p <= len && chip.busy == 0
      invariant buf[..] == Splice(base, 0, core[ado..ado + p])
      invariant chip.accesses + Chunks(ado + p, len - p) == log + Chunks(ado, len)
    {
      var chunk := NextChunk(ado + p, len - p);
      ChunkAccepted(ado + p, len - p);
      ChunksNext(chip.accesses, ado + p, len - p);
      PieceRead(base, core, ado, p, chunk);
      r := ReadCsr(chip, ado + p, buf, p, chunk);
      if r != Ok {
        return Io;
      }
      p := p + chunk;
    }
    ChunksEnd(chip.accesses, ado + len);
    r := Ok;
  }

  /** Writes a range of registers or of process RAM: exactly that range changes. */
  method EscWrite(chip: Chip, ado: nat, src: seq<u8>) returns (r: Status)
    requires chip.busy == 0
    requires if ado < PDRAM_BASE then ado + |src| <= CORE_SIZE else ado + |src| <= PRAM_SIZE
    modifies chip`data, chip`busy, chip`accesses, chip`core, chip`wr, chip`pram
    ensures src == [] ==> r == Invalid && chip.core == old(chip.core) && chip.pram == old(chip.pram)
    ensures src != [] && chip.maxDelay < BUSY_MAX ==> r == Ok
    ensures r == Ok ==> chip.busy == 0
    ensures r == Ok && ado < PDRAM_BASE ==>
              && chip.core == Splice(old(chip.core), ado, src) && chip.pram == old(chip.pram)
              && chip.accesses == old(chip.accesses) + Chunks(ado, |src|)
    ensures r == Ok && ado >= PDRAM_BASE ==>
              chip.pram == Splice(old(chip.pram), ado, src) && chip.core == old(chip.core)
  {
    if |src| == 0 {
      return Invalid;
    }
    if ado >= PDRAM_BASE {
      r := PdramWrite(chip, ado, src);
      return;
    }
    r := WriteRegisters(chip, ado, src);
  }

  /** What is written at an address is read back from there, registers and process RAM alike. */
  method WriteThenRead(chip: Chip, ado: nat, src: seq<u8>, buf: array<u8>) returns (r: Status)
    requires chip.busy == 0 && src != [] && |src| <= buf.Length && chip.maxDelay < BUSY_MAX
    requires if ado < PDRAM_BASE then ado + |src| <= CORE_SIZE else ado + |src| <= PRAM_SIZE
    modifies chip, buf
    ensures r == Ok && buf[..|src|] == src && buf[|src|..] == old(buf[|src|..])
    ensures chip.busy == 0
  {
    ghost var before := buf[..];
    r := EscWrite(chip, ado, src);
    assert (if ado < PDRAM_BASE then chip.core else chip.pram)[ado..ado + |src|] == src;
    r := EscRead(chip, ado, buf, |src|);
    assert buf[..] == Splice(before, 0, src);
  }

  /** The chunk loop of a register write. */
  method WriteRegisters(chip: Chip, ado: nat, src: seq<u8>) returns (r: Status)
    requires chip.busy == 0 && ado + |src| <= CORE_SIZE
    modifies chip`data, chip`busy, chip`accesses, chip`core
    ensures chip.maxDelay < BUSY_MAX ==> r == Ok
    ensures r == Ok ==>
              && chip.core == Splice(old(chip.core), ado, src) && chip.busy == 0
              && chip.accesses == old(chip.accesses) + Chunks(ado, |src|)
  {
    hide Splice, Chunks;
    assert src[..0] == [] && Splice(chip.core, ado, []) == chip.core by { SpliceNothing(chip.core, ado); }
    var p, len := 0, |src|;
    ghost var base, log := chip.core, chip.accesses;
    while p < len
      invariant 0 <= p <= len && chip.busy == 0
      invariant chip.core == Splice(base, ado, src[..p])
      invariant chip.accesses + Chunks(ado + p, len - p) == log + Chunks(ado, len)
    {
      var chunk := NextChunk(ado + p, len - p);
      ChunkAccepted(ado + p, len - p);
      ChunksNext(chip.accesses, ado + p, len - p);
      PieceWritten(base, ado, src, p, chunk);
      r := WriteCsr(chip, ado + p, src[p..p + chunk]);
      if r != Ok {
        return Io;
      }
      p := p + chunk;
    }
    assert src[..len] == src;
    ChunksEnd(chip.accesses, ado + len);
    r := Ok;
  }

  method WaitReadIdle(chip: Chip) returns (r: Status)
    modifies chip`rd
    ensures r == if old(chip.rd).busy < BUSY_MAX then Ok else Timeout
    ensures chip.rd == old(chip.rd).(busy := chip.rd.busy) && (r == Ok ==> chip.rd.busy == 0)
  {
    var n := 0;
    while n < BUSY_MAX
      invariant 0 <= n <= BUSY_MAX
      invariant chip.rd == old(chip.rd).(busy := chip.rd.busy) && chip.rd.busy == old(chip.rd).busy - n
      decreases BUSY_MAX - n
    {
      var b := chip.PollReadBusy();
      if !b {
        return Ok;
      }
      n := n + 1;
    }
    r := Timeout;
  }

  method WaitReadAvail(chip: Chip) returns (r: Status)
    modifies chip`rd
    ensures r == if old(chip.rd).wait < BUSY_MAX then Ok else Timeout
    ensures chip.rd == old(chip.rd).(wait := chip.rd.wait) && (r == Ok ==> chip.rd.wait == 0)
  {
    var n := 0;
    while n < BUSY_MAX
      invariant 0 <= n <= BUSY_MAX
      invariant chip.rd == old(chip.rd).(wait := chip.rd.wait) && chip.rd.wait == old(chip.rd).wait - n
      decreases BUSY_MAX - n
    {
      var b := chip.PollReadAvail();
      if b {
        return Ok;
      }
      n := n + 1;
    }
    r := Timeout;
  }

  method WaitWriteIdle(chip: Chip) returns (r: Status)
    modifies chip`wr
    ensures r == if old(chip.wr).busy < BUSY_MAX then Ok else Timeout
    ensures chip.wr == old(chip.wr).(busy := chip.wr.busy) && (r == Ok ==> chip.wr.busy == 0)
  {
    var n := 0;
    while n < BUSY_MAX
      invariant 0 <= n <= BUSY_MAX
      invariant chip.wr == old(chip.wr).(busy := chip.wr.busy) && chip.wr.busy == old(chip.wr).busy - n
      decreases BUSY_MAX - n
    {
      var b := chip.PollWriteBusy();
      if !b {
        return Ok;
      }
      n := n + 1;
    }
    r := Timeout;
  }

  method WaitWriteAvail(chip: Chip) returns (r: Status)
    modifies chip`wr
    ensures r == if old(chip.wr).wait < BUSY_MAX then Ok else Timeout
    ensures chip.wr == old(chip.wr).(wait := chip.wr.wait) && (r == Ok ==> chip.wr.wait == 0)
  {
    var n := 0;
    while n < BUSY_MAX
      invariant 0 <= n <= BUSY_MAX
      invariant chip.wr == old(chip.wr).(wait := chip.wr.wait) && chip.wr.wait == old(chip.wr).wait - n
      decreases BUSY_MAX - n
    {
      var b := chip.PollWriteAvail();
      if b {
        return Ok;
      }
      n := n + 1;
    }
    r := Timeout;
  }

  lemma WordOpen(address: nat, len: nat, idx: nat)
    requires 4 * idx < address % 4 + len
    ensures idx < WordCount(address, len)
  {
  }

  lemma WordCountIs(address: nat, len: nat, words: nat)
    requires 4 * words - 4 < address % 4 + len <= 4 * words
    ensures words == WordCount(address, len)
  {
  }

  /** The bytes of a word that belong to the request. */
  lemma WordBytes(w: Word, m: Pram, address: nat, len: nat, idx: nat, done: nat, n: nat)
    requires WordHolds(w, m, address, len, idx) && address + len <= PRAM_SIZE
    requires 0 < n && done + n <= len
    requires done == 0 || address % 4 + done == 4 * idx
    requires 4 * idx <= address % 4 + done && address % 4 + done + n <= 4 * idx + 4
    requires done + n == len || address % 4 + done + n == 4 * idx + 4
    ensures var first := address % 4 + done - 4 * idx;
            w[first..first + n] == m[address + done..address + done + n]
  {
    assert Lo(address, idx) == address + done && Hi(address, len, idx) == address + done + n;
  }

  /** Reads process RAM through the FIFO: exactly the bytes there, in exactly the words needed. */
  method PdramRead(chip: Chip, address: nat, buf: array<u8>, length: nat) returns (r: Status)
    requires address + length <= PRAM_SIZE && length <= buf.Length
    modifies chip`rd, buf
    ensures length == 0 ==> r == Invalid && buf[..] == old(buf[..])
    ensures length > 0 && chip.maxDelay < BUSY_MAX ==> r == Ok
    ensures r == Ok ==>
              && buf[..] == Splice(old(buf[..]), 0, chip.pram[address..address + length])
              && chip.rd.words == WordCount(address, length)
  {
    if length == 0 {
      return Invalid;
    }
    r := OpenRead(chip, address, length);
    if r == Ok {
      ReadWords(chip, address, buf, length);
    }
  }

  /** Aborts what was going on and starts a read of `length` bytes; Ok when the first word is available. */
  method OpenRead(chip: Chip, address: nat, length: nat) returns (r: Status)
    modifies chip`rd
    ensures r == Ok || r == Timeout
    ensures chip.maxDelay < BUSY_MAX ==> r == Ok
    ensures r == Ok ==> chip.rd == Port(address, length, true, 0, 0, 0)
  {
    chip.AbortRead();
    r := WaitReadIdle(chip);
    if r != Ok {
      return Timeout;
    }
    chip.SetReadAddress(address, length);
    chip.StartRead();
    r := WaitReadAvail(chip);
  }

  /** The first, possibly partial word, then whole words, the last one possibly partial. */
  method ReadWords(chip: Chip, address: nat, buf: array<u8>, length: nat)
    requires 0 < length <= buf.Length && address + length <= PRAM_SIZE
    requires chip.rd == Port(address, length, true, 0, 0, 0)
    modifies chip`rd, buf
    ensures buf[..] == Splice(old(buf[..]), 0, chip.pram[address..address + length])
    ensures chip.rd.words == WordCount(address, length)
  {
    hide Splice, WordCount, WordHolds;
    WordOpen(address, length, 0);
    var w := chip.PopWord();
    var first := address % 4;
    var n := if 4 - first > length then length else 4 - first;
    ghost var base, pram := buf[..], chip.pram;
    WordBytes(w, pram, address, length, 0, 0, n);
    Copy(buf, 0, w[first..first + n]);
    var done, left := n, length - n;
    while left > 0
      invariant 0 < done <= length && left == length - done
      invariant chip.rd == Port(address, length, true, 0, 0, chip.rd.words)
      invariant 4 * chip.rd.words - 4 < first + done <= 4 * chip.rd.words
      invariant left > 0 ==> first + done == 4 * chip.rd.words
      invariant buf[..] == Splice(base, 0, pram[address..address + done])
    {
      n := if left > 4 then 4 else left;
      ghost var idx := chip.rd.words;
      WordOpen(address, length, idx);
      w := chip.PopWord();
      WordBytes(w, pram, address, length, idx, done, n);
      PieceRead(base, pram, address, done, n);
      Copy(buf, done, w[..n]);
      left := left - n;
      done := done + n;
    }
    WordCountIs(address, length, chip.rd.words);
  }

  /** Pushing the word with the next n bytes of the request, zeros around them, writes exactly those bytes. */
  lemma PushBytes(m: Pram, now: Pram, address: nat, src: seq<u8>, idx: nat, done: nat, n: nat, w: Word)
    requires address + |src| <= PRAM_SIZE && 0 < n && done + n <= |src|
    requires now == Splice(m, address, src[..done])
    requires 4 * idx <= address % 4 + done && address % 4 + done + n <= 4 * idx + 4
    requires done == 0 || address % 4 + done == 4 * idx
    requires done + n == |src| || address % 4 + done + n == 4 * idx + 4
    requires var first := address % 4 + done - 4 * idx; w[first..first + n] == src[done..done + n]
    ensures AfterPush(now, address, |src|, idx, w) == Splice(m, address, src[..done + n])
  {
    assert Lo(address, idx) == address + done && Hi(address, |src|, idx) == address + done + n;
    PieceWritten(m, address, src, done, n);
  }

  /** Writes process RAM through the FIFO: exactly the range changes, in exactly the words needed. */
  method PdramWrite(chip: Chip, address: nat, src: seq<u8>) returns (r: Status)
    requires address + |src| <= PRAM_SIZE
    modifies chip`wr, chip`pram
    ensures src == [] ==> r == Invalid && chip.pram == old(chip.pram)
    ensures src != [] && chip.maxDelay < BUSY_MAX ==> r == Ok
    ensures r == Ok ==>
              && chip.pram == Splice(old(chip.pram), address, src)
              && chip.wr.words == WordCount(address, |src|)
    ensures r == Timeout ==> chip.pram == old(chip.pram)
  {
    if |src| == 0 {
      return Invalid;
    }
    r := OpenWrite(chip, address, |src|);
    if r == Ok {
      WriteWords(chip, address, src);
    }
  }

  method OpenWrite(chip: Chip, address: nat, length: nat) returns (r: Status)
    modifies chip`wr
    ensures r == Ok || r == Timeout
    ensures chip.maxDelay < BUSY_MAX ==> r == Ok
    ensures r == Ok ==> chip.wr == Port(address, length, true, 0, 0, 0)
  {
    chip.AbortWrite();
    r := WaitWriteIdle(chip);
    if r != Ok {
      return Timeout;
    }
    chip.SetWriteAddress(address, length);
    chip.StartWrite();
    r := WaitWriteAvail(chip);
  }

  /** The first bytes at their place in the first word, then whole words, the last one padded with zeros. */
  method WriteWords(chip: Chip, address: nat, src: seq<u8>)
    requires src != [] && address + |src| <= PRAM_SIZE
    requires chip.wr == Port(address, |src|, true, 0, 0, 0)
    modifies chip`wr, chip`pram
    ensures chip.pram == Splice(old(chip.pram), address, src)
    ensures chip.wr.words == WordCount(address, |src|)
  {
    hide WordCount, AfterPush;
    var first := address % 4;
    var n := if 4 - first > |src| then |src| else 4 - first;
    ghost var base := chip.pram;
    var w := Splice(Zeros(4), first, src[..n]);
    PushBytes(base, base, address, src, 0, 0, n, w);
    WordOpen(address, |src|, 0);
    chip.PushWord(w);
    var done, left := n, |src| - n;
    while left > 0
      invariant 0 < done <= |src| && left == |src| - done
      invariant chip.wr == Port(address, |src|, true, 0, 0, chip.wr.words)
      invariant 4 * chip.wr.words - 4 < first + done <= 4 * chip.wr.words
      invariant left > 0 ==> first + done == 4 * chip.wr.words
      invariant chip.pram == Splice(base, address, src[..done])
    {
      n := if left > 4 then 4 else left;
      w := Splice(Zeros(4), 0, src[done..done + n]);
      assert w[..n] == src[done..done + n];
      PushBytes(base, chip.pram, address, src, chip.wr.words, done, n, w);
      WordOpen(address, |src|, chip.wr.words);
      chip.PushWord(w);
      left := left - n;
      done := done + n;
    }
    assert src[..|src|] == src;
    WordCountIs(address, |src|, chip.wr.words);
  }
}
