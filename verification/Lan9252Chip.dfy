/** The LAN9252 as its driver sees it: indirect register access through DATA and CMD, and process RAM access
    through ADDR_LEN, CMD and a word FIFO. Every command may keep the chip busy for a while. */
module Lan9252Chip {
  import opened Bytes

  const CORE_SIZE := 0x1000
  const PRAM_SIZE := 0x1_0000

  type Word = w: seq<u8> | |w| == 4 witness [0, 0, 0, 0]
  type Core = m: seq<u8> | |m| == CORE_SIZE witness seq(CORE_SIZE, i => 0)
  type Pram = m: seq<u8> | |m| == PRAM_SIZE witness seq(PRAM_SIZE, i => 0)

  /** One indirect access. */
  datatype Access = Access(address: nat, size: nat)

  /** The accesses the chip accepts: 1, 2 or 4 bytes at a multiple of the size, inside the register space. */
  predicate Accepted(a: Access) {
    (a.size == 1 || a.size == 2 || a.size == 4) && a.address % a.size == 0 && a.address + a.size <= CORE_SIZE
  }

  /** FIFO words needed for `len` bytes at `address`. */
  function WordCount(address: nat, len: nat): nat {
    (address % 4 + len + 3) / 4
  }

  /** The address of the first byte of FIFO word `idx`. */
  function WordAddress(address: nat, idx: nat): nat {
    address - address % 4 + 4 * idx
  }

  /** The part of a FIFO word that belongs to the request: bytes Lo..Hi of the RAM. */
  function Lo(address: nat, idx: nat): nat {
    if WordAddress(address, idx) < address then address else WordAddress(address, idx)
  }

  function Hi(address: nat, len: nat, idx: nat): nat {
    if address + len < WordAddress(address, idx) + 4 then address + len else WordAddress(address, idx) + 4
  }

  /** The FIFO word covers some bytes of the request. */
  predicate InRequest(address: nat, len: nat, idx: nat) {
    Lo(address, idx) < Hi(address, len, idx) <= PRAM_SIZE
  }

  function Part(w: Word, address: nat, len: nat, idx: nat): (p: seq<u8>)
    requires InRequest(address, len, idx)
    ensures |p| == Hi(address, len, idx) - Lo(address, idx)
  {
    w[Lo(address, idx) - WordAddress(address, idx)..Hi(address, len, idx) - WordAddress(address, idx)]
  }

  /** A word read from the FIFO holds the bytes of the request; its other bytes may be anything. */
  predicate WordHolds(w: Word, m: Pram, address: nat, len: nat, idx: nat) {
    InRequest(address, len, idx) ==> Part(w, address, len, idx) == m[Lo(address, idx)..Hi(address, len, idx)]
  }

  /** The RAM after a word written to the FIFO: only bytes of the request are changed. */
  function AfterPush(m: Pram, address: nat, len: nat, idx: nat, w: Word): Pram {
    if InRequest(address, len, idx) then Splice(m, Lo(address, idx), Part(w, address, len, idx)) else m
  }

  /** One direction of the process RAM interface. */
  datatype Port = Port(address: nat, len: nat, started: bool, busy: nat, wait: nat, words: nat) {
    predicate Open() {
      started && wait == 0 && words < WordCount(address, len)
    }
  }

  class Chip {
    var core: Core
    var pram: Pram
    /** The longest time, in polls, that a command keeps the chip busy. */
    const maxDelay: nat

    var data: Word
    var busy: nat
    var rd: Port
    var wr: Port
    /** Every indirect access so far. */
    ghost var accesses: seq<Access>

    constructor (core: Core, pram: Pram, maxDelay: nat)
      ensures this.core == core && this.pram == pram && this.maxDelay == maxDelay && busy == 0 && accesses == []
    {
      this.core, this.pram, this.maxDelay := core, pram, maxDelay;
      data, busy := [0, 0, 0, 0], 0;
      rd, wr := Port(0, 0, false, 0, 0, 0), Port(0, 0, false, 0, 0, 0);
      accesses := [];
    }

    /** Whatever the bus holds. */
    method Noise() returns (w: Word)
    {
      ghost var some := Zeros(4);
      assert |some| == 4;
      var any: seq<u8> :| |any| == 4;
      w := any;
    }

    method WriteData(w: Word)
      modifies this`data
      ensures data == w
    {
      data := w;
    }

    /** A read command while the chip is idle puts the bytes into DATA; the other bytes of DATA may be anything. */
    method CommandRead(a: Access)
      requires Accepted(a)
      modifies this`data, this`busy, this`accesses
      ensures old(busy) == 0 ==> data[..a.size] == core[a.address..a.address + a.size]
      ensures old(busy) == 0 ==> busy <= maxDelay
      ensures accesses == old(accesses) + [a]
    {
      accesses := accesses + [a];
      if busy == 0 {
        var noise := Noise();
        data := core[a.address..a.address + a.size] + noise[a.size..];
        var delay: nat :| delay <= maxDelay;
        busy := delay;
      }
    }

    /** A write command while the chip is idle takes the bytes from DATA. */
    method CommandWrite(a: Access)
      requires Accepted(a)
      modifies this`core, this`busy, this`accesses
      ensures old(busy) == 0 ==> core == Splice(old(core), a.address, data[..a.size])
      ensures old(busy) == 0 ==> busy <= maxDelay
      ensures accesses == old(accesses) + [a]
    {
      accesses := accesses + [a];
      if busy == 0 {
        core := Splice(core, a.address, data[..a.size]);
        var delay: nat :| delay <= maxDelay;
        busy := delay;
      }
    }

    /** The BUSY bit of CMD. */
    method PollBusy() returns (b: bool)
      modifies this`busy
      ensures b == (old(busy) > 0) && busy == if b then old(busy) - 1 else 0
    {
      b := busy > 0;
      if b {
        busy := busy - 1;
      }
    }

    /** DATA, which means nothing while the chip is busy. */
    method ReadData() returns (w: Word)
      ensures busy == 0 ==> w == data
    {
      if busy == 0 {
        return data;
      }
      w := Noise();
    }

    method AbortRead()
      modifies this`rd
      ensures !rd.started && rd.busy <= maxDelay
    {
      var delay: nat :| delay <= maxDelay;
      rd := rd.(started := false, busy := delay);
    }

    method PollReadBusy() returns (b: bool)
      modifies this`rd
      ensures b == (old(rd).busy > 0) && rd == old(rd).(busy := if b then old(rd).busy - 1 else 0)
    {
      b := rd.busy > 0;
      if b {
        rd := rd.(busy := rd.busy - 1);
      }
    }

    method SetReadAddress(address: nat, len: nat)
      modifies this`rd
      ensures rd == old(rd).(address := address, len := len)
    {
      rd := rd.(address := address, len := len);
    }

    /** Starts a read transfer; an earlier one must have been aborted and the abort have finished. */
    method StartRead()
      modifies this`rd
      ensures old(rd).busy == 0 ==>
                rd.wait <= maxDelay && rd == old(rd).(started := true, words := 0, wait := rd.wait)
    {
      var delay: nat :| delay <= maxDelay;
      if rd.busy == 0 {
        rd := rd.(started := true, words := 0, wait := delay);
      }
    }

    /** The AVAIL bit: data are in the FIFO. */
    method PollReadAvail() returns (b: bool)
      modifies this`rd
      ensures b == (old(rd).wait == 0) && rd == old(rd).(wait := if b then 0 else old(rd).wait - 1)
    {
      b := rd.wait == 0;
      if !b {
        rd := rd.(wait := rd.wait - 1);
      }
    }

    /** Takes the next word out of the FIFO. */
    method PopWord() returns (w: Word)
      modifies this`rd
      ensures old(rd).Open() ==> WordHolds(w, pram, old(rd).address, old(rd).len, old(rd).words)
      ensures rd == old(rd).(words := old(rd).words + 1)
    {
      w := Noise();
      if InRequest(rd.address, rd.len, rd.words) {
        var lo, hi := Lo(rd.address, rd.words), Hi(rd.address, rd.len, rd.words);
        var at := lo - WordAddress(rd.address, rd.words);
        w := Splice(w, at, pram[lo..hi]);
        assert w[at..at + hi - lo] == pram[lo..hi];
      }
      rd := rd.(words := rd.words + 1);
    }

    method AbortWrite()
      modifies this`wr
      ensures !wr.started && wr.busy <= maxDelay
    {
      var delay: nat :| delay <= maxDelay;
      wr := wr.(started := false, busy := delay);
    }

    method PollWriteBusy() returns (b: bool)
      modifies this`wr
      ensures b == (old(wr).busy > 0) && wr == old(wr).(busy := if b then old(wr).busy - 1 else 0)
    {
      b := wr.busy > 0;
      if b {
        wr := wr.(busy := wr.busy - 1);
      }
    }

    method SetWriteAddress(address: nat, len: nat)
      modifies this`wr
      ensures wr == old(wr).(address := address, len := len)
    {
      wr := wr.(address := address, len := len);
    }

    method StartWrite()
      modifies this`wr
      ensures old(wr).busy == 0 ==>
                wr.wait <= maxDelay && wr == old(wr).(started := true, words := 0, wait := wr.wait)
    {
      var delay: nat :| delay <= maxDelay;
      if wr.busy == 0 {
        wr := wr.(started := true, words := 0, wait := delay);
      }
    }

    method PollWriteAvail() returns (b: bool)
      modifies this`wr
      ensures b == (old(wr).wait == 0) && wr == old(wr).(wait := if b then 0 else old(wr).wait - 1)
    {
      b := wr.wait == 0;
      if !b {
        wr := wr.(wait := wr.wait - 1);
      }
    }

    /** Puts the next word into the FIFO. */
    method PushWord(w: Word)
      modifies this`wr, this`pram
      ensures old(wr).Open() ==> pram == AfterPush(old(pram), old(wr).address, old(wr).len, old(wr).words, w)
      ensures wr == old(wr).(words := old(wr).words + 1)
    {
      if wr.Open() {
        pram := AfterPush(pram, wr.address, wr.len, wr.words, w);
      }
      wr := wr.(words := wr.words + 1);
    }
  }
}
