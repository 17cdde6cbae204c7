/** The CANopen object dictionary: a table of entries, each with its own storage. */
module ObjectDictionary {
  import opened Bytes

  /** An object: flags bit 0 readable, bit 1 writable; `data` is its storage, of fixed length. */
  datatype Object = Object(index: u16, subindex: u8, objType: u8, flags: u8, data: seq<u8>) {
    predicate Readable() {
      Bit0(flags)
    }

    predicate Writable() {
      Bit1(flags)
    }

    predicate Is(index: u16, subindex: u8) {
      this.index == index && this.subindex == subindex
    }
  }

  type Entry = e: Object | |e.data| < 0x1_0000 witness Object(0, 0, 0, 0, [])

  type Table = seq<Entry>

  /** The place of the first entry with this index and subindex. */
  function Lookup(t: Table, index: u16, subindex: u8): (r: Option<nat>)
    ensures r.Some? ==> r.value < |t| && t[r.value].index == index && t[r.value].subindex == subindex
    ensures forall i :: 0 <= i < (if r.Some? then r.value else |t|) ==> t[i].index != index || t[i].subindex != subindex
  {
    if t == [] then None
    else if t[0].Is(index, subindex) then Some(0)
    else
      match Lookup(t[1..], index, subindex)
      case None => None
      case Some(k) => Some(k + 1)
  }

  predicate IndexExists(t: Table, index: u16) {
    exists i :: 0 <= i < |t| && t[i].index == index
  }

  /** The table after the first |src| bytes of entry k were replaced. */
  function Stored(t: Table, k: nat, src: seq<u8>): Table
    requires k < |t| && |src| <= |t[k].data|
  {
    t[k := t[k].(data := Splice(t[k].data, 0, src))]
  }

  class Dictionary {
    var entries: Table

    constructor (entries: Table)
      ensures this.entries == entries
    {
      this.entries := entries;
    }

    method Find(index: u16, subindex: u8) returns (r: Option<nat>)
      ensures r == Lookup(entries, index, subindex)
    {
      var i := 0;
      while i < |entries|
        invariant 0 <= i <= |entries|
        invariant forall k :: 0 <= k < i ==> !entries[k].Is(index, subindex)
      {
        if entries[i].index == index && entries[i].subindex == subindex {
          return Some(i);
        }
        i := i + 1;
      }
      r := None;
    }

    method HasIndex(index: u16) returns (found: bool)
      ensures found == IndexExists(entries, index)
    {
      var i := 0;
      while i < |entries|
        invariant 0 <= i <= |entries|
        invariant forall k :: 0 <= k < i ==> entries[k].index != index
      {
        if entries[i].index == index {
          return true;
        }
        i := i + 1;
      }
      found := false;
    }

    /** The whole value, when it may be read, is not empty and fits into `cap` bytes. */
    method Read(k: nat, cap: nat) returns (r: Option<seq<u8>>)
      requires k < |entries|
      ensures var e := entries[k];
              r == if e.Readable() && 0 < |e.data| <= cap then Some(e.data) else None
    {
      var e := entries[k];
      if !e.Readable() {
        return None;
      }
      if |e.data| == 0 {
        return None;
      }
      if cap < |e.data| {
        return None;
      }
      r := Some(e.data);
    }

    /** Overwrites the first bytes of a writable entry; everything else stays. */
    method Write(k: nat, src: seq<u8>) returns (ok: bool)
      requires k < |entries|
      modifies this
      ensures ok == (old(entries[k].Writable()) && 0 < |old(entries[k].data)| && |src| <= |old(entries[k].data)|)
      ensures entries == if ok then Stored(old(entries), k, src) else old(entries)
    {
      var e := entries[k];
      if !e.Writable() {
        return false;
      }
      if |e.data| == 0 {
        return false;
      }
      if |src| > |e.data| {
        return false;
      }
      entries := entries[k := e.(data := Splice(e.data, 0, src))];
      ok := true;
    }
  }
}
