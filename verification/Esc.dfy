/** The 4096-byte ESC register mirror and its register map. */
module Esc {
  import opened Bytes

  const SIZE := 4096

  type Mem = m: seq<u8> | |m| == SIZE witness seq(SIZE, i => 0)

  const STADR := 0x0010
  const VENDOR := 0x0012
  const PRODUCT := 0x0016
  const REVISION := 0x001A
  const SERIAL := 0x001E
  const ALCTL := 0x0120
  const ALSTAT := 0x0130
  const ALSTACODE := 0x0134
  const SM0 := 0x0800
  const SM_SIZE := 8
  const SM_STATUS := 5

  /** Bit 3 of a SyncManager status byte. */
  const MBX_FULL := 8

  datatype Identity = Identity(vendor: u32, product: u32, revision: u32, serial: u32)

  predicate InRange(ado: nat, len: nat) {
    len > 0 && ado + len <= SIZE
  }

  function Slice(m: Mem, ado: nat, len: nat): (s: seq<u8>)
    requires ado + len <= SIZE
    ensures |s| == len
  {
    m[ado..ado + len]
  }

  function ReadU16(m: Mem, ado: nat): u16 {
    if ado + 2 > SIZE then 0 else U16(m[ado], m[ado + 1])
  }

  function ApplyIdentity(m: Mem, id: Identity): Mem {
    Splice(Splice(Splice(Splice(m, VENDOR, Le32(id.vendor)), PRODUCT, Le32(id.product)),
                  REVISION, Le32(id.revision)), SERIAL, Le32(id.serial))
  }

  /** The mirror after initialisation: identity words, AL status INIT, everything else zero. */
  function Initial(id: Identity): Mem {
    Splice(Splice(ApplyIdentity(Zeros(SIZE), id), ALSTAT, [1, 0]), ALSTACODE, [0, 0])
  }
}

/** SyncManager register blocks: eight bytes each from 0x0800 on. */
module SyncManager {
  import opened Bytes
  import opened Esc

  datatype Config = Config(start: u16, length: u16, control: u8, status: u8, activate: u8, pdiCtrl: u8) {
    predicate Active() {
      Bit0(activate)
    }

    /** Mode bits 0..1 of the control byte say "mailbox". */
    predicate Mailbox() {
      control % 4 == 2
    }

    predicate Usable() {
      Active() && Mailbox() && length != 0
    }

    function End(): nat {
      start + length
    }
  }

  function Base(i: nat): nat {
    SM0 + i * SM_SIZE
  }

  function StatusAddr(i: nat): nat {
    Base(i) + SM_STATUS
  }

  function Read(m: Mem, i: nat): Config
    requires i < 2
  {
    var b := Base(i);
    Config(U16(m[b], m[b + 1]), U16(m[b + 2], m[b + 3]), m[b + 4], m[b + 5], m[b + 6], m[b + 7])
  }

  predicate ValidPair(m: Mem) {
    Read(m, 0).Usable() && Read(m, 1).Usable()
  }

  predicate Full(m: Mem, i: nat)
    requires i < 2
  {
    Bit3(m[StatusAddr(i)])
  }

  function SetFull(m: Mem, i: nat): Mem
    requires i < 2
  {
    if Full(m, i) then m else m[StatusAddr(i) := m[StatusAddr(i)] + MBX_FULL]
  }

  function ClearFull(m: Mem, i: nat): Mem
    requires i < 2
  {
    if Full(m, i) then m[StatusAddr(i) := m[StatusAddr(i)] - MBX_FULL] else m
  }

  lemma FullAfter(m: Mem, i: nat)
    requires i < 2
    ensures Full(SetFull(m, i), i) && !Full(ClearFull(m, i), i)
  {
  }
}
