/** The application layer (AL) state machine of the slave, in ALCTL, ALSTAT and ALSTACODE. */
module Al {
  import opened Bytes
  import opened Esc
  import SyncManager

  const INIT := 1
  const PREOP := 2
  const BOOT := 3
  const SAFEOP := 4
  const OP := 8

  const ERR_NONE := 0x0000
  const ERR_INVALID_STATE_CHANGE := 0x0011
  const ERR_BOOTSTRAP_NOT_SUPPORTED := 0x0013
  const ERR_INVALID_MAILBOX_CFG := 0x0016

  /** Bit 4: "acknowledge" in the control word, "error" in the status word. */
  const ACK := 0x10
  const STAT_ERR := 0x10

  /** The low nibble of a control or status word. */
  function State(word: nat): (s: nat)
    ensures s < 0x10 && (word < 0x10 ==> s == word)
  {
    word % 0x10
  }

  predicate ErrorIndicated(status: nat) {
    Bit4(status)
  }

  function ControlWord(nibble: nat, ack: bool): u16 {
    State(nibble) + if ack then ACK else 0
  }

  predicate ValidTransition(from: nat, to: nat) {
    to == INIT
    || (from == INIT && to == PREOP)
    || (from == PREOP && to == SAFEOP)
    || (from == SAFEOP && (to == OP || to == PREOP))
    || (from == OP && to == SAFEOP)
  }

  function WriteStatus(m: Mem, status: u16, code: u16): (r: Mem)
    ensures ReadU16(r, ALSTAT) == status && ReadU16(r, ALSTACODE) == code
    ensures forall a :: 0 <= a < SIZE && a !in {ALSTAT, ALSTAT + 1, ALSTACODE, ALSTACODE + 1} ==> r[a] == m[a]
  {
    Splice(Splice(m, ALSTAT, Le16(status)), ALSTACODE, Le16(code))
  }

  datatype Decision = Keep | Set(state: nat, code: u16)

  /** What a control word does in state `cur`; a Set with a nonzero code leaves the error bit set. */
  function Decide(control: u16, cur: nat, pairValid: bool): Decision {
    var req := State(control);
    if Bit4(control) then (if req == cur then Set(cur, ERR_NONE) else Keep)
    else if req == cur then Keep
    else if req == BOOT then Set(cur, ERR_BOOTSTRAP_NOT_SUPPORTED)
    else if !ValidTransition(cur, req) then Set(cur, ERR_INVALID_STATE_CHANGE)
    else if cur == INIT && req == PREOP && !pairValid then Set(cur, ERR_INVALID_MAILBOX_CFG)
    else Set(req, ERR_NONE)
  }

  /** The status word that a decision leaves. */
  function StatusWord(d: Decision): u16
    requires d.Set?
  {
    State(d.state) + if d.code != ERR_NONE then STAT_ERR else 0
  }

  function Apply(m: Mem, d: Decision): Mem {
    if d.Keep? then m else WriteStatus(m, StatusWord(d), d.code)
  }

  /** The mirror after the AL machine has looked at a new control word. */
  function OnControl(m: Mem): Mem {
    Apply(m, Decide(ReadU16(m, ALCTL), State(ReadU16(m, ALSTAT)), SyncManager.ValidPair(m)))
  }

  lemma ControlFrame(m: Mem)
    ensures forall a :: 0 <= a < SIZE && a !in {ALSTAT, ALSTAT + 1, ALSTACODE, ALSTACODE + 1} ==>
              OnControl(m)[a] == m[a]
  {
    hide Decide, WriteStatus, SyncManager.ValidPair, ReadU16;
  }

  method WriteAlStatus(esc: array<u8>, status: u16, code: u16)
    requires esc.Length == SIZE
    modifies esc
    ensures esc[..] == WriteStatus(old(esc[..]), status, code)
  {
    esc[ALSTAT] := status % 0x100;
    esc[ALSTAT + 1] := status / 0x100;
    esc[ALSTACODE] := code % 0x100;
    esc[ALSTACODE + 1] := code / 0x100;
  }

  method OnControlWrite(esc: array<u8>)
    requires esc.Length == SIZE
    modifies esc
    ensures esc[..] == OnControl(old(esc[..]))
  {
    hide WriteStatus, SyncManager.ValidPair;
    ghost var m := esc[..];
    var control := U16(esc[ALCTL], esc[ALCTL + 1]);
    var status := U16(esc[ALSTAT], esc[ALSTAT + 1]);
    var req, cur := State(control), State(status);
    assert OnControl(m) == Apply(m, Decide(control, cur, SyncManager.ValidPair(m)));
    if Bit4(control) {
      if req == cur {
        WriteAlStatus(esc, cur, ERR_NONE);
      }
      return;
    }
    if req == cur {
      return;
    }
    if req == BOOT {
      WriteAlStatus(esc, cur + STAT_ERR, ERR_BOOTSTRAP_NOT_SUPPORTED);
      return;
    }
    if !ValidTransition(cur, req) {
      WriteAlStatus(esc, cur + STAT_ERR, ERR_INVALID_STATE_CHANGE);
      return;
    }
    if cur == INIT && req == PREOP {
      if !SyncManager.ValidPair(esc[..]) {
        WriteAlStatus(esc, cur + STAT_ERR, ERR_INVALID_MAILBOX_CFG);
        return;
      }
    }
    WriteAlStatus(esc, req, ERR_NONE);
  }
}
