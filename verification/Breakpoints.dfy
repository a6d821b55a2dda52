/** The breakpoint unit: hardware breakpoints in FPB comparators, software breakpoints as BKPT
    instructions planted in RAM, whose original halfwords are kept and put back. */
module Breakpoints {
  import opened Wrappers

  const BKPT_LOW: Byte := 0x00
  const BKPT_HIGH: Byte := 0xbe

  datatype Halfword = Halfword(low: Byte, high: Byte)

  // ---------------------------------------------------------------- comparator words

  /** FPB v1 (revision 0) compares address bits 28:2 and picks a halfword; v2 compares bits 31:1. */
  function CompValue(revision: nat, addr: bv32): bv32 {
    if revision == 0 then (if addr & 2 != 0 then 0x8000_0000 else 0x4000_0000) | (addr & 0x1fff_fffc) | 1
    else (addr & 0xffff_fffe) | 1
  }

  /** The address that an enabled comparator matches. */
  function Decode(revision: nat, comp: bv32): bv32 {
    if revision == 0 then (comp & 0x1fff_fffc) | (if comp & 0x8000_0000 != 0 then 2 else 0)
    else comp & 0xffff_fffe
  }

  lemma DecodeV1(addr: bv32)
    requires addr & 1 == 0
    ensures Decode(0, CompValue(0, addr)) == addr & 0x1fff_ffff
  {}

  lemma LowAddress(addr: bv32)
    ensures addr & 0x1fff_ffff == addr <==> addr < 0x2000_0000
  {}

  lemma DecodeV2(addr: bv32)
    requires addr & 1 == 0
    ensures ((addr & 0xffff_fffe) | 1) & 0xffff_fffe == addr
  {}

  /** A comparator decodes to the halfword address it was written for: always in v2, and in v1 exactly
      for addresses below 0x20000000. */
  lemma ComparatorRoundTrip(revision: nat, addr: bv32)
    requires addr & 1 == 0
    ensures Decode(revision, CompValue(revision, addr)) == addr <==> revision != 0 || addr < 0x2000_0000
  {
    if revision == 0 {
      DecodeV1(addr);
      LowAddress(addr);
    } else {
      DecodeV2(addr);
    }
  }

  /** Words for the first three halfwords behind 0x08000100, as the FPB of a Cortex-M4 and of a Cortex-M7
      expects them. */
  lemma ComparatorWords()
    ensures CompValue(0, 0x0800_0100) == 0x4800_0101 && CompValue(0, 0x0800_0102) == 0x8800_0101
    ensures CompValue(0, 0x0800_0104) == 0x4800_0105
    ensures CompValue(1, 0x0800_0100) == 0x0800_0101 && CompValue(1, 0x0800_0102) == 0x0800_0103
  {}

  lemma EnabledWord(revision: nat, addr: bv32)
    ensures CompValue(revision, addr) & 1 == 1
  {}

  // ---------------------------------------------------------------- state and operations

  const ADDRESSES: int := 0x1_0000_0000

  function Even(a: int): int {
    a - a % 2
  }

  function Word(revision: nat, addr: int): bv32 {
    if 0 <= addr < ADDRESSES then CompValue(revision, addr as bv32) else 0
  }

  /** The unit's tables, the target's comparators and its RAM. */
  datatype Unit = Unit(hw: seq<Option<int>>, sw: map<int, Halfword>, comps: seq<bv32>, ram: Memory)

  datatype Op =
    | SetAt(raw: int)
    | ClearAt(raw: int)
    | ClearAll
    | Reapply
    | UserWrite(at: int, v: Byte)   // a write to RAM by somebody else

  /** In v1 only code addresses go to the FPB; addresses from 0x80000000 on are negative to JavaScript
      and count as below. */
  predicate UsesHardware(revision: nat, addr: int) {
    revision != 0 || addr < 0x2000_0000 || addr >= 0x8000_0000
  }

  function FindSlot(hw: seq<Option<int>>, wanted: Option<int>): (slot: nat)
    ensures slot <= |hw| && (slot < |hw| ==> hw[slot] == wanted)
    ensures forall i :: 0 <= i < slot ==> hw[i] != wanted
  {
    if hw == [] || hw[0] == wanted then 0 else FindSlot(hw[1..], wanted) + 1
  }

  function PutHalfword(ram: Memory, addr: int, h: Halfword): Memory {
    (a: int) => if a == addr then h.low else if a == addr + 1 then h.high else ram(a)
  }

  function Restored(ram: Memory, sw: map<int, Halfword>): Memory {
    (a: int) => if Even(a) in sw then (if a % 2 == 0 then sw[Even(a)].low else sw[Even(a)].high) else ram(a)
  }

  function SetStep(revision: nat, b: Unit, addr: int): Unit {
    if UsesHardware(revision, addr) then
      if FindSlot(b.hw, Some(addr)) < |b.hw| then b
      else
        var slot := FindSlot(b.hw, None);
        if slot < |b.hw| && slot < |b.comps| then
          b.(hw := b.hw[slot := Some(addr)], comps := b.comps[slot := Word(revision, addr)])
        else b
    else if addr in b.sw then b
    else b.(sw := b.sw[addr := Halfword(b.ram(addr), b.ram(addr + 1))],
            ram := PutHalfword(b.ram, addr, Halfword(BKPT_LOW, BKPT_HIGH)))
  }

  function ClearStep(b: Unit, addr: int): Unit {
    var slot := FindSlot(b.hw, Some(addr));
    if slot < |b.hw| && slot < |b.comps| then b.(hw := b.hw[slot := None], comps := b.comps[slot := 0])
    else if addr in b.sw then b.(sw := b.sw - {addr}, ram := PutHalfword(b.ram, addr, b.sw[addr]))
    else b
  }

  function Blank(hw: seq<Option<int>>): seq<Option<int>> {
    seq(|hw|, _ => None)
  }

  function Step(revision: nat, b: Unit, op: Op): Unit {
    match op
    case SetAt(raw) => SetStep(revision, b, Even(raw))
    case ClearAt(raw) => ClearStep(b, Even(raw))
    case ClearAll =>
      Unit(Blank(b.hw), map[],
           seq(|b.comps|, i requires 0 <= i < |b.comps| => if i < |b.hw| && b.hw[i].Some? then 0 else b.comps[i]),
           Restored(b.ram, b.sw))
    case Reapply =>
      b.(comps := seq(|b.comps|, i requires 0 <= i < |b.comps| =>
           if i < |b.hw| && b.hw[i].Some? then Word(revision, b.hw[i].value) else b.comps[i]))
    case UserWrite(at, v) => b.(ram := (a: int) => if a == at then v else b.ram(a))
  }

  // ---------------------------------------------------------------- invariant

  /** What RAM holds: BKPT at the planted halfwords, the user's bytes everywhere else. */
  function Overlaid(planted: set<int>, user: Memory, a: int): Byte {
    if Even(a) in planted then (if a % 2 == 0 then BKPT_LOW else BKPT_HIGH) else user(a)
  }

  ghost predicate HardwareMirrored(revision: nat, b: Unit) {
    && |b.comps| == |b.hw|
    && (forall i :: 0 <= i < |b.hw| ==>
      b.comps[i] == match b.hw[i] case None => 0 case Some(addr) => Word(revision, addr))
    && (forall i, j :: 0 <= i < j < |b.hw| && b.hw[i].Some? ==> b.hw[i] != b.hw[j])
    && (forall i :: 0 <= i < |b.hw| && b.hw[i].Some? ==> b.hw[i].value % 2 == 0)
  }

  ghost predicate Inv(revision: nat, b: Unit, user: Memory) {
    && HardwareMirrored(revision, b)
    && (forall addr <- b.sw :: addr % 2 == 0 && b.sw[addr] == Halfword(user(addr), user(addr + 1)))
    && Overlays(b.ram, b.sw.Keys, user)
  }

  /** A comparator is enabled exactly if its slot is occupied. */
  lemma EnabledExactly(revision: nat, b: Unit, user: Memory, i: nat)
    requires Inv(revision, b, user) && i < |b.hw| && (b.hw[i].Some? ==> 0 <= b.hw[i].value < ADDRESSES)
    ensures b.comps[i] & 1 == 1 <==> b.hw[i].Some?
  {
    if b.hw[i].Some? {
      EnabledWord(revision, b.hw[i].value as bv32);
    }
  }

  predicate Permitted(b: Unit, op: Op) {
    op.UserWrite? ==> Even(op.at) !in b.sw
  }

  function UserAfter(user: Memory, op: Op): Memory {
    match op
    case UserWrite(at, v) => (a: int) => if a == at then v else user(a)
    case _ => user
  }

  /** The two bytes of a halfword. */
  lemma HalfwordBytes(addr: int, a: int)
    requires addr % 2 == 0
    ensures Even(a) == addr <==> a == addr || a == addr + 1
    ensures a == addr ==> a % 2 == 0
    ensures a == addr + 1 ==> a % 2 == 1
  {}

  ghost predicate Overlays(ram: Memory, planted: set<int>, user: Memory) {
    forall a :: ram(a) == Overlaid(planted, user, a)
  }

  lemma PlantingOverlays(ram: Memory, planted: set<int>, user: Memory, addr: int)
    requires addr % 2 == 0 && Overlays(ram, planted, user)
    ensures Overlays(PutHalfword(ram, addr, Halfword(BKPT_LOW, BKPT_HIGH)), planted + {addr}, user)
  {
    forall a
      ensures PutHalfword(ram, addr, Halfword(BKPT_LOW, BKPT_HIGH))(a) == Overlaid(planted + {addr}, user, a)
    {
      HalfwordBytes(addr, a);
    }
  }

  lemma RestoringOverlays(ram: Memory, planted: set<int>, user: Memory, addr: int)
    requires addr % 2 == 0 && Overlays(ram, planted, user)
    ensures Overlays(PutHalfword(ram, addr, Halfword(user(addr), user(addr + 1))), planted - {addr}, user)
  {
    forall a
      ensures PutHalfword(ram, addr, Halfword(user(addr), user(addr + 1)))(a) == Overlaid(planted - {addr}, user, a)
    {
      HalfwordBytes(addr, a);
    }
  }

  lemma OriginalHalfword(b: Unit, user: Memory, addr: int)
    requires addr % 2 == 0 && addr !in b.sw && Overlays(b.ram, b.sw.Keys, user)
    ensures b.ram(addr) == user(addr) && b.ram(addr + 1) == user(addr + 1)
  {
    HalfwordBytes(addr, addr);
    HalfwordBytes(addr, addr + 1);
  }

  lemma HardwareSet(revision: nat, b: Unit, addr: int)
    requires HardwareMirrored(revision, b) && addr % 2 == 0 && UsesHardware(revision, addr)
    ensures HardwareMirrored(revision, SetStep(revision, b, addr))
  {}

  lemma SetKeepsInv(revision: nat, b: Unit, user: Memory, addr: int)
    requires Inv(revision, b, user) && addr % 2 == 0
    ensures Inv(revision, SetStep(revision, b, addr), user)
  {
    if UsesHardware(revision, addr) {
      HardwareSet(revision, b, addr);
    } else if addr !in b.sw {
      OriginalHalfword(b, user, addr);
      PlantingOverlays(b.ram, b.sw.Keys, user, addr);
      assert SetStep(revision, b, addr).sw.Keys == b.sw.Keys + {addr};
    }
  }

  lemma ClearKeepsInv(revision: nat, b: Unit, user: Memory, addr: int)
    requires Inv(revision, b, user) && addr % 2 == 0
    ensures Inv(revision, ClearStep(b, addr), user)
  {
    if FindSlot(b.hw, Some(addr)) == |b.hw| && addr in b.sw {
      RestoringOverlays(b.ram, b.sw.Keys, user, addr);
      assert ClearStep(b, addr).sw.Keys == b.sw.Keys - {addr};
    }
  }

  /** The tables alone, whatever the comparators hold. */
  ghost predicate TablesGood(b: Unit, user: Memory) {
    && |b.comps| == |b.hw|
    && (forall i, j :: 0 <= i < j < |b.hw| && b.hw[i].Some? ==> b.hw[i] != b.hw[j])
    && (forall i :: 0 <= i < |b.hw| && b.hw[i].Some? ==> b.hw[i].value % 2 == 0)
    && (forall addr <- b.sw :: addr % 2 == 0 && b.sw[addr] == Halfword(user(addr), user(addr + 1)))
    && Overlays(b.ram, b.sw.Keys, user)
  }

  /** If the comparators of free slots are zero, as after a reset, reapply restores the invariant. */
  lemma ReapplyRestores(revision: nat, b: Unit, user: Memory)
    requires TablesGood(b, user) && forall i :: 0 <= i < |b.hw| && b.hw[i].None? ==> b.comps[i] == 0
    ensures Inv(revision, Step(revision, b, Reapply), user)
  {}

  /** clearAll gives the user's RAM back, byte for byte, and disables every comparator. */
  lemma ClearAllRestores(revision: nat, b: Unit, user: Memory)
    requires Inv(revision, b, user)
    ensures var t := Step(revision, b, ClearAll);
      && Inv(revision, t, user)
      && (forall a :: t.ram(a) == user(a))
      && (forall i :: 0 <= i < |t.comps| ==> t.comps[i] == 0 && t.hw[i].None?)
  {
    var t := Step(revision, b, ClearAll);
    forall a
      ensures t.ram(a) == user(a)
    {
      var e := Even(a);
      if e in b.sw {
        assert b.sw[e] == Halfword(user(e), user(e + 1));
        assert if a % 2 == 0 then a == e else a == e + 1;
      }
    }
  }

  lemma StepKeepsInv(revision: nat, b: Unit, user: Memory, op: Op)
    requires Inv(revision, b, user) && Permitted(b, op)
    ensures Inv(revision, Step(revision, b, op), UserAfter(user, op))
  {
    match op {
      case SetAt(raw) => SetKeepsInv(revision, b, user, Even(raw));
      case ClearAt(raw) => ClearKeepsInv(revision, b, user, Even(raw));
      case ClearAll => ClearAllRestores(revision, b, user);
      case Reapply =>
      case UserWrite(at, v) =>
    }
  }

  // ---------------------------------------------------------------- runs

  function Run(revision: nat, b: Unit, ops: seq<Op>): Unit {
    if ops == [] then b else Step(revision, Run(revision, b, ops[..|ops| - 1]), ops[|ops| - 1])
  }

  function UserRun(user: Memory, ops: seq<Op>): Memory {
    if ops == [] then user else UserAfter(UserRun(user, ops[..|ops| - 1]), ops[|ops| - 1])
  }

  ghost predicate PermittedRun(revision: nat, b: Unit, ops: seq<Op>) {
    forall i :: 0 <= i < |ops| ==> Permitted(Run(revision, b, ops[..i]), ops[i])
  }

  /** Nothing planted, all comparators zero. */
  predicate Fresh(b: Unit) {
    |b.comps| == |b.hw| && b.sw == map[] && forall i :: 0 <= i < |b.hw| ==> b.hw[i].None? && b.comps[i] == 0
  }

  /** Over any sequence of operations on a fresh unit, RAM is the user's RAM overlaid with BKPT at
      exactly the planted addresses, and the comparators mirror the slots. */
  lemma {:induction false} RunKeepsOverlay(revision: nat, b: Unit, ops: seq<Op>)
    requires Fresh(b) && PermittedRun(revision, b, ops)
    ensures Inv(revision, Run(revision, b, ops), UserRun(b.ram, ops))
  {
    if ops != [] {
      var init := ops[..|ops| - 1];
      assert forall i :: 0 <= i < |init| ==> init[..i] == ops[..i];
      RunKeepsOverlay(revision, b, init);
      StepKeepsInv(revision, Run(revision, b, init), UserRun(b.ram, init), ops[|ops| - 1]);
    }
  }

  /** Setting and clearing the same address leaves the user's RAM and the other breakpoints alone. */
  lemma SetThenClear(revision: nat, b: Unit, user: Memory, addr: int)
    requires Inv(revision, b, user) && addr % 2 == 0 && addr !in b.sw && Some(addr) !in b.hw
    ensures var t := ClearStep(SetStep(revision, b, addr), addr);
      t.sw == b.sw && t.hw == b.hw && t.comps == b.comps && forall a :: t.ram(a) == b.ram(a)
  {
    var s := SetStep(revision, b, addr);
    var t := ClearStep(s, addr);
    SetKeepsInv(revision, b, user, addr);
    ClearKeepsInv(revision, s, user, addr);
    assert FindSlot(b.hw, Some(addr)) == |b.hw|;
    if UsesHardware(revision, addr) {
      var slot := FindSlot(b.hw, None);
      if slot < |b.hw| {
        assert s.hw[slot] == Some(addr);
        assert FindSlot(s.hw, Some(addr)) == slot;
        assert t.hw == b.hw && t.comps == b.comps;
      }
    } else {
      assert t.sw == b.sw;
    }
  }
}
