/** The breakpoint unit as an object: slot table and map changed in place together with the target. */
module BreakpointUnit {
  import opened Wrappers
  import opened Breakpoints

  datatype Kind = Hardware | Software | NoFreeSlot | AccessFailed

  /** The debug port. An access can fail; a failed access has no effect. */
  class Target {
    var comps: seq<bv32>
    var ram: Memory

    constructor (slots: nat, ram: Memory)
      ensures comps == seq(slots, _ => 0) && this.ram == ram
    {
      this.comps := seq(slots, _ => 0);
      this.ram := ram;
    }

    method WriteComp(i: nat, w: bv32) returns (ok: bool)
      requires i < |comps|
      modifies this`comps
      ensures comps == if ok then old(comps)[i := w] else old(comps)
    {
      ok := *;
      if ok {
        comps := comps[i := w];
      }
    }

    method ReadHalfword(addr: int) returns (ok: bool, h: Halfword)
      ensures ok ==> h == Halfword(ram(addr), ram(addr + 1))
    {
      h := Halfword(ram(addr), ram(addr + 1));
      ok := *;
    }

    method WriteHalfword(addr: int, h: Halfword) returns (ok: bool)
      modifies this`ram
      ensures ram == if ok then PutHalfword(old(ram), addr, h) else old(ram)
    {
      ok := *;
      if ok {
        ram := PutHalfword(ram, addr, h);
      }
    }
  }

  /** All halfwords but those in `left` are back. */
  ghost predicate PartlyRestored(before: Memory, sw: map<int, Halfword>, left: set<int>, after: Memory) {
    forall a :: after(a) == if Even(a) in left then before(a) else Restored(before, sw)(a)
  }

  lemma RestoreOneMore(before: Memory, sw: map<int, Halfword>, left: set<int>, mid: Memory, addr: int)
    requires addr in left && addr in sw && addr % 2 == 0 && PartlyRestored(before, sw, left, mid)
    ensures PartlyRestored(before, sw, left - {addr}, PutHalfword(mid, addr, sw[addr]))
  {
    var after := PutHalfword(mid, addr, sw[addr]);
    forall a
      ensures after(a) == if Even(a) in left - {addr} then before(a) else Restored(before, sw)(a)
    {
      if Even(a) == addr {
        assert a == addr || a == addr + 1;
      } else {
        assert a != addr && a != addr + 1 && after(a) == mid(a);
      }
    }
  }

  /** Freeing a slot and disabling its comparator keeps the rest mirrored. */
  lemma FreedSlot(revision: nat, b: Unit, i: nat)
    requires HardwareMirrored(revision, b) && i < |b.hw|
    ensures HardwareMirrored(revision, b.(hw := b.hw[i := None], comps := b.comps[i := 0]))
  {}

  lemma Pick<T>(s: set<T>) returns (x: T)
    requires s != {}
    ensures x in s
  {
    x :| x in s;
  }

  lemma ClearedRestores(ram: Memory, planted: set<int>, user: Memory, addr: int)
    requires addr % 2 == 0 && Overlays(ram, planted, user) && addr !in planted
    ensures ram(addr) == user(addr) && ram(addr + 1) == user(addr + 1)
  {
    HalfwordBytes(addr, addr);
    HalfwordBytes(addr, addr + 1);
  }

  /** Breakpoints at other addresses are as before. */
  ghost predicate SameElsewhere(hw: seq<Option<int>>, sw: map<int, Halfword>, hw': seq<Option<int>>,
    sw': map<int, Halfword>, addr: int) {
    forall a :: a != addr ==> (Some(a) in hw <==> Some(a) in hw') && (a in sw <==> a in sw')
  }

  lemma SlotChanged(hw: seq<Option<int>>, slot: nat, addr: int, wanted: Option<int>)
    requires slot < |hw| && (hw[slot] == None || hw[slot] == Some(addr)) && (wanted == None || wanted == Some(addr))
    ensures forall a :: a != addr ==> (Some(a) in hw <==> Some(a) in hw[slot := wanted])
  {
    forall a | a != addr
      ensures Some(a) in hw <==> Some(a) in hw[slot := wanted]
    {
      assert forall i :: 0 <= i < |hw| && i != slot ==> hw[slot := wanted][i] == hw[i];
      if Some(a) in hw {
        var i :| 0 <= i < |hw| && hw[i] == Some(a);
        assert hw[slot := wanted][i] == Some(a);
      }
    }
  }

  class BreakpointUnit {
    const target: Target
    const revision: nat
    var hw: seq<Option<int>>
    var sw: map<int, Halfword>

    ghost function State(): Unit
      reads this, target
    {
      Unit(hw, sw, target.comps, target.ram)
    }

    /** After `probe` on a target whose comparators are all zero. */
    constructor (target: Target, revision: nat)
      requires forall i :: 0 <= i < |target.comps| ==> target.comps[i] == 0
      ensures this.target == target && this.revision == revision && Fresh(State())
      ensures State().ram == target.ram
    {
      this.target := target;
      this.revision := revision;
      hw, sw := seq(|target.comps|, _ => None), map[];
    }

    ghost predicate Valid(user: Memory)
      reads this, target
    {
      Inv(revision, State(), user)
    }

    /** Set a breakpoint, in hardware or in RAM; nothing changes when it cannot be set. */
    method SetBreakpoint(raw: int, ghost user: Memory) returns (kind: Kind)
      requires Valid(user)
      modifies this, target
      ensures Valid(user)
      ensures kind.Hardware? || kind.Software? ==> State() == Step(revision, old(State()), SetAt(raw))
      ensures kind.NoFreeSlot? || kind.AccessFailed? ==> State() == old(State())
      ensures kind.Hardware? ==> Some(Even(raw)) in hw
      ensures kind.Software? ==>
        Even(raw) in sw && target.ram(Even(raw)) == 0x00 && target.ram(Even(raw) + 1) == 0xbe
      ensures revision == 0 && 0x2000_0000 <= Even(raw) < 0x8000_0000 ==> kind.Software? || kind.AccessFailed?
      ensures revision != 0 || Even(raw) < 0x2000_0000 || Even(raw) >= 0x8000_0000 ==> !kind.Software?
      ensures kind.NoFreeSlot? ==> None !in hw && Some(Even(raw)) !in hw
      ensures SameElsewhere(old(hw), old(sw), hw, sw, Even(raw))
    {
      var addr := Even(raw);
      StepKeepsInv(revision, State(), user, SetAt(raw));
      if UsesHardware(revision, addr) {
        if FindSlot(hw, Some(addr)) < |hw| {
          return Hardware;
        }
        var slot := FindSlot(hw, None);
        if slot == |hw| {
          return NoFreeSlot;
        }
        var ok := target.WriteComp(slot, Word(revision, addr));
        if !ok {
          return AccessFailed;
        }
        SlotChanged(hw, slot, addr, Some(addr));
        hw := hw[slot := Some(addr)];
        assert hw[slot] == Some(addr);
        return Hardware;
      }
      HalfwordBytes(addr, addr);
      HalfwordBytes(addr, addr + 1);
      if addr in sw {
        return Software;
      }
      var ok, original := target.ReadHalfword(addr);
      if ok {
        ok := target.WriteHalfword(addr, Halfword(BKPT_LOW, BKPT_HIGH));
      }
      if !ok {
        return AccessFailed;
      }
      sw := sw[addr := original];
      kind := Software;
    }

    /** Clear a breakpoint; `found` tells whether there was one. */
    method ClearBreakpoint(raw: int, ghost user: Memory) returns (ok: bool, found: bool)
      requires Valid(user)
      modifies this, target
      ensures Valid(user)
      ensures State() == if ok then Step(revision, old(State()), ClearAt(raw)) else old(State())
      ensures ok ==> found == (Some(Even(raw)) in old(hw) || Even(raw) in old(sw))
      ensures ok ==> Some(Even(raw)) !in hw && (Even(raw) in sw ==> Some(Even(raw)) in old(hw))
      ensures ok && Even(raw) !in sw ==>
        target.ram(Even(raw)) == user(Even(raw)) && target.ram(Even(raw) + 1) == user(Even(raw) + 1)
      ensures SameElsewhere(old(hw), old(sw), hw, sw, Even(raw))
    {
      var addr := Even(raw);
      StepKeepsInv(revision, State(), user, ClearAt(raw));
      var slot := FindSlot(hw, Some(addr));
      if slot < |hw| {
        ok := target.WriteComp(slot, 0);
        SlotChanged(hw, slot, addr, None);
        if ok {
          hw := hw[slot := None];
          if addr !in sw {
            ClearedRestores(target.ram, sw.Keys, user, addr);
          }
        }
        return ok, true;
      }
      if addr in sw {
        ok := target.WriteHalfword(addr, sw[addr]);
        if ok {
          sw := sw - {addr};
          ClearedRestores(target.ram, sw.Keys, user, addr);
        }
        return ok, true;
      }
      ClearedRestores(target.ram, sw.Keys, user, addr);
      return true, false;
    }

    /** Disable the comparators; stops at the first access that fails. */
    method ClearSlots(ghost user: Memory) returns (ok: bool)
      requires Valid(user)
      modifies this`hw, target`comps
      ensures Valid(user) && |hw| == old(|hw|)
      ensures ok ==> forall i :: 0 <= i < |hw| ==> hw[i].None? && target.comps[i] == 0
    {
      for i := 0 to |hw|
        invariant HardwareMirrored(revision, State()) && |hw| == old(|hw|)
        invariant forall j :: 0 <= j < i ==> hw[j].None?
      {
        if hw[i].Some? {
          FreedSlot(revision, State(), i);
          ok := target.WriteComp(i, 0);
          if !ok {
            return;
          }
          hw := hw[i := None];
        }
      }
      ok := true;
    }

    /** Put the original halfwords back and forget them all; `lost` are those that could not be written. */
    method RestoreAll() returns (ghost lost: set<int>)
      requires forall addr <- sw :: addr % 2 == 0
      modifies this`sw, target`ram
      ensures sw == map[] && lost <= old(sw.Keys)
      ensures PartlyRestored(old(target.ram), old(sw), lost, target.ram)
    {
      lost := {};
      var left := sw.Keys;
      while left != {}
        invariant left <= sw.Keys && lost <= sw.Keys - left && sw == old(sw)
        invariant PartlyRestored(old(target.ram), old(sw), left + lost, target.ram)
        decreases left
      {
        ghost var some := Pick(left);
        var addr :| addr in left;
        RestoreOneMore(old(target.ram), sw, left + lost, target.ram, addr);
        var ok := target.WriteHalfword(addr, sw[addr]);
        assert left - {addr} + (lost + {addr}) == left + lost;
        assert left - {addr} + lost == left + lost - {addr};
        if !ok {
          lost := lost + {addr};
        }
        left := left - {addr};
      }
      sw := map[];
    }

    /** Remove everything. If every access succeeds, RAM is exactly the user's; a halfword that could not
        be restored stays a BKPT and is forgotten. */
    method ClearAll(ghost user: Memory) returns (ok: bool, ghost lost: set<int>)
      requires Valid(user)
      modifies this, target
      ensures ok ==> sw == map[] && lost <= old(sw.Keys)
      ensures ok ==> |target.comps| == |hw| && forall i :: 0 <= i < |hw| ==> hw[i].None? && target.comps[i] == 0
      ensures ok ==> forall a :: target.ram(a) == Overlaid(lost, user, a)
      ensures ok && lost == {} ==> Valid(user) && forall a :: target.ram(a) == user(a)
      ensures !ok ==> Valid(user) && target.ram == old(target.ram)
    {
      lost := {};
      ok := ClearSlots(user);
      if !ok {
        return;
      }
      ClearAllRestores(revision, State(), user);
      lost := RestoreAll();
    }

    /** Write the comparators of the occupied slots again after a reset, which may have left anything in
        them. From tables in order over RAM that is overlaid, the invariant is back. */
    method Reapply(ghost user: Memory) returns (ok: bool)
      requires TablesGood(State(), user)
      requires forall i :: 0 <= i < |hw| && hw[i].None? ==> target.comps[i] == 0
      modifies target`comps
      ensures ok ==> State() == Step(revision, old(State()), Op.Reapply) && Valid(user)
      ensures TablesGood(State(), user) && State().ram == old(State().ram)
    {
      for i := 0 to |hw|
        invariant |target.comps| == |hw|
        invariant forall j :: 0 <= j < |hw| ==>
          target.comps[j] == if j < i && hw[j].Some? then Word(revision, hw[j].value) else old(target.comps)[j]
      {
        if hw[i].Some? {
          ok := target.WriteComp(i, Word(revision, hw[i].value));
          if !ok {
            return;
          }
        }
      }
      ReapplyRestores(revision, old(State()), user);
      assert target.comps == Step(revision, old(State()), Op.Reapply).comps;
      ok := true;
    }
  }
}
