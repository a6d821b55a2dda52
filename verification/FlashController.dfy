/** The sector-flash controller of an STM32F4, as seen through the debug port: FLASH_KEYR, FLASH_SR
    and FLASH_CR in front of an array of bytes. Erasing sets a sector to 0xff, programming can only
    clear bits. Every access may fail on the bus, before or after it took effect, and every erase or
    program operation may fail with an error flag, leaving the bytes it was working on arbitrary; some
    controllers also fail to program without a flag.

    FLASH_CR is kept as a record of its fields; module FlashWords shows that the driver's masks and
    shifts on 32-bit words are the field updates used here. */
module FlashController {
  import opened Wrappers

  const KEY1 := 0x4567_0123
  const KEY2 := 0xcdef_89ab

  /** The fields of FLASH_CR. The sector number has five bits: four in `snb` and one above them. */
  datatype Cr = Cr(lock: bool, strt: bool, psize: nat, snbHigh: bool, snb: nat, mer: bool, ser: bool, pg: bool) {
    /** A read-modify-write of this value is harmless. */
    predicate Clean() {
      !strt && !snbHigh && !mer
    }

    function SectorField(): nat {
      snb + if snbHigh then 16 else 0
    }
  }

  /** The power-on value, and the value the driver writes to lock the controller. */
  const LOCKED := Cr(true, false, 0, false, 0, false, false, false)

  /** What the driver asked for, in the order of the requests: halting the core, which is not the
      controller's business, with its success; writes of keys to FLASH_KEYR; the write to FLASH_SR that
      clears the error flags, with its success; and what FLASH_CR and writes to the flash ask for. */
  datatype Request =
    | HaltRequest(done: bool)
    | KeyRequest(key: nat)
    | ClearRequest(done: bool)
    | EraseRequest(sector: nat)
    | ProgramRequest(at: int, len: int)
    | LockRequest
    | MassEraseRequest

  /** The controller, together with the requests it has received so far. */
  datatype Chip = Chip(flash: seq<Byte>, cr: Cr, error: bool, keyStage: nat, issued: seq<Request>)

  /** How the controller understands a value written to FLASH_CR. */
  datatype Command = Store | EraseCommand(sector: nat) | LockCommand | MassErase

  function CommandOf(v: Cr): Command {
    if v.mer then MassErase
    else if v.lock then LockCommand
    else if v.strt && v.ser then EraseCommand(v.SectorField())
    else Store
  }

  function RequestsOf(command: Command): seq<Request> {
    match command
    case Store => []
    case EraseCommand(k) => [EraseRequest(k)]
    case LockCommand => [LockRequest]
    case MassErase => [MassEraseRequest]
  }

  /** Offset of sector k from the start of the bank. */
  function StartOf(sizes: seq<nat>, k: nat): nat
    requires k <= |sizes|
  {
    if k == 0 then 0 else StartOf(sizes, k - 1) + sizes[k - 1]
  }

  /** Sectors are a whole number of words, and there are few enough for a four-bit sector number. */
  ghost predicate ValidGeometry(sizes: seq<nat>) {
    && 0 < |sizes| <= 16
    && forall k :: 0 <= k < |sizes| ==> 0 < sizes[k] && sizes[k] % 4 == 0
  }

  predicate InSector(sizes: seq<nat>, k: nat, i: int)
    requires k < |sizes|
  {
    StartOf(sizes, k) <= i < StartOf(sizes, k) + sizes[k]
  }

  function Erase(flash: seq<Byte>, sizes: seq<nat>, k: nat): (after: seq<Byte>)
    requires k < |sizes|
  {
    seq(|flash|, i requires 0 <= i < |flash| => if InSector(sizes, k, i) then 0xff else flash[i])
  }

  function Program(flash: seq<Byte>, at: int, data: seq<Byte>): (after: seq<Byte>) {
    seq(|flash|, i requires 0 <= i < |flash| => if at <= i < at + |data| then flash[i] & data[i - at] else flash[i])
  }

  function Scramble(flash: seq<Byte>, at: int, len: int, junk: seq<Byte>): (after: seq<Byte>) {
    seq(|flash|, i requires 0 <= i < |flash| => if at <= i < at + len && i < |junk| then junk[i] else flash[i])
  }

  ghost predicate SameOutside(before: seq<Byte>, after: seq<Byte>, at: int, len: int) {
    |after| == |before| && forall i :: 0 <= i < |before| && !(at <= i < at + len) ==> after[i] == before[i]
  }

  /** The effect of a command. A mass erase or an erase with a sector number outside the bank is
      modelled as destroying everything. */
  ghost predicate Obeyed(sizes: seq<nat>, c: Chip, command: Command, v: Cr, d: Chip) {
    && d.issued == c.issued
    && match command
       case Store => d == c.(cr := v)
       case LockCommand => d == c.(cr := LOCKED)
       case MassErase => |d.flash| == |c.flash|
       case EraseCommand(k) =>
         if k >= |sizes| then
           |d.flash| == |c.flash|
         else
           d.cr == v.(strt := false) && d.keyStage == c.keyStage &&
           ((d.flash == Erase(c.flash, sizes, k) && d.error == c.error) ||
            (SameOutside(c.flash, d.flash, StartOf(sizes, k), sizes[k]) && d.error))
  }

  function WithRequest(c: Chip, v: Cr): Chip {
    c.(issued := c.issued + RequestsOf(CommandOf(v)))
  }

  /** The controller's reaction to a write to FLASH_CR; while locked, it only stays locked. */
  ghost predicate CrTaken(sizes: seq<nat>, c: Chip, v: Cr, d: Chip) {
    Obeyed(sizes, WithRequest(c, v), if c.cr.lock then LockCommand else CommandOf(v), v, d)
  }

  function AfterHalt(c: Chip, ok: bool): Chip {
    c.(issued := c.issued + [HaltRequest(ok)])
  }

  /** A key that reaches the controller: only the second, right after the first, unlocks. */
  function KeyStep(c: Chip, v: nat): Chip {
    if c.keyStage == 0 && v == KEY1 then c.(keyStage := 1)
    else if c.keyStage == 1 && v == KEY2 then c.(keyStage := 0, cr := c.cr.(lock := false))
    else c.(keyStage := 0)
  }

  ghost predicate KeyTaken(c: Chip, v: nat, ok: bool, d: Chip) {
    var asked := c.(issued := c.issued + [KeyRequest(v)]);
    d == KeyStep(asked, v) || (!ok && d == asked)
  }

  /** Writing ones to FLASH_SR clears all error flags, if the write has reached the controller. */
  ghost predicate ErrorsCleared(c: Chip, ok: bool, d: Chip) {
    d == c.(error := d.error, issued := c.issued + [ClearRequest(ok)]) && (d.error ==> c.error && !ok)
  }

  /** What programming may do. A controller that is not trusted may fail without setting the error flag. */
  ghost predicate Programmed(trusted: bool, c: Chip, at: int, data: seq<Byte>, d: Chip) {
    if c.cr.lock || !c.cr.pg then
      d == c
    else
      d == c.(flash := d.flash, error := d.error) &&
      ((d.flash == Program(c.flash, at, data) && d.error == c.error) ||
       (SameOutside(c.flash, d.flash, at, |data|) && (d.error || (!trusted && d.error == c.error))))
  }

  function WithProgram(c: Chip, at: int, len: int): Chip {
    c.(issued := c.issued + [ProgramRequest(at, len)])
  }

  class Controller {
    const sizes: seq<nat>
    /** No transfer fails, no operation is reported as failed, and none is busy when polled. */
    const reliable: bool
    /** Programming never fails without setting the error flag. */
    const honest: bool
    var flash: seq<Byte>
    var cr: Cr
    var error: bool
    var keyStage: nat
    /** The status of the last memory access, which the probe reports when asked. */
    var rwOk: bool
    ghost var issued: seq<Request>

    ghost function State(): Chip
      reads this
    {
      Chip(flash, cr, error, keyStage, issued)
    }

    predicate Trusted() {
      reliable || honest
    }

    /** Power-on state over arbitrary flash contents. */
    constructor (sizes: seq<nat>, contents: seq<Byte>, reliable: bool, honest: bool)
      ensures State() == Chip(contents, LOCKED, false, 0, [])
      ensures this.sizes == sizes && this.reliable == reliable && this.honest == honest
    {
      this.sizes := sizes;
      this.reliable := reliable;
      this.honest := honest;
      flash, cr, error, keyStage, rwOk := contents, LOCKED, false, 0, true;
      issued := [];
    }

    method Halt() returns (ok: bool)
      modifies this`issued
      ensures State() == AfterHalt(old(State()), ok)
      ensures reliable ==> ok
    {
      ok := *;
      ok := ok || reliable;
      issued := issued + [HaltRequest(ok)];
    }

    method ReadCr() returns (ok: bool, v: Cr)
      ensures ok ==> v == cr
      ensures reliable ==> ok
    {
      v := cr;
      ok := *;
      ok := ok || reliable;
    }

    /** While an operation is going on, the error flags are not final. */
    method ReadSr() returns (ok: bool, busy: bool, failed: bool)
      ensures ok && !busy ==> failed == error
      ensures reliable ==> ok && !busy
    {
      busy := *;
      busy := busy && !reliable;
      failed := *;
      failed := if busy then failed else error;
      ok := *;
      ok := ok || reliable;
    }

    method WriteKey(v: nat) returns (ok: bool)
      modifies this`cr, this`keyStage, this`issued
      ensures KeyTaken(old(State()), v, ok, State())
      ensures cr == old(cr) || (cr == old(cr).(lock := false) && old(keyStage) == 1 && v == KEY2)
      ensures reliable ==> ok
    {
      issued := issued + [KeyRequest(v)];
      ok := *;
      var reached: bool := *;
      ok := ok || reliable;
      if ok || reached {
        if keyStage == 0 && v == KEY1 {
          keyStage := 1;
        } else if keyStage == 1 && v == KEY2 {
          keyStage, cr := 0, cr.(lock := false);
        } else {
          keyStage := 0;
        }
      }
    }

    method ClearErrors() returns (ok: bool)
      modifies this`error, this`issued
      ensures ErrorsCleared(old(State()), ok, State())
      ensures reliable ==> ok
    {
      ok := *;
      var reached: bool := *;
      ok := ok || reliable;
      issued := issued + [ClearRequest(ok)];
      error := error && !ok && !reached;
    }

    method WriteCr(v: Cr) returns (ok: bool)
      modifies this
      ensures CrTaken(sizes, old(State()), v, State()) || (!ok && State() == WithRequest(old(State()), v))
      ensures reliable ==> ok && error == old(error)
    {
      issued := issued + RequestsOf(CommandOf(v));
      ok := *;
      var reached: bool := *;
      ok := ok || reliable;
      if ok || reached {
        Obey(if cr.lock then LockCommand else CommandOf(v), v);
      }
    }

    method Obey(command: Command, v: Cr)
      modifies this
      ensures Obeyed(sizes, old(State()), command, v, State())
      ensures reliable ==> error == old(error)
    {
      var junk: seq<Byte> := *;
      match command {
        case Store =>
          cr := v;
        case LockCommand =>
          cr := LOCKED;
        case MassErase =>
          cr, flash := v, Scramble(flash, 0, |flash|, junk);
        case EraseCommand(k) =>
          cr := v.(strt := false);
          if k >= |sizes| {
            flash := Scramble(flash, 0, |flash|, junk);
          } else {
            var failed: bool := *;
            if failed && !reliable {
              flash := Scramble(flash, StartOf(sizes, k), sizes[k], junk);
              error := true;
            } else {
              flash := Erase(flash, sizes, k);
            }
          }
      }
    }

    /** A 32-bit transfer to flash addresses; `at` is an offset into the flash. */
    method SetMem32(at: int, data: seq<Byte>) returns (ok: bool)
      requires at % 4 == 0 && |data| % 4 == 0 && |data| <= 1024
      modifies this
      ensures
        || Programmed(Trusted(), WithProgram(old(State()), at, |data|), at, data, State())
        || (!ok && State() == WithProgram(old(State()), at, |data|))
      ensures ok ==> rwOk == (!old(cr.lock) && old(cr.pg))
      ensures reliable ==> ok && error == old(error)
    {
      issued := issued + [ProgramRequest(at, |data|)];
      rwOk := !cr.lock && cr.pg;
      ok := *;
      var reached: bool := *;
      ok := ok || reliable;
      if (ok || reached) && !cr.lock && cr.pg {
        var failed: bool, noticed: bool := *, *;
        if failed && !reliable {
          var junk: seq<Byte> := *;
          flash := Scramble(flash, at, |data|, junk);
          error := error || noticed || honest;
        } else {
          flash := Program(flash, at, data);
        }
      }
    }

    method GetMem32(at: int, len: nat) returns (ok: bool, data: seq<Byte>)
      requires at % 4 == 0 && len % 4 == 0 && len <= 1024
      requires 0 <= at && at + len <= |flash|
      ensures |data| == len
      ensures ok ==> data == flash[at..at + len]
      ensures reliable ==> ok
    {
      data := flash[at..at + len];
      ok := *;
      ok := ok || reliable;
    }
  }
}
