/** Stm32FlashFS: erase the sectors an image touches, program it, read it back, lock again. */
module Stm32Flash {
  import opened Wrappers
  import opened FlashController

  const BLOCK: nat := 1024

  datatype ErrorCode = UsbIo | TargetFault | Unsupported
  datatype Outcome = Done | Failed(error: ErrorCode)

  datatype Sector = Sector(sector: nat, start: int, size: nat)

  /** The bank-1 sectors of every supported family (12 sectors, one megabyte). */
  const F4_SECTORS: seq<nat> :=
    [0x4000, 0x4000, 0x4000, 0x4000, 0x1_0000,
     0x2_0000, 0x2_0000, 0x2_0000, 0x2_0000, 0x2_0000, 0x2_0000, 0x2_0000]

  // ---------------------------------------------------------------- geometry

  lemma {:induction false} StartsAscend(sizes: seq<nat>, j: nat, k: nat)
    requires j < k <= |sizes|
    ensures StartOf(sizes, j) + sizes[j] <= StartOf(sizes, k)
  {
    if j + 1 < k {
      StartsAscend(sizes, j, k - 1);
    }
  }

  lemma {:induction false} StartsAligned(sizes: seq<nat>, k: nat)
    requires ValidGeometry(sizes) && k <= |sizes|
    ensures StartOf(sizes, k) % 4 == 0
  {
    if k > 0 {
      StartsAligned(sizes, k - 1);
    }
  }

  /** Every offset of the bank lies in a sector. */
  lemma {:induction false} SectorOf(sizes: seq<nat>, n: nat, i: int) returns (k: nat)
    requires n <= |sizes| && 0 <= i < StartOf(sizes, n)
    ensures k < n && InSector(sizes, k, i)
  {
    if i < StartOf(sizes, n - 1) {
      k := SectorOf(sizes, n - 1, i);
    } else {
      k := n - 1;
    }
  }

  predicate Overlaps(sizes: seq<nat>, k: nat, at: int, len: nat)
    requires k < |sizes|
  {
    at < StartOf(sizes, k) + sizes[k] && at + len > StartOf(sizes, k)
  }

  /** Offset i of the flash lies in a sector that [at, at+len) overlaps. */
  ghost predicate Touched(sizes: seq<nat>, at: int, len: nat, i: int) {
    exists k :: 0 <= k < |sizes| && Overlaps(sizes, k, at, len) && InSector(sizes, k, i)
  }

  /** A non-empty image overlaps exactly the sectors in which one of its bytes lies. */
  lemma OverlapsExactly(sizes: seq<nat>, k: nat, at: int, len: nat)
    requires k < |sizes| && sizes[k] > 0 && len > 0
    ensures Overlaps(sizes, k, at, len) <==>
      exists j :: at <= j < at + len && InSector(sizes, k, j)
  {
    if Overlaps(sizes, k, at, len) {
      var j := if at < StartOf(sizes, k) then StartOf(sizes, k) else at;
      assert at <= j < at + len && InSector(sizes, k, j);
    }
  }

  ghost predicate Lists(ss: seq<Sector>, k: nat) {
    exists j :: 0 <= j < |ss| && ss[j].sector == k
  }

  ghost predicate IsSectorList(ss: seq<Sector>, sizes: seq<nat>, flashStart: int, addr: int, size: nat, n: nat)
    requires n <= |sizes|
  {
    && (forall j :: 0 <= j < |ss| ==>
      var k := ss[j].sector;
      k < n && ss[j] == Sector(k, flashStart + StartOf(sizes, k), sizes[k]) &&
        Overlaps(sizes, k, addr - flashStart, size))
    && (forall i, j :: 0 <= i < j < |ss| ==> ss[i].sector < ss[j].sector)
    && (forall k :: 0 <= k < n && Overlaps(sizes, k, addr - flashStart, size) ==> Lists(ss, k))
  }

  function Pad(data: seq<Byte>): (padded: seq<Byte>)
    ensures |padded| % 4 == 0 && data <= padded && |padded| < |data| + 4
    ensures forall i :: |data| <= i < |padded| ==> padded[i] == 0xff
  {
    if |data| % 4 == 0 then data else data + seq(4 - |data| % 4, _ => 0xff)
  }

  /** From a word boundary, an image and its padding reach across the same word boundaries. */
  lemma PaddingReaches(at: int, data: seq<Byte>, boundary: int)
    requires at % 4 == 0 && boundary % 4 == 0
    ensures at + |Pad(data)| > boundary <==> at + |data| > boundary
  {
    if |data| % 4 != 0 {
      assert |Pad(data)| == |data| + 4 - |data| % 4;
    }
  }

  /** Padding an image to whole words touches no further sector and does not leave the bank. */
  lemma PaddingStaysInSectors(sizes: seq<nat>, at: int, data: seq<Byte>)
    requires ValidGeometry(sizes) && at % 4 == 0
    ensures forall k :: 0 <= k < |sizes| ==> Overlaps(sizes, k, at, |Pad(data)|) == Overlaps(sizes, k, at, |data|)
    ensures at + |data| <= StartOf(sizes, |sizes|) ==> at + |Pad(data)| <= StartOf(sizes, |sizes|)
    ensures forall i :: Touched(sizes, at, |Pad(data)|, i) == Touched(sizes, at, |data|, i)
  {
    StartsAligned(sizes, |sizes|);
    PaddingReaches(at, data, StartOf(sizes, |sizes|));
    forall k | 0 <= k < |sizes|
      ensures Overlaps(sizes, k, at, |Pad(data)|) == Overlaps(sizes, k, at, |data|)
    {
      StartsAligned(sizes, k);
      PaddingReaches(at, data, StartOf(sizes, k));
    }
  }

  // ---------------------------------------------------------------- what flashing means

  /** Byte i after flashing `data` at offset `at`: the image where it lies, 0xff in the rest of the
      touched sectors, the old byte everywhere else. */
  ghost function FlashedByte(before: seq<Byte>, sizes: seq<nat>, at: int, len: nat, data: seq<Byte>, i: int): Byte
    requires 0 <= i < |before|
  {
    if at <= i < at + |data| then data[i - at]
    else if Touched(sizes, at, len, i) then 0xff
    else before[i]
  }

  ghost predicate Flashed(before: seq<Byte>, after: seq<Byte>, sizes: seq<nat>, at: int, len: nat, data: seq<Byte>) {
    |after| == |before| &&
    forall i :: 0 <= i < |before| ==> after[i] == FlashedByte(before, sizes, at, len, data, i)
  }

  /** The bytes outside the image are as after flashing it; those of the image are anything. */
  ghost predicate FlashedAround(before: seq<Byte>, after: seq<Byte>, sizes: seq<nat>, at: int, len: nat) {
    |after| == |before| &&
    forall i :: 0 <= i < |before| && !(at <= i < at + len) ==> after[i] == FlashedByte(before, sizes, at, len, [], i)
  }

  /** Nothing outside the sectors that [at, at+len) overlaps has changed. */
  ghost predicate Confined(before: seq<Byte>, after: seq<Byte>, sizes: seq<nat>, at: int, len: nat) {
    |after| == |before| &&
    forall i :: 0 <= i < |before| && !Touched(sizes, at, len, i) ==> after[i] == before[i]
  }

  function EraseRequests(ss: seq<Sector>): (rs: seq<Request>)
    ensures |rs| == |ss|
  {
    seq(|ss|, j requires 0 <= j < |ss| => EraseRequest(ss[j].sector))
  }

  /** How far unlocking got: whether the core was halted, how many keys were sent, and whether the error
      flags were cleared, which is its last step. */
  datatype Opening = Opening(halt: Option<bool>, keys: nat, clear: Option<bool>) {
    /** Nothing is done unless the core was halted. */
    predicate Sound() {
      keys <= 2 && (halt != Some(true) ==> keys == 0 && clear.None?)
    }
  }

  function KeyRequests(keys: nat): seq<Request> {
    if keys == 0 then [] else if keys == 1 then [KeyRequest(KEY1)] else [KeyRequest(KEY1), KeyRequest(KEY2)]
  }

  function OpeningRequests(o: Opening): seq<Request> {
    (if o.halt.Some? then [HaltRequest(o.halt.value)] else []) + KeyRequests(o.keys)
    + (if o.clear.Some? then [ClearRequest(o.clear.value)] else [])
  }

  /** Unlocking has returned normally. */
  predicate Opened(o: Opening) {
    o.clear == Some(true)
  }

  /** How far a run of `Write` got: the unlocking, how many sectors it asked to erase, and its program
      requests. */
  datatype Run = Run(opening: Opening, erased: nat, programs: seq<Request>)

  const NOTHING := Run(Opening(None, 0, None), 0, [])

  ghost predicate OnlyPrograms(rs: seq<Request>) {
    forall i :: 0 <= i < |rs| ==> rs[i].ProgramRequest?
  }

  /** Erases of a prefix of the sector list, each once and in order, then nothing but programming, which
      only follows a complete erase. */
  ghost predicate WorkShaped(ss: seq<Sector>, erased: nat, programs: seq<Request>) {
    erased <= |ss| && OnlyPrograms(programs) && (programs != [] ==> erased == |ss|)
  }

  function Work(ss: seq<Sector>, erased: nat, programs: seq<Request>): seq<Request>
    requires erased <= |ss|
  {
    EraseRequests(ss[..erased]) + programs
  }

  function Asked(ss: seq<Sector>, run: Run): seq<Request>
    requires run.erased <= |ss|
  {
    OpeningRequests(run.opening) +
    if Opened(run.opening) then Work(ss, run.erased, run.programs) + [LockRequest] else []
  }

  /** The requests of a run are exactly those that came after it had begun. */
  ghost predicate Issued(before: seq<Request>, after: seq<Request>, ss: seq<Sector>, run: Run) {
    WorkShaped(ss, run.erased, run.programs) && after == before + Asked(ss, run)
  }

  lemma WorkAt(ss: seq<Sector>, erased: nat, programs: seq<Request>, k: nat)
    requires WorkShaped(ss, erased, programs) && k < |Work(ss, erased, programs)|
    ensures var w := Work(ss, erased, programs)[k];
      if k < erased then w == EraseRequest(ss[k].sector) else w.ProgramRequest?
  {}

  predicate IsWork(r: Request) {
    r.EraseRequest? || r.ProgramRequest? || r.LockRequest?
  }

  /** Halting comes first, then the keys; no mass erase; sectors are touched ones. */
  ghost predicate SafeRequest(rs: seq<Request>, i: nat, sizes: seq<nat>, at: int, len: nat)
    requires i < |rs|
  {
    && (rs[i].HaltRequest? <==> i == 0) && (0 < i ==> rs[0] == HaltRequest(true))
    && (rs[i].KeyRequest? ==> i <= 2 && rs[i].key == if i == 1 then 0x4567_0123 else 0xcdef_89ab)
    && !rs[i].MassEraseRequest?
    && (rs[i].EraseRequest? ==> rs[i].sector < |sizes| && Overlaps(sizes, rs[i].sector, at, len))
    && (IsWork(rs[i]) ==> ClearRequest(true) in rs)
  }

  /** The error flags are cleared before all work, and erases ascend and come before programming. */
  predicate SafeOrder(r: Request, later: Request) {
    && (IsWork(r) ==> !later.ClearRequest?)
    && (r.EraseRequest? && later.EraseRequest? ==> r.sector < later.sector)
    && (r.ProgramRequest? ==> !later.EraseRequest?)
  }

  /** What a sequence of requests must look like whatever the driver calls a success: the core is halted
      first, and nothing follows if that fails; only the two keys are sent, and next; nothing is erased,
      programmed or locked before the error flags were cleared; no mass erase; erases in ascending order, so
      none twice, and of touched sectors only; no erase after programming has begun; and once the flags
      were cleared, the last request is to lock. */
  ghost predicate SafeTrace(rs: seq<Request>, sizes: seq<nat>, at: int, len: nat) {
    && (forall i :: 0 <= i < |rs| ==> SafeRequest(rs, i, sizes, at, len))
    && (forall i, j :: 0 <= i < j < |rs| ==> SafeOrder(rs[i], rs[j]))
    && (ClearRequest(true) in rs ==> rs[|rs| - 1] == LockRequest)
  }

  /** Keys are followed by a lock request exactly if the error flags were cleared, the last step of
      unlocking: if unlocking fails before, the controller is not locked again. */
  lemma LockedAgainExactly(rs: seq<Request>, sizes: seq<nat>, at: int, len: nat)
    requires SafeTrace(rs, sizes, at, len)
    ensures LockRequest in rs <==> ClearRequest(true) in rs
  {
    if LockRequest in rs {
      var i :| 0 <= i < |rs| && rs[i] == LockRequest;
      assert SafeRequest(rs, i, sizes, at, len);
    }
  }

  lemma OpeningAt(o: Opening, k: nat)
    requires o.Sound() && k < |OpeningRequests(o)|
    ensures var rs := OpeningRequests(o);
      || (k == 0 && o.halt.Some? && rs[k] == HaltRequest(o.halt.value))
      || (0 < k && rs[0] == HaltRequest(true) &&
        ((k <= 2 && rs[k] == KeyRequest(if k == 1 then KEY1 else KEY2)) ||
         (o.clear.Some? && rs[k] == ClearRequest(o.clear.value) && k == |rs| - 1)))
  {}

  lemma ClearedExactly(o: Opening)
    requires o.Sound()
    ensures ClearRequest(true) in OpeningRequests(o) <==> Opened(o)
  {
    if Opened(o) {
      assert OpeningRequests(o)[|OpeningRequests(o)| - 1] == ClearRequest(true);
    }
  }

  /** The request at position k of a run that has unlocked. */
  lemma AskedAt(ss: seq<Sector>, run: Run, k: nat)
    requires WorkShaped(ss, run.erased, run.programs) && Opened(run.opening) && k < |Asked(ss, run)|
    ensures var u, rs := |OpeningRequests(run.opening)|, Asked(ss, run);
      && |rs| == u + run.erased + |run.programs| + 1
      && (k < u ==> rs[k] == OpeningRequests(run.opening)[k])
      && (u <= k < u + run.erased ==> rs[k] == EraseRequest(ss[k - u].sector))
      && (u + run.erased <= k < |rs| - 1 ==> rs[k].ProgramRequest?)
      && (k == |rs| - 1 ==> rs[k] == LockRequest)
      && 0 < u && rs[u - 1] == ClearRequest(true)
  {
    var u, rs, w := OpeningRequests(run.opening), Asked(ss, run), Work(ss, run.erased, run.programs);
    assert rs == u + w + [LockRequest];
    if |u| <= k < |rs| - 1 {
      WorkAt(ss, run.erased, run.programs, k - |u|);
    }
    assert rs[|u| - 1] == ClearRequest(true);
  }

  /** Every run has a safe sequence of requests. */
  lemma RunIsSafe(ss: seq<Sector>, run: Run, sizes: seq<nat>, addr: int, len: nat)
    requires IsSectorList(ss, sizes, WINDOW_START, addr, len, |sizes|)
    requires WorkShaped(ss, run.erased, run.programs) && run.opening.Sound()
    ensures SafeTrace(Asked(ss, run), sizes, addr - WINDOW_START, len)
  {
    var rs := Asked(ss, run);
    ClearedExactly(run.opening);
    if Opened(run.opening) {
      OpenedRunIsSafe(ss, run, sizes, addr, len);
    } else {
      assert rs == OpeningRequests(run.opening);
      forall k | 0 <= k < |rs|
        ensures (rs[k].HaltRequest? <==> k == 0) && (0 < k ==> rs[0] == HaltRequest(true))
        ensures k == 0 || rs[k].ClearRequest? || (k <= 2 && rs[k] == KeyRequest(if k == 1 then KEY1 else KEY2))
      {
        OpeningAt(run.opening, k);
      }
    }
  }

  lemma OpenedRunIsSafe(ss: seq<Sector>, run: Run, sizes: seq<nat>, addr: int, len: nat)
    requires IsSectorList(ss, sizes, WINDOW_START, addr, len, |sizes|)
    requires WorkShaped(ss, run.erased, run.programs) && run.opening.Sound() && Opened(run.opening)
    ensures SafeTrace(Asked(ss, run), sizes, addr - WINDOW_START, len)
  {
    var rs, u := Asked(ss, run), |OpeningRequests(run.opening)|;
    forall k | 0 <= k < |rs|
      ensures (rs[k].HaltRequest? <==> k == 0) && (0 < k ==> rs[0] == HaltRequest(true))
      ensures rs[k].KeyRequest? ==> k <= 2 && rs[k].key == if k == 1 then KEY1 else KEY2
      ensures rs[k].EraseRequest? ==> u <= k < u + run.erased && rs[k].sector == ss[k - u].sector
      ensures rs[k].ProgramRequest? ==> u + run.erased <= k
      ensures !rs[k].MassEraseRequest?
      ensures IsWork(rs[k]) ==> u <= k
      ensures rs[k].ClearRequest? ==> k < u
    {
      AskedAt(ss, run, k);
      if k < u {
        OpeningAt(run.opening, k);
      }
    }
    AskedAt(ss, run, |rs| - 1);
  }

  lemma LockedExactly(ss: seq<Sector>, run: Run)
    requires WorkShaped(ss, run.erased, run.programs) && run.opening.Sound()
    ensures LockRequest in Asked(ss, run) <==> Opened(run.opening)
  {
    var rs := Asked(ss, run);
    if Opened(run.opening) {
      AskedAt(ss, run, |rs| - 1);
    } else {
      assert rs == OpeningRequests(run.opening);
    }
  }

  lemma NothingAsked(ss: seq<Sector>, sizes: seq<nat>, at: int, len: nat)
    ensures Asked(ss, NOTHING) == [] && SafeTrace([], sizes, at, len)
  {}

  /** What was issued before, by unlocking, by the work and by locking, one after the other. */
  lemma AllIssued(before: seq<Request>, ss: seq<Sector>, run: Run)
    requires WorkShaped(ss, run.erased, run.programs) && Opened(run.opening)
    ensures Issued(before, before + OpeningRequests(run.opening) + Work(ss, run.erased,
      run.programs) + [LockRequest], ss, run)
  {
    var o, w := OpeningRequests(run.opening), Work(ss, run.erased, run.programs);
    assert before + o + w + [LockRequest] == before + (o + (w + [LockRequest]));
  }

  lemma PaddingStaysInBank(sizes: seq<nat>, at: int, data: seq<Byte>)
    requires ValidGeometry(sizes) && at % 4 == 0 && at + |data| <= StartOf(sizes, |sizes|)
    ensures at + |Pad(data)| <= StartOf(sizes, |sizes|)
  {
    PaddingStaysInSectors(sizes, at, data);
  }

  /** An image and its padding have the same sectors. */
  lemma PaddedSectorList(ss: seq<Sector>, sizes: seq<nat>, addr: int, input: seq<Byte>)
    requires ValidGeometry(sizes) && addr % 4 == 0
    ensures IsSectorList(ss, sizes, WINDOW_START, addr, |Pad(input)|, |sizes|)
      <==> IsSectorList(ss, sizes, WINDOW_START, addr, |input|, |sizes|)
  {
    PaddingStaysInSectors(sizes, addr - WINDOW_START, input);
  }

  lemma PaddingIsConfined(before: seq<Byte>, after: seq<Byte>, sizes: seq<nat>, at: int, input: seq<Byte>)
    requires ValidGeometry(sizes) && at % 4 == 0 && Confined(before, after, sizes, at, |Pad(input)|)
    ensures Confined(before, after, sizes, at, |input|)
  {
    PaddingStaysInSectors(sizes, at, input);
  }

  // ---------------------------------------------------------------- unlocking, as a relation

  /** What the key sequence may do, which is skipped when the controller is already unlocked. */
  ghost predicate KeysSent(c: Chip, d: Chip, ok: bool) {
    if !c.cr.lock then d == c && ok
    else exists m: Chip, first: bool ::
      KeyTaken(c, KEY1, first, m) && if first then KeyTaken(m, KEY2, ok, d) else d == m && !ok
  }

  /** What unlocking may do: any access may fail, the core is halted first and the flags are cleared last. */
  ghost predicate Unlocks(c: Chip, d: Chip, r: Outcome) {
    (d == AfterHalt(c, false) && r == Failed(UsbIo)) || UnlocksHalted(AfterHalt(c, true), d, r)
  }

  ghost predicate UnlocksHalted(c: Chip, d: Chip, r: Outcome) {
    || (d == c && r == Failed(UsbIo))
    || (KeysSent(c, d, false) && r == Failed(UsbIo))
    || (KeysSent(c, d, true) && (r == Failed(UsbIo) || (d.cr.lock && r == Failed(TargetFault))))
    || (exists n: Chip, ok: bool :: KeysSent(c, n, true) && !n.cr.lock && ErrorsCleared(n, ok, d)
                                    && r == if ok then Done else Failed(UsbIo))
  }

  /** A run of unlocking that ends with an error, with both keys accepted and the controller unlocked; no
      lock request will follow. */
  lemma LeftUnlocked(c: Chip) returns (d: Chip)
    requires c.cr.lock && c.keyStage == 0
    ensures Unlocks(c, d, Failed(UsbIo)) && !d.cr.lock
    ensures d.issued == c.issued + OpeningRequests(Opening(Some(true), 2, None))
  {
    var h := AfterHalt(c, true);
    var m := KeyStep(h.(issued := h.issued + [KeyRequest(KEY1)]), KEY1);
    d := KeyStep(m.(issued := m.issued + [KeyRequest(KEY2)]), KEY2);
    assert KeyTaken(h, KEY1, true, m) && KeyTaken(m, KEY2, true, d) && KeysSent(h, d, true);
  }

  // ---------------------------------------------------------------- erasing and programming, step by step

  ghost predicate InListed(sizes: seq<nat>, ss: seq<Sector>, i: int) {
    exists m :: 0 <= m < |ss| && ss[m].sector < |sizes| && InSector(sizes, ss[m].sector, i)
  }

  lemma ListedIsTouched(sizes: seq<nat>, ss: seq<Sector>, addr: int, len: nat, i: int)
    requires IsSectorList(ss, sizes, WINDOW_START, addr, len, |sizes|)
    ensures InListed(sizes, ss, i) == Touched(sizes, addr - WINDOW_START, len, i)
  {
    if k :| 0 <= k < |sizes| && Overlaps(sizes, k, addr - WINDOW_START, len) && InSector(sizes, k, i) {
      assert Lists(ss, k);
    }
  }

  /** The sectors of ss are erased, the rest of the flash is as before. */
  ghost predicate Erased(before: seq<Byte>, after: seq<Byte>, sizes: seq<nat>, ss: seq<Sector>) {
    |after| == |before| &&
    forall i :: 0 <= i < |before| ==> after[i] == if InListed(sizes, ss, i) then 0xff else before[i]
  }

  lemma EraseOneMore(before: seq<Byte>, mid: seq<Byte>, sizes: seq<nat>, ss: seq<Sector>, j: nat)
    requires j < |ss| && ss[j].sector < |sizes| && Erased(before, mid, sizes, ss[..j])
    ensures Erased(before, Erase(mid, sizes, ss[j].sector), sizes, ss[..j + 1])
  {
    forall i | 0 <= i < |before|
      ensures InListed(sizes, ss[..j + 1], i) == (InListed(sizes, ss[..j], i) || InSector(sizes, ss[j].sector, i))
    {
      assert ss[..j + 1][j] == ss[j];
      assert forall m :: 0 <= m < j ==> ss[..j + 1][m] == ss[..j][m];
    }
  }

  lemma ErasingIsConfined(before: seq<Byte>, mid: seq<Byte>, after: seq<Byte>, sizes: seq<nat>, ss: seq<Sector>, j: nat,
                          addr: int, len: nat)
    requires j < |ss| && IsSectorList(ss, sizes, WINDOW_START, addr, len, |sizes|)
    requires Erased(before, mid, sizes, ss[..j])
    requires SameOutside(mid, after, StartOf(sizes, ss[j].sector), sizes[ss[j].sector])
    ensures Confined(before, after, sizes, addr - WINDOW_START, len)
  {
    forall i | 0 <= i < |before| && !Touched(sizes, addr - WINDOW_START, len, i)
      ensures after[i] == before[i]
    {
      ListedIsTouched(sizes, ss, addr, len, i);
      assert forall m :: 0 <= m < j ==> ss[..j][m] == ss[m];
      assert !InSector(sizes, ss[j].sector, i);
    }
  }

  lemma ErasedIsFlashed(before: seq<Byte>, after: seq<Byte>, sizes: seq<nat>, ss: seq<Sector>, addr: int, len: nat)
    requires IsSectorList(ss, sizes, WINDOW_START, addr, len, |sizes|) && Erased(before, after, sizes, ss)
    ensures Flashed(before, after, sizes, addr - WINDOW_START, len, [])
  {
    forall i | 0 <= i < |before|
      ensures after[i] == FlashedByte(before, sizes, addr - WINDOW_START, len, [], i)
    {
      ListedIsTouched(sizes, ss, addr, len, i);
    }
  }

  lemma ImageIsTouched(sizes: seq<nat>, at: int, len: nat, i: int)
    requires 0 <= at <= i < at + len <= StartOf(sizes, |sizes|)
    ensures Touched(sizes, at, len, i)
  {
    var k := SectorOf(sizes, |sizes|, i);
    assert Overlaps(sizes, k, at, len);
  }

  lemma OnesKeep(b: Byte)
    ensures 0xff & b == b
  {}

  /** Programming a block of erased bytes stores it. */
  lemma ProgramOneMore(before: seq<Byte>, mid: seq<Byte>, sizes: seq<nat>, at: int, data: seq<Byte>, off: nat, n: nat)
    requires 0 <= at && off + n <= |data| && at + |data| <= StartOf(sizes, |sizes|) <= |before|
    requires Flashed(before, mid, sizes, at, |data|, data[..off])
    ensures Flashed(before, Program(mid, at + off, data[off..off + n]), sizes, at, |data|, data[..off + n])
  {
    forall i | at + off <= i < at + off + n
      ensures mid[i] & data[i - at] == data[i - at]
    {
      ImageIsTouched(sizes, at, |data|, i);
      OnesKeep(data[i - at]);
    }
  }

  /** Blocks of 0xff are in place after the erase. */
  lemma SkippingBlanks(before: seq<Byte>, mid: seq<Byte>, sizes: seq<nat>, at: int, data: seq<Byte>, off: nat, n: nat)
    requires 0 <= at && off + n <= |data| && at + |data| <= StartOf(sizes, |sizes|) <= |before|
    requires Flashed(before, mid, sizes, at, |data|, data[..off])
    requires forall i :: off <= i < off + n ==> data[i] == 0xff
    ensures Flashed(before, mid, sizes, at, |data|, data[..off + n])
  {
    forall i | at + off <= i < at + off + n
      ensures mid[i] == data[i - at]
    {
      ImageIsTouched(sizes, at, |data|, i);
    }
  }

  lemma AroundIsConfined(before: seq<Byte>, after: seq<Byte>, sizes: seq<nat>, at: int, len: nat)
    requires 0 <= at && at + len <= StartOf(sizes, |sizes|) <= |before|
    requires FlashedAround(before, after, sizes, at, len)
    ensures Confined(before, after, sizes, at, len)
  {
    forall i | 0 <= i < |before| && !Touched(sizes, at, len, i)
      ensures after[i] == before[i]
    {
      if at <= i < at + len {
        ImageIsTouched(sizes, at, len, i);
      }
    }
  }

  /** What reading back is for: if it finds the image, the image is flashed. */
  lemma ReadBackIsFlashed(before: seq<Byte>, after: seq<Byte>, sizes: seq<nat>, at: int, data: seq<Byte>)
    requires 0 <= at && at + |data| <= |before|
    requires FlashedAround(before, after, sizes, at, |data|) && after[at..at + |data|] == data
    ensures Flashed(before, after, sizes, at, |data|, data)
  {
    assert forall i :: at <= i < at + |data| ==> after[i] == after[at..at + |data|][i - at];
  }

  /** The padding ends up as 0xff, like the rest of its sector. */
  lemma PaddingIsErased(before: seq<Byte>, after: seq<Byte>, sizes: seq<nat>, at: int, input: seq<Byte>)
    requires ValidGeometry(sizes) && at % 4 == 0 && 0 <= at && at + |input| <= StartOf(sizes, |sizes|)
    requires Flashed(before, after, sizes, at, |Pad(input)|, Pad(input))
    ensures Flashed(before, after, sizes, at, |input|, input)
  {
    PaddingStaysInSectors(sizes, at, input);
    forall i | 0 <= i < |before|
      ensures after[i] == FlashedByte(before, sizes, at, |input|, input, i)
    {
      if at + |input| <= i < at + |Pad(input)| {
        ImageIsTouched(sizes, at, |Pad(input)|, i);
      }
    }
  }

  /** What a run with the padded image means for the image. */
  lemma PaddedRun(before: seq<Byte>, after: seq<Byte>, sizes: seq<nat>, addr: int, input: seq<Byte>, ss: seq<Sector>,
    run: Run, sure: bool)
    requires ValidGeometry(sizes) && addr % 4 == 0
    requires WINDOW_START <= addr && addr + |input| <= WINDOW_START + StartOf(sizes, |sizes|)
    requires IsSectorList(ss, sizes, WINDOW_START, addr, |input|, |sizes|)
    requires WorkShaped(ss, run.erased, run.programs) && run.opening.Sound()
    requires Confined(before, after, sizes, addr - WINDOW_START, |Pad(input)|)
    requires sure ==> Flashed(before, after, sizes, addr - WINDOW_START, |Pad(input)|, Pad(input))
    ensures SafeTrace(Asked(ss, run), sizes, addr - WINDOW_START, |input|)
    ensures Confined(before, after, sizes, addr - WINDOW_START, |input|)
    ensures sure ==> Flashed(before, after, sizes, addr - WINDOW_START, |input|, input)
  {
    RunIsSafe(ss, run, sizes, addr, |input|);
    PaddingIsConfined(before, after, sizes, addr - WINDOW_START, input);
    if sure {
      PaddingIsErased(before, after, sizes, addr - WINDOW_START, input);
    }
  }

  lemma FlashedHoldsImage(before: seq<Byte>, after: seq<Byte>, sizes: seq<nat>, at: int, data: seq<Byte>)
    requires 0 <= at && at + |data| <= |before|
    requires Flashed(before, after, sizes, at, |data|, data)
    ensures after[at..at + |data|] == data
  {}

  /** No sector reaches beyond the bank, so nothing beyond it is ever touched. */
  lemma SectorsEndWithBank(sizes: seq<nat>, at: int, len: nat)
    ensures forall i :: StartOf(sizes, |sizes|) <= i ==> !Touched(sizes, at, len, i)
  {
    forall k | 0 <= k < |sizes|
      ensures StartOf(sizes, k) + sizes[k] <= StartOf(sizes, |sizes|)
    {
      StartsAscend(sizes, k, |sizes|);
    }
  }

  /** Everything behind the bank has its old value. */
  ghost predicate SameBeyondBank(before: seq<Byte>, after: seq<Byte>, sizes: seq<nat>) {
    |after| == |before| && forall i :: StartOf(sizes, |sizes|) <= i < |before| ==> after[i] == before[i]
  }

  lemma BankTwoUntouched(before: seq<Byte>, after: seq<Byte>, sizes: seq<nat>, at: int, len: nat)
    requires Confined(before, after, sizes, at, len)
    ensures SameBeyondBank(before, after, sizes)
  {
    SectorsEndWithBank(sizes, at, len);
  }

  lemma NonEmptyImageHasSector(sizes: seq<nat>, addr: int, len: nat, ss: seq<Sector>)
    requires WINDOW_START <= addr && addr + len <= WINDOW_START + StartOf(sizes, |sizes|)
    requires IsSectorList(ss, sizes, WINDOW_START, addr, len, |sizes|)
    ensures len > 0 ==> ss != []
  {
    if len > 0 {
      var k := SectorOf(sizes, |sizes|, addr - WINDOW_START);
      assert Lists(ss, k);
    }
  }

  /** The sector table of the supported families fills the firmware window. */
  lemma F4Geometry()
    ensures ValidGeometry(F4_SECTORS) && StartOf(F4_SECTORS, |F4_SECTORS|) == 0x10_0000 == WINDOW_END - WINDOW_START
    ensures StartOf(F4_SECTORS, 4) == 0x1_0000 && StartOf(F4_SECTORS, 5) == 0x2_0000
  {
    assert StartOf(F4_SECTORS, 3) == 0xc000;
    assert StartOf(F4_SECTORS, 5) == 0x2_0000;
    assert StartOf(F4_SECTORS, 7) == 0x6_0000;
    assert StartOf(F4_SECTORS, 9) == 0xa_0000;
    assert StartOf(F4_SECTORS, 11) == 0xe_0000;
  }

  /** How much of `len` bytes is handled at once from `off` on. */
  function BlockSize(len: nat, off: nat): (n: nat)
    requires off < len
    ensures 0 < n <= BLOCK && off + n <= len
  {
    if off + BLOCK < len then BLOCK else len - off
  }

  lemma BlockAligned(at: int, len: nat, off: nat)
    requires at % 4 == 0 && len % 4 == 0 && off % 4 == 0 && off < len
    ensures (at + off) % 4 == 0 && BlockSize(len, off) % 4 == 0 && (off + BlockSize(len, off)) % 4 == 0
  {}

  /** Comparing data with the flash block by block. */
  lemma BlocksCompare(flash: seq<Byte>, at: nat, data: seq<Byte>, off: nat, n: nat)
    requires off + n <= |data| && at + |data| <= |flash|
    ensures flash[at..at + off] == data[..off] && flash[at + off..at + off + n] == data[off..off + n] ==>
      flash[at..at + off + n] == data[..off + n]
    ensures flash[at..at + |data|] == data ==> flash[at + off..at + off + n] == data[off..off + n]
  {
    assert data[..off + n] == data[..off] + data[off..off + n];
    assert flash[at..at + off + n] == flash[at..at + off] + flash[at + off..at + off + n];
    BytesOfBytes(flash, at, |data|, off, n);
  }

  lemma BytesOfBytes(a: seq<Byte>, at: nat, len: nat, off: nat, n: nat)
    requires at + len <= |a| && off + n <= len
    ensures a[at..at + len][off..off + n] == a[at + off..at + off + n]
  {
    var s, t := a[at..at + len][off..off + n], a[at + off..at + off + n];
    assert forall k :: 0 <= k < n ==> s[k] == a[at..at + len][off + k] == t[k];
  }

  // ---------------------------------------------------------------- the driver

  /** The target voltage as the probe reports it. */
  datatype Voltage = Unknown | Volts(v: real)

  /** The key sequence will be understood, or is not needed. */
  ghost predicate Unlockable(c: Chip) {
    c.keyStage == 0 || !c.cr.lock
  }

  method SectorsFor(flashStart: int, eraseSizes: seq<nat>, addr: int, size: nat) returns (out: seq<Sector>)
    ensures IsSectorList(out, eraseSizes, flashStart, addr, size, |eraseSizes|)
  {
    out := [];
    var start := flashStart;
    for sector := 0 to |eraseSizes|
      invariant start == flashStart + StartOf(eraseSizes, sector)
      invariant IsSectorList(out, eraseSizes, flashStart, addr, size, sector)
    {
      var sz := eraseSizes[sector];
      ghost var before := out;
      if addr < start + sz && addr + size > start {
        out := out + [Sector(sector, start, sz)];
        assert out[|before|].sector == sector;
      }
      assert forall j :: 0 <= j < |before| ==> out[j] == before[j];
      assert forall k :: Lists(before, k) ==> Lists(out, k);
      start := start + sz;
    }
  }

  /** FLASH_CR can be modified harmlessly, and the bank fits into the flash. */
  ghost predicate Ready(sizes: seq<nat>, c: Chip) {
    ValidGeometry(sizes) && StartOf(sizes, |sizes|) <= |c.flash| && c.cr.Clean()
  }

  ghost predicate Unlocked(sizes: seq<nat>, c: Chip) {
    Ready(sizes, c) && !c.cr.lock
  }

  /** d arose from c without touching the flash or asking for anything. */
  ghost predicate Quiet(sizes: seq<nat>, c: Chip, d: Chip) {
    Ready(sizes, d) && d.flash == c.flash && d.issued == c.issued && d.keyStage == c.keyStage
  }

  /** d arose from c by an erase of one sector, or by an attempt at it. */
  ghost predicate EraseTried(sizes: seq<nat>, sector: nat, c: Chip, d: Chip, requested: bool)
    requires sector < |sizes|
  {
    && Ready(sizes, d) && d.keyStage == c.keyStage
    && d.issued == c.issued + (if requested then [EraseRequest(sector)] else [])
    && SameOutside(c.flash, d.flash, StartOf(sizes, sector), sizes[sector])
  }

  class Stm32FlashFS {
    const core: Controller

    constructor (core: Controller)
      ensures this.core == core
    {
      this.core := core;
    }

    /** No transfer and no operation can fail from here on. */
    ghost predicate Smooth()
      reads core
    {
      core.reliable && !core.error
    }

    /** The key sequence; skipped when the controller is already unlocked. */
    method WriteKeys() returns (r: Outcome, ghost keys: nat)
      requires Ready(core.sizes, core.State())
      modifies core
      ensures Ready(core.sizes, core.State()) && core.flash == old(core.flash) && keys <= 2
      ensures core.issued == old(core.issued) + KeyRequests(keys)
      ensures core.reliable && old(core.keyStage) == 0 ==> core.keyStage == 0
      ensures r.Failed? ==> r.error == UsbIo
      ensures (core.State() == old(core.State()) && r.Failed?) || KeysSent(old(core.State()), core.State(), r.Done?)
      ensures core.reliable ==> r.Done?
      ensures core.reliable && Unlockable(old(core.State())) ==> !core.cr.lock
    {
      keys := 0;
      var ok, cr := core.ReadCr();
      if ok && cr.lock {
        ok := core.WriteKey(KEY1);
        keys := 1;
        if ok {
          ok := core.WriteKey(KEY2);
          keys := 2;
        }
      }
      r := if ok then Done else Failed(UsbIo);
    }

    method Unlock() returns (r: Outcome, ghost o: Opening)
      requires Ready(core.sizes, core.State())
      modifies core
      ensures Ready(core.sizes, core.State()) && core.flash == old(core.flash)
      ensures o.Sound() && core.issued == old(core.issued) + OpeningRequests(o)
      ensures r.Done? <==> Opened(o)
      ensures r.Done? ==> !core.cr.lock && !core.error
      ensures Unlocks(old(core.State()), core.State(), r)
      ensures core.reliable && Unlockable(old(core.State())) ==> r.Done?
      ensures core.reliable && old(core.keyStage) == 0 ==> core.keyStage == 0
    {
      var ok := core.Halt();
      o := Opening(Some(ok), 0, None);
      if !ok {
        return Failed(UsbIo), o;
      }
      ghost var keys;
      r, keys := WriteKeys();
      o := Opening(Some(true), keys, None);
      if r.Failed? {
        return;
      }
      var cr;
      ok, cr := core.ReadCr();
      if !ok {
        return Failed(UsbIo), o;
      }
      if cr.lock {
        return Failed(TargetFault), o;
      }
      ok := core.ClearErrors();
      o := Opening(Some(true), keys, Some(ok));
      r := if ok then Done else Failed(UsbIo);
    }

    /** The write happens whatever became of the operation before. */
    method Lock() returns (r: Outcome)
      requires Ready(core.sizes, core.State())
      modifies core
      ensures Ready(core.sizes, core.State()) && core.flash == old(core.flash)
      ensures core.issued == old(core.issued) + [LockRequest] && core.keyStage == old(core.keyStage)
      ensures if r.Done? then core.cr == LOCKED else r == Failed(UsbIo)
      ensures core.reliable ==> r.Done?
    {
      var ok := core.WriteCr(LOCKED);
      r := if ok then Done else Failed(UsbIo);
    }

    /** The deadline is a choice of the environment: `polls` busy polls fit into it. */
    method WaitBusy() returns (r: Outcome)
      ensures r.Done? ==> !core.error
      ensures Smooth() ==> r.Done?
    {
      var polls: nat := *;
      while true
        decreases polls
      {
        var ok, busy, failed := core.ReadSr();
        if !ok {
          return Failed(UsbIo);
        }
        if !busy {
          return if failed then Failed(TargetFault) else Done;
        }
        if polls == 0 {
          return Failed(TargetFault);
        }
        polls := polls - 1;
      }
    }

    method EraseSector(sector: nat) returns (r: Outcome, ghost requested: bool)
      requires Unlocked(core.sizes, core.State()) && sector < |core.sizes|
      modifies core
      ensures EraseTried(core.sizes, sector, old(core.State()), core.State(), requested)
      ensures r.Done? ==> requested && !core.cr.lock && core.flash == Erase(old(core.flash), core.sizes, sector)
      ensures old(Smooth()) ==> r.Done? && Smooth()
    {
      requested := false;
      var ok, cr := core.ReadCr();
      if ok {
        ok := core.WriteCr(cr.(snb := sector, ser := true));
      }
      if ok {
        ok, cr := core.ReadCr();
      }
      if ok {
        requested := true;
        ok := core.WriteCr(cr.(strt := true));
      }
      r := Failed(UsbIo);
      if ok {
        r := WaitBusy();
      }
    }

    /** PSIZE and PG are set in two separate read-modify-writes. */
    method InitWrite() returns (r: Outcome)
      requires Unlocked(core.sizes, core.State())
      modifies core
      ensures Quiet(core.sizes, old(core.State()), core.State())
      ensures r.Done? ==> core.cr == old(core.cr).(psize := 2, pg := true)
      ensures old(Smooth()) ==> r.Done? && Smooth()
    {
      var ok, cr := core.ReadCr();
      if ok {
        ok := core.WriteCr(cr.(psize := 2));
      }
      if ok {
        ok, cr := core.ReadCr();
      }
      if ok {
        ok := core.WriteCr(cr.(pg := true));
      }
      r := if ok then Done else Failed(UsbIo);
    }

    method EraseAll(ss: seq<Sector>, ghost addr: int, ghost len: nat) returns (r: Outcome, ghost erased: nat)
      requires Unlocked(core.sizes, core.State())
      requires IsSectorList(ss, core.sizes, WINDOW_START, addr, len, |core.sizes|)
      modifies core
      ensures Ready(core.sizes, core.State()) && erased <= |ss| && core.keyStage == old(core.keyStage)
      ensures core.issued == old(core.issued) + EraseRequests(ss[..erased])
      ensures Confined(old(core.flash), core.flash, core.sizes, addr - WINDOW_START, len)
      ensures r.Done? ==> erased == |ss| && !core.cr.lock
      ensures r.Done? ==> Flashed(old(core.flash), core.flash, core.sizes, addr - WINDOW_START, len, [])
      ensures old(Smooth()) ==> r.Done? && Smooth()
    {
      erased := 0;
      ghost var before := core.flash;
      assert ss[..0] == [];
      for j := 0 to |ss|
        invariant erased == j && Unlocked(core.sizes, core.State()) && core.keyStage == old(core.keyStage)
        invariant core.issued == old(core.issued) + EraseRequests(ss[..j])
        invariant Erased(before, core.flash, core.sizes, ss[..j])
        invariant old(Smooth()) ==> Smooth()
      {
        ghost var mid := core.flash;
        ghost var requested;
        r, requested := EraseSector(ss[j].sector);
        if requested {
          erased := j + 1;
          assert EraseRequests(ss[..j + 1]) == EraseRequests(ss[..j]) + [EraseRequest(ss[j].sector)];
        }
        if r.Failed? {
          ErasingIsConfined(before, mid, core.flash, core.sizes, ss, j, addr, len);
          return;
        }
        EraseOneMore(before, mid, core.sizes, ss, j);
      }
      assert ss[..|ss|] == ss;
      ErasedIsFlashed(before, core.flash, core.sizes, ss, addr, len);
      r := Done;
    }

    method ProgramBlock(at: int, chunk: seq<Byte>) returns (r: Outcome)
      requires Unlocked(core.sizes, core.State()) && core.cr.pg
      requires at % 4 == 0 && |chunk| % 4 == 0 && |chunk| <= BLOCK
      modifies core
      ensures core.cr == old(core.cr) && core.keyStage == old(core.keyStage)
      ensures SameOutside(old(core.flash), core.flash, at, |chunk|)
      ensures core.issued == old(core.issued) + [ProgramRequest(at, |chunk|)]
      ensures r.Done? && core.Trusted() ==> core.flash == Program(old(core.flash), at, chunk)
      ensures old(Smooth()) ==> r.Done? && Smooth()
    {
      var ok := core.SetMem32(at, chunk);
      r := Failed(UsbIo);
      if ok {
        r := WaitBusy();
      }
    }

    /** One step of the program loop: blocks that are all 0xff are skipped. */
    method ProgramNext(addr: int, data: seq<Byte>, off: nat, n: nat, ghost before: seq<Byte>)
      returns (r: Outcome, ghost programs: seq<Request>)
      requires Unlocked(core.sizes, core.State()) && core.cr.pg
      requires (addr + off) % 4 == 0 && n % 4 == 0 && n <= BLOCK && off + n <= |data|
      requires WINDOW_START <= addr && addr + |data| <= WINDOW_START + StartOf(core.sizes, |core.sizes|)
      requires StartOf(core.sizes, |core.sizes|) <= |before|
      requires FlashedAround(before, core.flash, core.sizes, addr - WINDOW_START, |data|)
      requires core.Trusted() ==>
        Flashed(before, core.flash, core.sizes, addr - WINDOW_START, |data|, data[..off])
      modifies core
      ensures core.cr == old(core.cr) && core.keyStage == old(core.keyStage)
      ensures core.issued == old(core.issued) + programs && OnlyPrograms(programs)
      ensures programs == [] <==> forall i :: off <= i < off + n ==> data[i] == 0xff
      ensures FlashedAround(before, core.flash, core.sizes, addr - WINDOW_START, |data|)
      ensures r.Done? && core.Trusted() ==>
        Flashed(before, core.flash, core.sizes, addr - WINDOW_START, |data|, data[..off + n])
      ensures old(Smooth()) ==> r.Done? && Smooth()
    {
      r, programs := Done, [];
      var chunk := data[off..off + n];
      ghost var at, mid := addr - WINDOW_START, core.flash;
      if exists i :: 0 <= i < n && chunk[i] != 0xff {
        r := ProgramBlock(addr + off - WINDOW_START, chunk);
        programs := [ProgramRequest(addr + off - WINDOW_START, n)];
        if r.Done? && core.Trusted() {
          ProgramOneMore(before, mid, core.sizes, at, data, off, n);
        }
      } else if core.Trusted() {
        assert forall i :: off <= i < off + n ==> data[i] == chunk[i - off];
        SkippingBlanks(before, core.flash, core.sizes, at, data, off, n);
      }
    }

    method ProgramAll(addr: int, data: seq<Byte>, ghost before: seq<Byte>)
      returns (r: Outcome, ghost programs: seq<Request>)
      requires Unlocked(core.sizes, core.State()) && core.cr.pg
      requires addr % 4 == 0 && |data| % 4 == 0
      requires WINDOW_START <= addr && addr + |data| <= WINDOW_START + StartOf(core.sizes, |core.sizes|)
      requires Flashed(before, core.flash, core.sizes, addr - WINDOW_START, |data|, [])
      modifies core
      ensures Ready(core.sizes, core.State()) && core.cr == old(core.cr) && core.keyStage == old(core.keyStage)
      ensures core.issued == old(core.issued) + programs && OnlyPrograms(programs)
      ensures FlashedAround(before, core.flash, core.sizes, addr - WINDOW_START, |data|)
      ensures r.Done? && core.Trusted() ==>
        Flashed(before, core.flash, core.sizes, addr - WINDOW_START, |data|, data)
      ensures old(Smooth()) ==> r.Done? && Smooth()
    {
      programs := [];
      var off := 0;
      while off < |data|
        invariant off <= |data| && off % 4 == 0
        invariant core.cr == old(core.cr) && core.keyStage == old(core.keyStage)
        invariant core.issued == old(core.issued) + programs && OnlyPrograms(programs)
        invariant FlashedAround(before, core.flash, core.sizes, addr - WINDOW_START, |data|)
        invariant core.Trusted() ==>
          Flashed(before, core.flash, core.sizes, addr - WINDOW_START, |data|, data[..off])
        invariant old(Smooth()) ==> Smooth()
      {
        var n := BlockSize(|data|, off);
        BlockAligned(addr, |data|, off);
        ghost var more;
        r, more := ProgramNext(addr, data, off, n, before);
        programs := programs + more;
        if r.Failed? {
          return;
        }
        off := off + n;
      }
      assert data[..off] == data;
      r := Done;
    }

    method SameBytes(back: seq<Byte>, expected: seq<Byte>) returns (same: bool)
      requires |back| == |expected|
      ensures same == (back == expected)
    {
      for i := 0 to |back|
        invariant back[..i] == expected[..i]
      {
        if back[i] != expected[i] {
          return false;
        }
      }
      same := true;
    }

    /** Read one block back and compare. */
    method VerifyBlock(at: int, expected: seq<Byte>) returns (r: Outcome)
      requires at % 4 == 0 && |expected| % 4 == 0 && |expected| <= BLOCK
      requires 0 <= at && at + |expected| <= |core.flash|
      ensures r.Done? ==> core.flash[at..at + |expected|] == expected
      ensures core.reliable && core.flash[at..at + |expected|] == expected ==> r.Done?
    {
      var ok, back := core.GetMem32(at, |expected|);
      if !ok {
        return Failed(UsbIo);
      }
      var same := SameBytes(back, expected);
      r := if same then Done else Failed(TargetFault);
    }

    /** Read back and compare; changes nothing. */
    method Verify(addr: int, data: seq<Byte>) returns (r: Outcome)
      requires addr % 4 == 0 && |data| % 4 == 0
      requires WINDOW_START <= addr && addr + |data| <= WINDOW_START + |core.flash|
      ensures r.Done? ==> core.flash[addr - WINDOW_START..addr - WINDOW_START + |data|] == data
      ensures core.reliable && core.flash[addr - WINDOW_START..addr - WINDOW_START + |data|] == data ==> r.Done?
    {
      var at := addr - WINDOW_START;
      var off := 0;
      while off < |data|
        invariant off <= |data| && off % 4 == 0
        invariant core.flash[at..at + off] == data[..off]
      {
        var n := BlockSize(|data|, off);
        BlocksCompare(core.flash, at, data, off, n);
        BlockAligned(at, |data|, off);
        r := VerifyBlock(at + off, data[off..off + n]);
        if r.Failed? {
          return;
        }
        off := off + n;
      }
      assert data[..off] == data;
      r := Done;
    }

    /** Everything between unlocking and locking. */
    method WriteUnlocked(addr: int, data: seq<Byte>, ss: seq<Sector>, verify: bool)
      returns (r: Outcome, ghost erased: nat, ghost programs: seq<Request>)
      requires Unlocked(core.sizes, core.State())
      requires addr % 4 == 0 && |data| % 4 == 0
      requires WINDOW_START <= addr && addr + |data| <= WINDOW_START + StartOf(core.sizes, |core.sizes|)
      requires IsSectorList(ss, core.sizes, WINDOW_START, addr, |data|, |core.sizes|)
      modifies core
      ensures Ready(core.sizes, core.State())
      ensures WorkShaped(ss, erased, programs) && core.issued == old(core.issued) + Work(ss, erased, programs)
      ensures Confined(old(core.flash), core.flash, core.sizes, addr - WINDOW_START, |data|)
      ensures core.keyStage == old(core.keyStage)
      ensures r.Done? ==> erased == |ss| && !core.cr.pg
      ensures r.Done? ==> FlashedAround(old(core.flash), core.flash, core.sizes, addr - WINDOW_START, |data|)
      ensures r.Done? && (verify || core.Trusted()) ==>
        Flashed(old(core.flash), core.flash, core.sizes, addr - WINDOW_START, |data|, data)
      ensures old(Smooth()) ==> r.Done? && Smooth()
    {
      programs := [];
      ghost var before := core.flash;
      r, erased := EraseAll(ss, addr, |data|);
      if r.Failed? {
        return;
      }
      r := InitWrite();
      if r.Failed? {
        return;
      }
      r, programs := ProgramAll(addr, data, before);
      AroundIsConfined(before, core.flash, core.sizes, addr - WINDOW_START, |data|);
      if r.Failed? {
        return;
      }
      r := FinishWrite(addr, data, verify, before);
    }

    /** Clear PG and read the image back, if that was asked for. */
    method FinishWrite(addr: int, data: seq<Byte>, verify: bool, ghost before: seq<Byte>) returns (r: Outcome)
      requires Unlocked(core.sizes, core.State())
      requires addr % 4 == 0 && |data| % 4 == 0
      requires WINDOW_START <= addr && addr + |data| <= WINDOW_START + |core.flash|
      requires FlashedAround(before, core.flash, core.sizes, addr - WINDOW_START, |data|)
      requires core.Trusted() ==> Flashed(before, core.flash, core.sizes, addr - WINDOW_START, |data|, data)
      modifies core
      ensures Quiet(core.sizes, old(core.State()), core.State())
      ensures r.Done? ==> !core.cr.pg
      ensures r.Done? && (verify || core.Trusted()) ==>
        Flashed(before, core.flash, core.sizes, addr - WINDOW_START, |data|, data)
      ensures old(Smooth()) ==> r.Done? && Smooth()
    {
      r := EndWrite();
      if r.Done? && verify {
        if core.Trusted() {
          FlashedHoldsImage(before, core.flash, core.sizes, addr - WINDOW_START, data);
        }
        r := Verify(addr, data);
        if r.Done? {
          ReadBackIsFlashed(before, core.flash, core.sizes, addr - WINDOW_START, data);
        }
      }
    }

    /** Clear PG. */
    method EndWrite() returns (r: Outcome)
      requires Unlocked(core.sizes, core.State())
      modifies core
      ensures Quiet(core.sizes, old(core.State()), core.State())
      ensures r.Done? ==> core.cr == old(core.cr).(pg := false)
      ensures old(Smooth()) ==> r.Done? && Smooth()
    {
      var ok, cr := core.ReadCr();
      if ok {
        ok := core.WriteCr(cr.(pg := false));
      }
      r := if ok then Done else Failed(UsbIo);
    }

    /** Unlock, do the work, and lock again whatever became of the work. */
    method WriteSectors(addr: int, data: seq<Byte>, ss: seq<Sector>, verify: bool) returns (r: Outcome, ghost run: Run)
      requires Ready(core.sizes, core.State())
      requires addr % 4 == 0 && |data| % 4 == 0
      requires WINDOW_START <= addr && addr + |data| <= WINDOW_START + StartOf(core.sizes, |core.sizes|)
      requires IsSectorList(ss, core.sizes, WINDOW_START, addr, |data|, |core.sizes|)
      modifies core
      ensures Ready(core.sizes, core.State())
      ensures run.opening.Sound() && Issued(old(core.issued), core.issued, ss, run)
      ensures Confined(old(core.flash), core.flash, core.sizes, addr - WINDOW_START, |data|)
      ensures r.Done? ==> FlashedAround(old(core.flash), core.flash, core.sizes, addr - WINDOW_START, |data|)
      ensures r.Done? && (verify || core.Trusted()) ==>
        Flashed(old(core.flash), core.flash, core.sizes, addr - WINDOW_START, |data|, data)
      ensures r.Done? ==> LockRequest in Asked(ss, run) && run.erased == |ss|
      ensures LockRequest in Asked(ss, run) && r != Failed(UsbIo) ==> core.cr == LOCKED
      ensures LockRequest !in Asked(ss, run) ==> r.Failed? && core.flash == old(core.flash)
      ensures core.reliable && Unlockable(old(core.State())) ==> r.Done?
      ensures core.reliable && old(core.keyStage) == 0 ==> core.keyStage == 0
    {
      ghost var opening;
      r, opening := Unlock();
      run := Run(opening, 0, []);
      LockedExactly(ss, run);
      if r.Failed? {
        return;
      }
      ghost var erased, programs;
      r, erased, programs := WriteUnlocked(addr, data, ss, verify);
      run := Run(opening, erased, programs);
      LockedExactly(ss, run);
      AllIssued(old(core.issued), ss, run);
      var locked := Lock();
      r := if locked.Failed? then locked else r;
    }

    /** The same for the image as it was before padding. */
    method WritePadded(addr: int, input: seq<Byte>, ss: seq<Sector>, verify: bool) returns (r: Outcome, ghost run: Run)
      requires Ready(core.sizes, core.State()) && addr % 4 == 0
      requires WINDOW_START <= addr && addr + |input| <= WINDOW_START + StartOf(core.sizes, |core.sizes|)
      requires IsSectorList(ss, core.sizes, WINDOW_START, addr, |input|, |core.sizes|)
      modifies core
      ensures Ready(core.sizes, core.State())
      ensures Issued(old(core.issued), core.issued, ss, run)
      ensures SafeTrace(Asked(ss, run), core.sizes, addr - WINDOW_START, |input|)
      ensures Confined(old(core.flash), core.flash, core.sizes, addr - WINDOW_START, |input|)
      ensures r.Done? ==>
        FlashedAround(old(core.flash), core.flash, core.sizes, addr - WINDOW_START, |Pad(input)|)
      ensures r.Done? && (verify || core.Trusted()) ==>
        Flashed(old(core.flash), core.flash, core.sizes, addr - WINDOW_START, |input|, input)
      ensures r.Done? ==> LockRequest in Asked(ss, run) && run.erased == |ss|
      ensures LockRequest in Asked(ss, run) && r != Failed(UsbIo) ==> core.cr == LOCKED
      ensures LockRequest !in Asked(ss, run) ==> r.Failed? && core.flash == old(core.flash)
      ensures core.reliable && Unlockable(old(core.State())) ==> r.Done?
      ensures core.reliable && old(core.keyStage) == 0 ==> core.keyStage == 0
    {
      PaddingStaysInBank(core.sizes, addr - WINDOW_START, input);
      PaddedSectorList(ss, core.sizes, addr, input);
      r, run := WriteSectors(addr, Pad(input), ss, verify);
      PaddedRun(old(core.flash), core.flash, core.sizes, addr, input, ss, run, r.Done? && (verify || core.Trusted()));
    }

    /** Erase the sectors the image touches, program it and verify it. Whatever happens, only touched
        sectors change, and the requests are safe: once unlocking has returned normally, the last one is to
        lock. A normal return means that the flash holds the image, 0xff in the rest of the touched sectors
        and the old bytes everywhere else; if nothing is read back, the image is only certain to be there
        on a controller that reports every failure. At 2.7 V or less, or if the voltage is not known,
        nothing is done. */
    method Write(addr: int, input: seq<Byte>, voltage: Voltage, verify: bool)
      returns (r: Outcome, ghost ss: seq<Sector>, ghost run: Run)
      requires Ready(core.sizes, core.State())
      requires WINDOW_START <= addr && addr + |input| <= WINDOW_START + StartOf(core.sizes, |core.sizes|)
      modifies core
      ensures Ready(core.sizes, core.State())
      ensures addr % 4 == 0 ==> IsSectorList(ss, core.sizes, WINDOW_START, addr, |input|, |core.sizes|)
      ensures Issued(old(core.issued), core.issued, ss, run)
      ensures SafeTrace(Asked(ss, run), core.sizes, addr - WINDOW_START, |input|)
      ensures Confined(old(core.flash), core.flash, core.sizes, addr - WINDOW_START, |input|)
      ensures r.Done? ==>
        FlashedAround(old(core.flash), core.flash, core.sizes, addr - WINDOW_START, |Pad(input)|)
      ensures r.Done? && (verify || core.Trusted()) ==>
        Flashed(old(core.flash), core.flash, core.sizes, addr - WINDOW_START, |input|, input)
      ensures r.Done? ==> LockRequest in Asked(ss, run) && run.erased == |ss|
      ensures LockRequest in Asked(ss, run) && r != Failed(UsbIo) ==> core.cr == LOCKED
      ensures LockRequest !in Asked(ss, run) ==> r.Failed? && core.flash == old(core.flash)
      ensures addr % 4 != 0 ==> r == Failed(Unsupported) && core.State() == old(core.State())
      ensures addr % 4 == 0 && (voltage.Unknown? || voltage.v <= 2.7) ==>
        r == Failed(TargetFault) && core.State() == old(core.State())
      ensures addr % 4 == 0 && voltage.Volts? && voltage.v > 2.7 && ss == [] ==>
        r == Failed(Unsupported) && core.State() == old(core.State())
      ensures core.reliable && addr % 4 == 0 && input != [] && voltage.Volts? && voltage.v > 2.7 ==>
        Unlockable(old(core.State())) ==> r.Done?
      ensures core.reliable && old(core.keyStage) == 0 ==> core.keyStage == 0
    {
      run, ss := NOTHING, [];
      NothingAsked(ss, core.sizes, addr - WINDOW_START, |input|);
      if addr % 4 != 0 {
        return Failed(Unsupported), ss, run;
      }
      var data := Pad(input);
      var sectors := SectorsFor(WINDOW_START, core.sizes, addr, |data|);
      ss := sectors;
      PaddedSectorList(ss, core.sizes, addr, input);
      NothingAsked(ss, core.sizes, addr - WINDOW_START, |input|);
      if voltage.Unknown? || voltage.v <= 2.7 {
        return Failed(TargetFault), ss, run;
      }
      if sectors == [] {
        NonEmptyImageHasSector(core.sizes, addr, |input|, ss);
        return Failed(Unsupported), ss, run;
      }
      r, run := WritePadded(addr, input, sectors, verify);
    }

    /** Word alignment, firmware window, non-empty image. */
    static method Guard(addr: int, data: seq<Byte>) returns (ok: bool)
      ensures ok == Flashable(addr, data)
    {
      if addr % 4 != 0 {
        return false;
      }
      if addr < WINDOW_START || addr >= WINDOW_END || addr + |data| > WINDOW_END {
        return false;
      }
      ok := |data| != 0;
    }

    /** `Write` behind the guard. */
    method Flash(addr: int, data: seq<Byte>, voltage: Voltage, verify: bool)
      returns (r: Outcome, ghost ss: seq<Sector>, ghost run: Run)
      requires Ready(core.sizes, core.State()) && StartOf(core.sizes, |core.sizes|) == WINDOW_END - WINDOW_START
      modifies core
      ensures Ready(core.sizes, core.State())
      ensures Issued(old(core.issued), core.issued, ss, run)
      ensures SafeTrace(Asked(ss, run), core.sizes, addr - WINDOW_START, |data|)
      ensures Confined(old(core.flash), core.flash, core.sizes, addr - WINDOW_START, |data|)
      ensures SameBeyondBank(old(core.flash), core.flash, core.sizes)
      ensures r.Done? && (verify || core.Trusted()) ==>
        Flashed(old(core.flash), core.flash, core.sizes, addr - WINDOW_START, |data|, data)
      ensures addr % 4 != 0 || addr < 0x0800_0000 || addr + |data| > 0x0810_0000 || data == [] ==>
        r == Failed(Unsupported) && core.State() == old(core.State())
      ensures r.Done? ==> Flashable(addr, data)
      ensures Flashable(addr, data) && (voltage.Unknown? || voltage.v <= 2.7) ==>
        r == Failed(TargetFault) && core.State() == old(core.State())
      ensures core.reliable && Flashable(addr, data) && voltage.Volts? && voltage.v > 2.7 ==>
        Unlockable(old(core.State())) ==> r.Done?
      ensures core.reliable && old(core.keyStage) == 0 ==> core.keyStage == 0
    {
      run, ss := NOTHING, [];
      NothingAsked(ss, core.sizes, addr - WINDOW_START, |data|);
      var ok := Guard(addr, data);
      if !ok {
        return Failed(Unsupported), ss, run;
      }
      r, ss, run := Write(addr, data, voltage, verify);
      BankTwoUntouched(old(core.flash), core.flash, core.sizes, addr - WINDOW_START, |data|);
    }
  }

  predicate Flashable(addr: int, data: seq<Byte>) {
    addr % 4 == 0 && WINDOW_START <= addr && addr + |data| <= WINDOW_END && data != []
  }
}
