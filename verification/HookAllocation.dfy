/** LhAllocateMemoryEx (alloc.c) and LhAllocateHook (install.c): the search for a page near the entry point and
  * the layout of header, trampoline, relocated entry point and jump in it. */
module HookAllocation {
  import opened Words
  import opened Udis86
  import opened SynIntel
  import opened CodeMemory
  import opened RipRelocation
  import opened EntryPoint
  import opened EntryPointRelocator
  import opened BranchDecoding
  import opened Machine
  import opened Bypass
  import opened LineLength
  import opened LocalHook

  // ---------- the page search ----------

  const REACH: int := 0x7FFFFF00

  /** The part of the address space to search, as application limits and reach leave it. */
  datatype Range = Range(entry: nat, start: int, end: int)

  function Max(a: int, b: int): (r: int) { if a < b then b else a }
  function Min(a: int, b: int): (r: int) { if a < b then a else b }

  function Around(entry: nat, minimum: int, maximum: int): (r: Range) {
    Range(entry, Max(entry - REACH, minimum), Min(entry + REACH, maximum))
  }

  /** What VirtualAlloc gives for an address: nothing or the page it reserved. */
  type VirtualAlloc = int -> Option<nat>

  /** The attempts at one distance: above the entry point first, then below. */
  function AtDistance(alloc: VirtualAlloc, r: Range, index: int): (page: Option<nat>) {
    if r.entry + index < r.end && alloc(r.entry + index).Some? then alloc(r.entry + index)
    else if r.entry - index > r.start then alloc(r.entry - index)
    else None
  }

  /** The page granted at the smallest number of page steps, or nothing if no distance in range grants one. */
  ghost predicate Nearest(alloc: VirtualAlloc, r: Range, pageSize: nat, page: Option<nat>) {
    && (page.Some? ==> exists k: nat :: AtDistance(alloc, r, k * pageSize) == page
                         && forall j: nat | j < k :: AtDistance(alloc, r, j * pageSize).None?)
    && (page.None? ==> forall k: nat :: AtDistance(alloc, r, k * pageSize).None?)
  }

  /** The search ends with the nearest page that is granted. */
  method LhAllocateMemoryEx(alloc: VirtualAlloc, entry: nat, minimum: int, maximum: int, pageSize: nat)
    returns (page: Option<nat>)
    requires pageSize > 0
    ensures Nearest(alloc, Around(entry, minimum, maximum), pageSize, page)
  {
    var iStart, iEnd := entry - REACH, entry + REACH;
    if iStart < minimum {
      iStart := minimum;
    }
    if iEnd > maximum {
      iEnd := maximum;
    }
    ghost var r := Around(entry, minimum, maximum);
    var index := 0;
    ghost var k: nat := 0;
    page := None;
    while true
      invariant index == k * pageSize && page.None?
      invariant forall j: nat | j < k :: AtDistance(alloc, r, j * pageSize).None?
      decreases Max(iEnd - entry, entry - iStart) - index
    {
      var end := true;
      if entry + index < iEnd {
        page := alloc(entry + index);
        if page.Some? {
          assert AtDistance(alloc, r, k * pageSize) == page;
          break;
        }
        end := false;
      }
      if entry - index > iStart {
        page := alloc(entry - index);
        if page.Some? {
          assert AtDistance(alloc, r, k * pageSize) == page;
          break;
        }
        end := false;
      }
      assert AtDistance(alloc, r, k * pageSize).None?;
      if end {
        forall j: nat ensures AtDistance(alloc, r, j * pageSize).None? {
          FartherIsOut(r, k, j, pageSize);
        }
        break;
      }
      index := index + pageSize;
      k := k + 1;
    }
  }

  /** Once a distance is out of range on both sides, so are the larger ones. */
  lemma FartherIsOut(r: Range, k: nat, j: nat, pageSize: nat)
    requires r.entry + k * pageSize >= r.end && r.entry - k * pageSize <= r.start
    ensures j >= k ==> r.entry + j * pageSize >= r.end && r.entry - j * pageSize <= r.start
  {
    if j >= k {
      StepsGrow(k, j, pageSize);
    }
  }

  lemma {:induction false} StepsGrow(k: nat, j: nat, n: nat)
    requires k <= j
    ensures k * n <= j * n
    decreases j - k
  {
    if k < j {
      StepsGrow(k, j - 1, n);
      assert j * n == (j - 1) * n + n;
    }
  }

  /** A page is to be had `d` bytes above the entry point, within the reach of a jump and the limit of applications. */
  predicate OffersAbove(alloc: VirtualAlloc, entry: nat, maximum: int, d: nat) {
    d < 0x7FFFFF00 && entry + d < maximum && alloc(entry + d).Some?
  }

  predicate OffersBelow(alloc: VirtualAlloc, entry: nat, minimum: int, d: nat) {
    d < 0x7FFFFF00 && minimum < entry - d && alloc(entry - d).Some?
  }

  /** A page is to be had `k` page steps away, on either side. */
  predicate Offers(alloc: VirtualAlloc, entry: nat, minimum: int, maximum: int, pageSize: nat, k: nat) {
    var d := k * pageSize;
    OffersAbove(alloc, entry, maximum, d) || OffersBelow(alloc, entry, minimum, d)
  }

  /** The page above if there is one, otherwise the one below. */
  function Preferred(alloc: VirtualAlloc, entry: nat, maximum: int, pageSize: nat, k: nat): (page: Option<nat>) {
    var d := k * pageSize;
    if OffersAbove(alloc, entry, maximum, d) then alloc(entry + d) else alloc(entry - d)
  }

  /** The search fails only if no page step offers a page on either side; otherwise it takes the page of the nearest
    * step that does, and of two pages at the same distance the one above. */
  lemma AboveFirst(alloc: VirtualAlloc, entry: nat, minimum: int, maximum: int, pageSize: nat, page: Option<nat>)
    requires Nearest(alloc, Around(entry, minimum, maximum), pageSize, page)
    ensures page.None? <==> forall k: nat :: !Offers(alloc, entry, minimum, maximum, pageSize, k)
    ensures page.Some? ==>
              exists k: nat ::
                && Offers(alloc, entry, minimum, maximum, pageSize, k)
                && (forall j: nat | j < k :: !Offers(alloc, entry, minimum, maximum, pageSize, j))
                && page == Preferred(alloc, entry, maximum, pageSize, k)
  {
    hide AtDistance, Offers, Preferred;
    var r := Around(entry, minimum, maximum);
    if page.None? {
      forall k: nat ensures !Offers(alloc, entry, minimum, maximum, pageSize, k) {
        WhatIsOffered(alloc, entry, minimum, maximum, pageSize, k);
      }
    } else {
      var k: nat :| AtDistance(alloc, r, k * pageSize) == page
                      && forall j: nat | j < k :: AtDistance(alloc, r, j * pageSize).None?;
      WhatIsOffered(alloc, entry, minimum, maximum, pageSize, k);
      forall j: nat | j < k ensures !Offers(alloc, entry, minimum, maximum, pageSize, j) {
        WhatIsOffered(alloc, entry, minimum, maximum, pageSize, j);
      }
    }
  }

  lemma WhatIsOffered(alloc: VirtualAlloc, entry: nat, minimum: int, maximum: int, pageSize: nat, k: nat)
    ensures var page := AtDistance(alloc, Around(entry, minimum, maximum), k * pageSize);
            && (page.Some? <==> Offers(alloc, entry, minimum, maximum, pageSize, k))
            && (page.Some? ==> page == Preferred(alloc, entry, maximum, pageSize, k))
  {
  }

  /** VirtualAlloc rounds the address it is given down to its granularity. */
  ghost predicate RoundsDown(alloc: VirtualAlloc, granularity: nat) {
    forall a | alloc(a).Some? :: alloc(a).value <= a < alloc(a).value + granularity
  }

  /** A granted page was asked for at an address within the limits of its side, and begins less than the granularity
    * below that. */
  lemma GrantedInReach(alloc: VirtualAlloc, entry: nat, minimum: int, maximum: int, index: nat, granularity: nat)
    requires AtDistance(alloc, Around(entry, minimum, maximum), index).Some? && RoundsDown(alloc, granularity)
    ensures var base := AtDistance(alloc, Around(entry, minimum, maximum), index).value;
            || (base <= entry + index < base + granularity && entry + index < entry + REACH && entry + index < maximum)
            || (base <= entry - index < base + granularity && entry - REACH < entry - index && minimum < entry - index)
  {
    var r := Around(entry, minimum, maximum);
    var above := r.entry + index < r.end && alloc(r.entry + index).Some?;
    assert alloc(if above then r.entry + index else r.entry - index).Some?;
  }

  /** For pages of 4096 bytes the jump back behind the relocated code reaches the original unless the page lies too far
    * below: pages above are always near enough, and so would all pages be if the granularity were that of a page. */
  lemma JumpBackReachesIff(alloc: VirtualAlloc, s: Site, minimum: int, maximum: int, index: nat, granularity: nat,
                           end: nat)
    requires AtDistance(alloc, Around(s.entry, minimum, maximum), index) == Some(s.base) && index % 4096 == 0
    requires RoundsDown(alloc, granularity) && end + MAX_JMP_SIZE <= IS_EXECUTED && s.size < 20
    ensures FitsLong(s.entry + s.size - (s.base + end + 5)) <==> s.entry + s.size - TWO_31 < s.base + end + 5
    ensures s.entry <= s.base ==> FitsLong(s.entry + s.size - (s.base + end + 5))
    ensures granularity <= 4096 && s.size <= end + 5 ==> FitsLong(s.entry + s.size - (s.base + end + 5))
  {
    GrantedInReach(alloc, s.entry, minimum, maximum, index, granularity);
    assert index < REACH ==> index <= 0x7FFFF000;
  }

  // ---------- the layout of a hook page ----------

  const MAX_JMP_SIZE: nat := 16
  const IS_EXECUTED: nat := 2048

  /** `size` is the first instruction boundary that is at least `want` away. */
  ghost predicate IsRounded(t: Tables, code: seq<byte>, want: nat, size: nat)
    requires WellFormed(t)
  {
    want <= size && Boundary(t, code, 0, size) && forall b | want <= b < size :: !Boundary(t, code, 0, b)
  }

  /** The page holds the finished copy of the entry point from `at` to `end` and the jump behind it. */
  ghost predicate Prepared(t: Tables, s: Site, before: seq<byte>, page: seq<byte>, at: nat, end: nat)
    requires WellFormed(t)
  {
    && Boundary(t, s.code, 0, s.size) && Room(s, Progress(0, false, before, at))
    && FitsLong(s.entry + s.size - (s.base + end + 5))
    && var r := Relocate(t, s, Progress(0, false, before, at));
       && r.Done? && r.size == end && end + 5 <= |page| == |r.buf|
       && page[..end] == r.buf[..end]
       && page[end..end + 5] == NearJump(s.base + end, s.entry + s.size)
  }

  /** A prepared page in memory bypasses the hook: running it is running the original entry point. */
  lemma PreparedBypasses<T(!new)>(orig: Cpu<T>, moved: Cpu<T>, s: Site, before: seq<byte>, page: seq<byte>,
                                  at: nat, end: nat, data: Data<T>)
    requires BranchTables(orig.t) && WellFormed(orig.t) && WellFormed(moved.t)
    requires moved.t == orig.t && moved.isa == orig.isa && CalleeIgnoresRax(orig.isa)
    requires s.size + WINDOW <= |s.code| && s.entry + |s.code| < TWO_63
    requires s.base + |page| < TWO_63
    requires Holds(orig.mem, s.entry, s.code) && Holds(moved.mem, s.base, page)
    requires forall b | 0 <= b < s.size && Boundary(orig.t, s.code, 0, b) :: Movable(orig.t, s.code, b)
    requires Prepared(orig.t, s, before, page, at, end)
    ensures Similar(Run(orig, s.entry, s.entry + s.size, data), Run(moved, s.base + at, s.base + end + 5, data))
  {
    hide UdDecode, Decode, BranchTables, Run, Similar, Boundary, Movable, Relocate, NearJump;
    var r := Relocate(orig.t, s, Progress(0, false, before, at));
    WrittenStays(orig.t, s, Progress(0, false, before, at));
    forall k | at <= k < end ensures moved.mem(s.base + k) == r.buf[k] {
      assert page[k] == page[..end][k];
    }
    var jump := NearJump(s.base + end, s.entry + s.size);
    forall k | 0 <= k < 5 ensures moved.mem(s.base + end + k) == jump[k] {
      assert moved.mem(s.base + (end + k)) == page[end + k] == page[end..end + 5][k];
    }
    BypassEquivalence(orig, moved, s, before, r.buf, at, end, data);
  }

  /** The relocation writes nothing beyond the room it may need. */
  lemma {:induction false} TailStays(t: Tables, s: Site, p: Progress, limit: nat)
    requires WellFormed(t) && Room(s, p) && Relocate(t, s, p).Done?
    requires p.pos <= limit <= |p.buf| && (p.off < s.size ==> p.pos + 12 * (s.size - p.off) + WINDOW <= limit)
    ensures var r := Relocate(t, s, p);
            |r.buf| == |p.buf| && r.size <= limit && r.buf[limit..] == p.buf[limit..]
    decreases s.size - p.off
  {
    hide Next, Relocate;
    if p.off < s.size {
      RelocateUnfolds(t, s, p);
      NextKeeps(t, s, p);
      NextTail(t, s, p, limit);
      TailStays(t, s, Next(t, s, p).p, limit);
    } else {
      RelocateEnds(t, s, p);
    }
  }

  lemma NextTail(t: Tables, s: Site, p: Progress, limit: nat)
    requires WellFormed(t) && Room(s, p) && p.off < s.size && Next(t, s, p).Continue?
    requires p.pos + 12 * (s.size - p.off) + WINDOW <= limit <= |p.buf|
    ensures var q := Next(t, s, p).p;
            && q.pos <= limit && (q.off < s.size ==> q.pos + 12 * (s.size - q.off) + WINDOW <= limit)
            && |q.buf| == |p.buf| && q.buf[limit..] == p.buf[limit..]
  {
    hide InstrLen, RipSpec, ToLE, UdDecode, Decode;
    LengthPositive(t, s.code, InsnStart(p));
    var outcome := RipSpec(t, Window(s.code, p.off), Delta(s, p));
    if outcome.Patched? {
      PatchedSize(t, s, p, outcome.bytes);
    }
  }

  /** A page within 2 GiB on either side never lets the relocation run into its assertion. */
  lemma {:induction false} NearNeverAsserts(t: Tables, s: Site, p: Progress, limit: nat)
    requires WellFormed(t) && Room(s, p)
    requires p.pos <= limit <= |p.buf| && (p.off < s.size ==> p.pos + 12 * (s.size - p.off) + WINDOW <= limit)
    requires s.entry + s.size - TWO_31 <= s.base && s.base + limit < s.entry + TWO_31
    ensures NeverAsserts(t, s, p)
    decreases s.size - p.off
  {
    hide Next, BranchAt;
    if p.off < s.size {
      NextKeeps(t, s, p);
      if Next(t, s, p).Continue? {
        NextTail(t, s, p, limit);
        NearNeverAsserts(t, s, Next(t, s, p).p, limit);
      }
    }
  }

  /** A page of 4096 bytes that the search takes above the entry point is near enough for everything. */
  lemma PagesAboveAreNear(t: Tables, alloc: VirtualAlloc, s: Site, minimum: int, maximum: int, index: nat,
                          granularity: nat, before: seq<byte>, at: nat, end: nat)
    requires WellFormed(t) && s.size < 20 && s.size + WINDOW <= |s.code| && IS_EXECUTED <= |before|
    requires at + 12 * 20 + WINDOW + MAX_JMP_SIZE <= IS_EXECUTED && end + MAX_JMP_SIZE <= IS_EXECUTED
    requires AtDistance(alloc, Around(s.entry, minimum, maximum), index) == Some(s.base) && index % 4096 == 0
    requires RoundsDown(alloc, granularity) && s.entry <= s.base
    ensures NeverAsserts(t, s, Progress(0, false, before, at)) && FitsLong(s.entry + s.size - (s.base + end + 5))
  {
    hide NeverAsserts, WellFormed, RoundsDown;
    GrantedInReach(alloc, s.entry, minimum, maximum, index, granularity);
    assert index < REACH ==> index <= 0x7FFFF000;
    JumpBackReachesIff(alloc, s, minimum, maximum, index, granularity, end);
    NearNeverAsserts(t, s, Progress(0, false, before, at), IS_EXECUTED);
  }

  /** What the assembler trampoline and the record in front of it occupy. */
  datatype Image = Image(header: nat, asm_: seq<byte>)

  /** The trampoline, the worst case of the relocated code and the jump end below the execution counter. */
  predicate Fits(image: Image, pageSize: nat) {
    image.header + |image.asm_| + 12 * 20 + WINDOW + MAX_JMP_SIZE <= IS_EXECUTED && IS_EXECUTED + 4 <= pageSize
  }

  /** The page as the relocation finds it: zeros, with the trampoline in it and the execution counter cleared. */
  function BlankPage(image: Image, pageSize: nat): (page: seq<byte>)
    requires Fits(image, pageSize)
    ensures |page| == pageSize && page[image.header..image.header + |image.asm_|] == image.asm_
    ensures page[IS_EXECUTED..IS_EXECUTED + 4] == [0, 0, 0, 0]
  {
    Overwrite(Overwrite(seq(pageSize, _ => 0), IS_EXECUTED, [0, 0, 0, 0]), image.header, image.asm_)
  }

  /** The finished page: everything is in its place, so nothing overlaps anything else. */
  ghost predicate Complete(t: Tables, s: Site, image: Image, page: seq<byte>, relocSize: nat)
    requires WellFormed(t)
  {
    var oldProc := image.header + |image.asm_|;
    && Fits(image, |page|) && oldProc + relocSize + MAX_JMP_SIZE <= IS_EXECUTED
    && page[image.header..oldProc] == image.asm_
    && Prepared(t, s, BlankPage(image, |page|), page, oldProc, oldProc + relocSize)
    && page[IS_EXECUTED..IS_EXECUTED + 4] == [0, 0, 0, 0]
  }

  /** Where the relocation starts. */
  function StartOf(image: Image, pageSize: nat): (p: Progress)
    requires Fits(image, pageSize)
  {
    Progress(0, false, BlankPage(image, pageSize), image.header + |image.asm_|)
  }

  /** The relocation runs into neither of its assertions, which would end the process. */
  ghost predicate Survives(t: Tables, s: Site, image: Image, pageSize: nat)
    requires WellFormed(t) && Fits(image, pageSize)
  {
    s.size < 20 && Room(s, StartOf(image, pageSize)) && NeverAsserts(t, s, StartOf(image, pageSize))
  }

  /** How the code generation ends: as the relocation does, unless the jump back is out of reach. */
  ghost function AllocationStatus(t: Tables, s: Site, p: Progress): (status: Status)
    requires WellFormed(t) && Room(s, p)
  {
    match Relocate(t, s, p)
    case Failed(code) => code
    case Done(_, end) =>
      if FitsLong(s.entry + s.size - (s.base + end + 5)) then STATUS_SUCCESS else STATUS_NOT_SUPPORTED
  }

  /** Searches a page, rounds the entry point and generates the code, unless that ends the process; `granted` is what
    * the search returned. */
  method LhAllocateHook(t: Tables, image: Image, code: seq<byte>, entry: nat, hookProc: nat, callback: nat,
                        entryValid: bool, procValid: bool, alloc: VirtualAlloc, minimum: int, maximum: int,
                        pageSize: nat)
    returns (ended: bool, status: Status, hook: LocalHookInfo?, relocSize: nat, ghost granted: Option<nat>)
    requires WellFormed(t) && NamesPlain(t) && LinesFit(t) && Fits(image, pageSize) && 20 + WINDOW <= |code|
    requires entry + |code| < TWO_63 && forall a | alloc(a).Some? :: alloc(a).value + pageSize < TWO_63
    ensures !ended && status == STATUS_SUCCESS ==>
              && hook != null && fresh(hook) && fresh(hook.page)
              && granted.Some? && hook.address == granted.value && hook.page.Length == pageSize
              && IsRounded(t, code, 5, hook.entrySize)
              && Complete(t, Site(code, entry, hook.entrySize, hook.address), image, hook.page[..], relocSize)
              && hook.trampoline == hook.address + image.header && hook.oldProc == hook.trampoline + |image.asm_|
              && hook.nativeSize == image.header + |image.asm_| + relocSize + MAX_JMP_SIZE
              && hook.targetProc == entry && hook.targetBackup == code[..8]
              && hook.hookProc == hookProc && hook.callback == callback
              && hook.isExecutedPtr == hook.address + IS_EXECUTED
    ensures !entryValid ==> !ended && status == STATUS_INVALID_PARAMETER_1
    ensures entryValid && !procValid ==> !ended && status == STATUS_INVALID_PARAMETER_2
    ensures entryValid && procValid ==> Nearest(alloc, Around(entry, minimum, maximum), pageSize, granted)
    ensures entryValid && procValid && granted.None? ==> !ended && status == STATUS_NO_MEMORY
    ensures entryValid && procValid && granted.Some? ==>
              && hook != null && IsRounded(t, code, 5, hook.entrySize)
              && var s := Site(code, entry, hook.entrySize, granted.value);
                 && (ended <==> !Survives(t, s, image, pageSize))
                 && (!ended ==> status == AllocationStatus(t, s, StartOf(image, pageSize)))
  {
    hide UdDecode, Decode, Relocate, NeverAsserts, NamesPlain, LinesFit, Boundary, Prepared, NearJump, Survives,
         AllocationStatus, Nearest, BlankPage;
    ended, status, hook, relocSize := false, STATUS_NO_MEMORY, null, 0;
    granted := None;
    if !entryValid {
      status := STATUS_INVALID_PARAMETER_1;
      return;
    }
    if !procValid {
      status := STATUS_INVALID_PARAMETER_2;
      return;
    }
    var page := LhAllocateMemoryEx(alloc, entry, minimum, maximum, pageSize);
    granted := page;
    if page.None? {
      return;
    }
    NearestIsGranted(alloc, Around(entry, minimum, maximum), pageSize, page);
    hook := new LocalHookInfo(page.value, pageSize);
    hook.entrySize := LhRoundToNextInstruction(t, code, 5);
    assert IsRounded(t, code, 5, hook.entrySize);
    hook.hookProc, hook.targetProc, hook.callback := hookProc, entry, callback;
    hook.isExecutedPtr := hook.address + IS_EXECUTED;
    hook.trampoline := hook.address + image.header;
    hook.oldProc := hook.trampoline + |image.asm_|;
    ended, status, relocSize := GenerateCode(t, image, Site(code, entry, hook.entrySize, hook.address), hook.page);
    if !ended && status == STATUS_SUCCESS {
      hook.nativeSize := image.header + |image.asm_| + relocSize + MAX_JMP_SIZE;
      hook.targetBackup := code[..8];
    }
  }

  lemma NearestIsGranted(alloc: VirtualAlloc, r: Range, pageSize: nat, page: Option<nat>)
    requires Nearest(alloc, r, pageSize, page) && page.Some?
    ensures exists a: int :: alloc(a) == page
  {
    var k: nat :| AtDistance(alloc, r, k * pageSize) == page;
  }

  /** Clears the execution counter, copies the trampoline, relocates the entry point behind it and adds the jump. */
  method GenerateCode(t: Tables, image: Image, s: Site, page: array<byte>)
    returns (ended: bool, status: Status, relocSize: nat)
    requires WellFormed(t) && NamesPlain(t) && LinesFit(t) && Fits(image, page.Length)
    requires (s.size < 20 ==> Relocatable(s, page.Length)) && Boundary(t, s.code, 0, s.size)
    requires page[..] == seq(page.Length, _ => 0)
    modifies page
    ensures ended <==> !Survives(t, s, image, page.Length)
    ensures !ended ==> status == AllocationStatus(t, s, StartOf(image, page.Length))
    ensures !ended && status == STATUS_SUCCESS ==> Complete(t, s, image, page[..], relocSize)
  {
    hide WellFormed, Survives, AllocationStatus, Complete, Boundary, NamesPlain, LinesFit;
    RtlCopyMemory(page, IS_EXECUTED, [0, 0, 0, 0]);
    RtlCopyMemory(page, image.header, image.asm_);
    ended, status, relocSize := AppendCode(t, image, s, page);
  }

  /** Relocated entry point and jump. */
  method AppendCode(t: Tables, image: Image, s: Site, page: array<byte>)
    returns (ended: bool, status: Status, relocSize: nat)
    requires WellFormed(t) && NamesPlain(t) && LinesFit(t) && Fits(image, page.Length)
    requires (s.size < 20 ==> Relocatable(s, page.Length)) && Boundary(t, s.code, 0, s.size)
    requires page[..] == BlankPage(image, page.Length)
    modifies page
    ensures ended <==> !Survives(t, s, image, page.Length)
    ensures !ended ==> status == AllocationStatus(t, s, StartOf(image, page.Length))
    ensures !ended && status == STATUS_SUCCESS ==> Complete(t, s, image, page[..], relocSize)
  {
    hide UdDecode, Decode, Relocate, NeverAsserts, NamesPlain, LinesFit, Boundary, Prepared, BlankPage;
    var at := image.header + |image.asm_|;
    ghost var before := page[..];
    ended, status, relocSize := LhRelocateEntryPoint(t, s, page, at);
    if !ended && status == STATUS_SUCCESS {
      status := PlantJump(t, s, page, at, relocSize, before);
      KeptParts(image, s, before, page[..], at);
    }
  }

  lemma KeptParts(image: Image, s: Site, before: seq<byte>, page: seq<byte>, at: nat)
    requires Fits(image, |page|) && |before| == |page| && at == image.header + |image.asm_| && s.size < 20
    requires page[..at] == before[..at]
    requires page[at + 12 * s.size + WINDOW + 5..] == before[at + 12 * s.size + WINDOW + 5..]
    ensures page[image.header..at] == before[image.header..at]
    ensures page[IS_EXECUTED..IS_EXECUTED + 4] == before[IS_EXECUTED..IS_EXECUTED + 4]
  {
    var k := at + 12 * s.size + WINDOW + 5;
    assert page[image.header..at] == page[..at][image.header..at];
    assert before[image.header..at] == before[..at][image.header..at];
    assert page[IS_EXECUTED..IS_EXECUTED + 4] == page[k..][IS_EXECUTED - k..IS_EXECUTED + 4 - k];
    assert before[IS_EXECUTED..IS_EXECUTED + 4] == before[k..][IS_EXECUTED - k..IS_EXECUTED + 4 - k];
  }

  /** The jump back behind the relocated code, which must be in reach of a 32-bit displacement. */
  method PlantJump(t: Tables, s: Site, page: array<byte>, at: nat, relocSize: nat, ghost before: seq<byte>)
    returns (status: Status)
    requires WellFormed(t) && Room(s, Progress(0, false, before, at)) && Boundary(t, s.code, 0, s.size)
    requires Relocate(t, s, Progress(0, false, before, at)) == Done(page[..], at + relocSize)
    requires at + 12 * s.size + WINDOW + 5 <= page.Length == |before|
    modifies page
    ensures at + relocSize <= at + 12 * s.size + WINDOW
    ensures page[..at] == before[..at]
              && page[at + 12 * s.size + WINDOW + 5..] == before[at + 12 * s.size + WINDOW + 5..]
    ensures status == STATUS_SUCCESS ==> Prepared(t, s, before, page[..], at, at + relocSize)
    ensures status == if FitsLong(s.entry + s.size - (s.base + at + relocSize + 5)) then STATUS_SUCCESS
                      else STATUS_NOT_SUPPORTED
  {
    hide UdDecode, Decode, Relocate, Boundary, ToLE, Room;
    var start := Progress(0, false, before, at);
    TailStays(t, s, start, at + 12 * s.size + WINDOW);
    WrittenStays(t, s, start);
    var relAddr := s.entry + s.size - (s.base + at + relocSize + 5);
    if !FitsLong(relAddr) {
      return STATUS_NOT_SUPPORTED;
    }
    RtlCopyMemory(page, at + relocSize, [0xE9] + ToLE(Unsigned32(relAddr), 4));
    status := STATUS_SUCCESS;
  }
}
