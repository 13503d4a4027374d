/** LhInstallHook (install.c) as a whole: the parameter checks, the search for a page, the code generation, the jump
  * over the target and the registration. */
module HookInstall {
  import opened Words
  import opened Udis86
  import opened SynIntel
  import opened CodeMemory
  import opened RipRelocation
  import opened EntryPoint
  import opened LineLength
  import opened LocalHook
  import opened HookLifecycle
  import opened HookAllocation
  import M = HookManager

  /** The code that is read at an entry point. */
  const READ: nat := 20 + WINDOW

  function CodeAt(mem: seq<byte>, target: nat): (code: seq<byte>)
    requires target + READ <= |mem|
    ensures |code| == READ
  {
    mem[target..target + READ]
  }

  /** User-mode addresses, and room for the trampoline in a page. */
  ghost predicate Allocatable(image: Image, code: seq<byte>, entry: nat, alloc: VirtualAlloc, pageSize: nat) {
    && Fits(image, pageSize) && 20 + WINDOW <= |code| && entry + |code| < TWO_63
    && forall a | alloc(a).Some? :: alloc(a).value + pageSize < TWO_63
  }

  /** A page that the search granted, with trampoline, bypass and record complete. */
  ghost predicate Built(t: Tables, image: Image, code: seq<byte>, entry: nat, granted: Option<nat>, hook: LocalHookInfo,
                        relocSize: nat)
    requires WellFormed(t) && |code| >= 8
    reads hook, hook.page
  {
    && granted == Some(hook.address) && IsRounded(t, code, 5, hook.entrySize) && 5 <= hook.entrySize
    && Complete(t, Site(code, entry, hook.entrySize, hook.address), image, hook.page[..], relocSize)
    && hook.trampoline == hook.address + image.header && hook.oldProc == hook.trampoline + |image.asm_|
    && hook.nativeSize == image.header + |image.asm_| + relocSize + 16
    && hook.targetProc == entry && hook.targetBackup == code[..8] && hook.isExecutedPtr == hook.address + 2048
  }

  /** The entry point as the relocation sees it, with `size` rounded. */
  ghost predicate IsSite(t: Tables, s: Site, code: seq<byte>, entry: nat, base: nat)
    requires WellFormed(t)
  {
    s == Site(code, entry, s.size, base) && IsRounded(t, code, 5, s.size)
  }

  /** What the target gets: nothing without a page, nor if the relocation fails or one of the two jumps does not reach,
    * with the status of the first of these; otherwise the jump to the trampoline in the granted page. */
  ghost function Decided(t: Tables, image: Image, s: Site, pageSize: nat, hookProc: nat, callback: nat)
    : (p: Preparation)
    requires WellFormed(t) && Fits(image, pageSize) && Survives(t, s, image, pageSize) && hookProc != 0
  {
    M.Prepare(AllocationStatus(t, s, StartOf(image, pageSize)), s.entry, s.base + image.header, hookProc, callback)
  }

  /** The outcome of search and code generation. */
  ghost predicate Outcome(t: Tables, image: Image, code: seq<byte>, entry: nat, alloc: VirtualAlloc, r: Range,
                          pageSize: nat, hookProc: nat, callback: nat, granted: Option<nat>, ended: bool,
                          p: Preparation)
    requires WellFormed(t) && Fits(image, pageSize) && hookProc != 0
  {
    && Nearest(alloc, r, pageSize, granted)
    && (granted.None? ==> !ended && p == Preparation.Refused(STATUS_NO_MEMORY))
    && (granted.Some? ==>
          exists s ::
            && IsSite(t, s, code, entry, granted.value) && (ended <==> !Survives(t, s, image, pageSize))
            && (!ended ==> p == Decided(t, image, s, pageSize, hookProc, callback)))
  }

  lemma AtLeast(t: Tables, code: seq<byte>, want: nat, size: nat)
    requires WellFormed(t) && IsRounded(t, code, want, size)
    ensures want <= size
  {
    hide Boundary, WellFormed;
  }

  /** LhAllocateHook for a hook that is to be installed. */
  method Allocate(t: Tables, image: Image, code: seq<byte>, entry: nat, hookProc: nat, callback: nat,
                  alloc: VirtualAlloc, minimum: int, maximum: int, pageSize: nat)
    returns (ended: bool, status: Status, hook: LocalHookInfo?, relocSize: nat, ghost granted: Option<nat>,
             ghost p: Preparation)
    requires WellFormed(t) && NamesPlain(t) && LinesFit(t) && Allocatable(image, code, entry, alloc, pageSize)
    requires hookProc != 0
    ensures Outcome(t, image, code, entry, alloc, Around(entry, minimum, maximum), pageSize, hookProc, callback,
                    granted, ended, p)
    ensures !ended && status != STATUS_SUCCESS ==> p == Preparation.Refused(status)
    ensures !ended && status == STATUS_SUCCESS ==>
              && hook != null && fresh(hook) && fresh(hook.page)
                  && Built(t, image, code, entry, granted, hook, relocSize)
              && p == M.Prepare(STATUS_SUCCESS, entry, hook.trampoline, hookProc, callback)
              && hook.hookProc == hookProc && hook.callback == callback
  {
    hide UdDecode, Decode, NamesPlain, LinesFit, Nearest, Survives, Complete, AllocationStatus, IsRounded;
    ended, status, hook, relocSize, granted :=
      LhAllocateHook(t, image, code, entry, hookProc, callback, true, true, alloc, minimum, maximum, pageSize);
    if granted.Some? {
      ghost var s := Site(code, entry, hook.entrySize, granted.value);
      assert IsSite(t, s, code, entry, granted.value);
      AtLeast(t, code, 5, hook.entrySize);
      p := M.Prepare(status, entry, s.base + image.header, hookProc, callback);
    } else {
      p := Preparation.Refused(STATUS_NO_MEMORY);
    }
  }

  /** The process ends in an assertion of the relocation, with no hook changed; or the hook is installed, with the
    * granted page behind its jump and its record behind the handle; or nothing has changed but, at most, the counter.
    * `p` is what the target gets, and `granted` is what the search returned if it was made. */
  method LhInstallHook(m: M.HookManager, t: Tables, image: Image, alloc: VirtualAlloc, minimum: int, maximum: int,
                       pageSize: nat, targetProc: nat, hookProc: nat, callback: nat, entryValid: bool, procValid: bool,
                       handle: HookTraceInfo)
    returns (ended: bool, status: Status, hook: LocalHookInfo?, relocSize: nat, ghost p: Preparation,
             ghost granted: Option<nat>)
    requires m.Valid() && m.uniqueIDCounter + 1 < TWO_32 && m.HandleOk(handle)
    requires targetProc + READ <= m.memory.Length && (procValid ==> hookProc != 0)
    requires WellFormed(t) && NamesPlain(t) && LinesFit(t)
    requires Allocatable(image, CodeAt(m.memory[..], targetProc), targetProc, alloc, pageSize)
    modifies m, m.memory, m.slotList, m.hookListHead, handle
    ensures m.Valid()
    ensures ended ==> m.model.state == old(m.model.state) && handle.link == null
    ensures !ended ==>
              && p.Ok()
              && m.model.state == Install(old(m.model.state), handle, targetProc, p)
              && status == if !entryValid then STATUS_INVALID_PARAMETER_1
                           else if !procValid then STATUS_INVALID_PARAMETER_2
                           else if handle in old(m.model.state.links) then STATUS_INVALID_PARAMETER_4
                           else if p.Refused? then p.status
                           else if 0 !in old(m.model.state.slots) then STATUS_INSUFFICIENT_RESOURCES
                           else STATUS_SUCCESS
    ensures !(entryValid && procValid && handle !in old(m.model.state.links)) ==> !ended
    ensures entryValid && procValid && handle !in old(m.model.state.links) ==>
              Outcome(t, image, CodeAt(old(m.memory[..]), targetProc), targetProc, alloc,
                      Around(targetProc, minimum, maximum), pageSize, hookProc, callback, granted, ended, p)
    ensures !ended && status == STATUS_SUCCESS ==>
              && hook != null && handle.link == hook && hookProc != 0
              && p == M.Prepare(STATUS_SUCCESS, targetProc, hook.trampoline, hookProc, callback)
              && Built(t, image, CodeAt(old(m.memory[..]), targetProc), targetProc, granted, hook, relocSize)
              && hook.hookProc == hookProc && hook.callback == callback
              && hook.hlsIdent == old(m.model.state.counter) && hook.hlsIdent in m.model.state.hooks
              && m.model.state.hooks[hook.hlsIdent] == M.Record(hook)
  {
    hide WellFormed, NamesPlain, LinesFit, Outcome, Complete, IsRounded, FreeSlot, NearJump, Allocatable,
         M.HookManager.Valid;
    p, granted, hook, relocSize := Preparation.Refused(STATUS_INVALID_PARAMETER_1), None, null, 0;
    ended, status := false, STATUS_INVALID_PARAMETER_1;
    if !entryValid {
      return;
    }
    if !procValid {
      status := STATUS_INVALID_PARAMETER_2;
      return;
    }
    m.LinkSet(handle);
    if handle.link != null {
      status := STATUS_INVALID_PARAMETER_4;
      return;
    }
    var code := m.memory[targetProc..targetProc + READ];
    ended, status, hook, relocSize, granted, p :=
      Allocate(t, image, code, targetProc, hookProc, callback, alloc, minimum, maximum, pageSize);
    if ended || status != STATUS_SUCCESS {
      return;
    }
    status := m.InstallAllocated(hook, handle);
  }
}
