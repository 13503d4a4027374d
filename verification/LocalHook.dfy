/** The records of DriverShared.h that hooks live in. */
module LocalHook {
  import opened Words

  /** What LhAllocateHook puts into a record. */
  datatype Allocation = Allocation(
    nativeSize: nat, targetProc: nat, targetBackup: seq<byte>, entrySize: nat, trampoline: nat, callback: nat,
    oldProc: nat, hookProc: nat, isExecutedPtr: nat)

  const LOCAL_HOOK_SIGNATURE: nat := 0x6A910BE2

  /** LOCAL_HOOK_INFO with the page behind it. A hook procedure of 0 is NULL. */
  class LocalHookInfo {
    const address: nat
    const page: array<byte>

    var next: LocalHookInfo?
    var nativeSize: nat
    var targetProc: nat
    var targetBackup: seq<byte>
    var hookCopy: seq<byte>
    var entrySize: nat
    var trampoline: nat
    var hlsIndex: nat
    var hlsIdent: nat
    var callback: nat
    var signature: nat
    var tracking: HookTraceInfo?
    var oldProc: nat
    var hookProc: nat
    var isExecutedPtr: nat

    constructor (address: nat, size: nat)
      ensures this.address == address && fresh(page) && page.Length == size && next == null
      ensures page[..] == seq(size, _ => 0)
    {
      this.address := address;
      page := new byte[size](_ => 0);
      next := null;
      new;
      assert page[..] == seq(size, _ => 0);
    }

    function Allocated(): (a: Allocation)
      reads this
    {
      Allocation(nativeSize, targetProc, targetBackup, entrySize, trampoline, callback, oldProc, hookProc,
                 isExecutedPtr)
    }
  }

  /** HOOK_TRACE_INFO, the handle that the caller supplies. */
  class HookTraceInfo {
    var link: LocalHookInfo?
  }
}
