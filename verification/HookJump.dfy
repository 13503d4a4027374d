/** What an install does to the code of its target. */
module HookJump {
  import opened Words
  import opened Udis86
  import opened CodeMemory
  import opened RipRelocation
  import opened HookLifecycle
  import opened LocalHook
  import opened HookManager
  import opened Machine
  import opened Bypass

  /** A successful install makes the first five bytes of the target a jump that lands exactly on the trampoline and
    * leaves every other byte alone. */
  lemma InstalledJumpLands<T>(cpu: Cpu<T>, s: State, handle: HookTraceInfo, target: nat, trampoline: u64, proc: nat,
                              callback: nat, data: Data<T>)
    requires WellFormed(cpu.t) && target + PATCH <= |s.mem| && proc != 0
    requires InstallStatus(s, handle, Prepare(STATUS_SUCCESS, target, trampoline, proc, callback)) == STATUS_SUCCESS
    requires var p := Prepare(STATUS_SUCCESS, target, trampoline, proc, callback);
             Holds(cpu.mem, 0, Install(s, handle, target, p).mem)
    ensures Run(cpu, target, target + 5, data) == Outcome([], false, trampoline, data)
    ensures var p := Prepare(STATUS_SUCCESS, target, trampoline, proc, callback);
            var mem := Install(s, handle, target, p).mem;
            |mem| == |s.mem| && forall k | 0 <= k < |mem| && !(target <= k < target + 5) :: mem[k] == s.mem[k]
  {
    hide Run, Decode, UdDecode, ToLE, FreeSlot;
    var mem := Install(s, handle, target, Prepare(STATUS_SUCCESS, target, trampoline, proc, callback)).mem;
    var jump := NearJump(target, trampoline);
    forall k | 0 <= k < 5 ensures cpu.mem(target + k) == jump[k] {
      assert cpu.mem(0 + (target + k)) == mem[target + k];
    }
    NearJumpRuns(cpu, target, trampoline, data);
  }

  /** An install that fails changes no code, slot, list, record or handle. */
  lemma FailedInstallChangesNothing<K>(s: HookState<K>, handle: K, target: nat, p: Preparation)
    requires target + PATCH <= |s.mem| && p.Ok()
    requires InstallStatus(s, handle, p) != STATUS_SUCCESS
    ensures var r := Install(s, handle, target, p);
            r == s.(counter := r.counter)
            && (r.counter != s.counter ==> InstallStatus(s, handle, p) == STATUS_INSUFFICIENT_RESOURCES)
  {
  }
}
