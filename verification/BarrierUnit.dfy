/** The barrier as barrier.c and acl.c write it, over the fixed tables of BARRIER_UNIT, proved against the functions of
  * Barrier. */
module BarrierUnit {
  import opened Limits
  import opened Words
  import opened RipRelocation
  import opened Barrier

  /** HOOK_ACL. */
  class HookAcl {
    var isExclusive: bool
    var count: nat
    const entries: array<nat>

    predicate Valid()
      reads this
    {
      count <= entries.Length == MAX_ACE_COUNT
    }

    ghost function Value(): (a: Acl)
      requires Valid()
      reads this, entries
    {
      Acl(isExclusive, entries[..count])
    }

    constructor (isExclusive: bool)
      ensures Valid() && Value() == Acl(isExclusive, []) && fresh(entries)
    {
      this.isExclusive := isExclusive;
      count := 0;
      entries := new nat[MAX_ACE_COUNT](_ => 0);
    }

    method Contains(checkId: nat) returns (r: bool)
      requires Valid()
      ensures r <==> checkId in Value().entries
    {
      var index := 0;
      while index < count
        invariant 0 <= index <= count
        invariant checkId !in entries[..index]
      {
        if entries[index] == checkId {
          return true;
        }
        index := index + 1;
      }
      return false;
    }
  }

  function AclStatus(threadCount: nat, listValid: bool): (status: Status) {
    if threadCount > MAX_ACE_COUNT then STATUS_INVALID_PARAMETER_2
    else if !listValid then STATUS_INVALID_PARAMETER_1 else STATUS_SUCCESS
  }

  /** LhSetACL by thread `caller`: the zeros of the caller's array are replaced in place. */
  method LhSetACL(acl: HookAcl, isExclusive: bool, threadIdList: array<nat>, threadCount: nat, caller: nat,
                  listValid: bool)
    returns (status: Status)
    requires acl.Valid() && threadIdList != acl.entries && (listValid ==> threadCount <= threadIdList.Length)
    modifies acl, acl.entries, threadIdList
    ensures acl.Valid()
    ensures status == AclStatus(threadCount, listValid)
    ensures status == STATUS_SUCCESS <==> threadCount <= 128 && listValid
    ensures threadCount > 128 ==> status == STATUS_INVALID_PARAMETER_2
    ensures status != STATUS_SUCCESS ==> acl.Value() == old(acl.Value()) && threadIdList[..] == old(threadIdList[..])
    ensures status == STATUS_SUCCESS ==>
              && acl.Value() == Acl(isExclusive, WithCaller(old(threadIdList[..threadCount]), caller))
              && threadIdList[..] ==
                   WithCaller(old(threadIdList[..threadCount]), caller) + old(threadIdList[threadCount..])
  {
    if threadCount > MAX_ACE_COUNT {
      return STATUS_INVALID_PARAMETER_2;
    }
    if !listValid {
      return STATUS_INVALID_PARAMETER_1;
    }
    var index := 0;
    while index < threadCount
      invariant 0 <= index <= threadCount
      invariant forall k | 0 <= k < index ::
                  threadIdList[k] == if old(threadIdList[k]) == 0 then caller else old(threadIdList[k])
      invariant forall k | index <= k < threadIdList.Length :: threadIdList[k] == old(threadIdList[k])
      invariant acl.Valid() && acl.Value() == old(acl.Value())
    {
      if threadIdList[index] == 0 {
        threadIdList[index] := caller;
      }
      index := index + 1;
    }
    assert threadIdList[..threadCount] == WithCaller(old(threadIdList[..threadCount]), caller);
    acl.isExclusive := isExclusive;
    acl.count := threadCount;
    CopyIds(acl.entries, threadIdList, threadCount);
    return STATUS_SUCCESS;
  }

  /** `localAcl` is the list of the hook that the handle names. */
  method LhSetInclusiveACL(threadIdList: array<nat>, threadCount: nat, handleValid: bool, localAcl: HookAcl,
                           caller: nat, listValid: bool)
    returns (status: Status)
    requires localAcl.Valid() && threadIdList != localAcl.entries && (listValid ==> threadCount <= threadIdList.Length)
    modifies localAcl, localAcl.entries, threadIdList
    ensures localAcl.Valid()
    ensures status == if handleValid then AclStatus(threadCount, listValid) else STATUS_INVALID_PARAMETER_3
    ensures status != STATUS_SUCCESS ==> localAcl.Value() == old(localAcl.Value())
    ensures status == STATUS_SUCCESS ==>
              localAcl.Value() == Acl(false, WithCaller(old(threadIdList[..threadCount]), caller))
  {
    if !handleValid {
      return STATUS_INVALID_PARAMETER_3;
    }
    status := LhSetACL(localAcl, false, threadIdList, threadCount, caller, listValid);
  }

  method LhSetExclusiveACL(threadIdList: array<nat>, threadCount: nat, handleValid: bool, localAcl: HookAcl,
                           caller: nat, listValid: bool)
    returns (status: Status)
    requires localAcl.Valid() && threadIdList != localAcl.entries && (listValid ==> threadCount <= threadIdList.Length)
    modifies localAcl, localAcl.entries, threadIdList
    ensures localAcl.Valid()
    ensures status == if handleValid then AclStatus(threadCount, listValid) else STATUS_INVALID_PARAMETER_3
    ensures status != STATUS_SUCCESS ==> localAcl.Value() == old(localAcl.Value())
    ensures status == STATUS_SUCCESS ==>
              localAcl.Value() == Acl(true, WithCaller(old(threadIdList[..threadCount]), caller))
  {
    if !handleValid {
      return STATUS_INVALID_PARAMETER_3;
    }
    status := LhSetACL(localAcl, true, threadIdList, threadCount, caller, listValid);
  }

  /** RtlCopyMemory of thread ids. */
  method CopyIds(dest: array<nat>, src: array<nat>, n: nat)
    requires n <= dest.Length && n <= src.Length && dest != src
    modifies dest
    ensures dest[..n] == src[..n]
  {
    var i := 0;
    while i < n
      invariant 0 <= i <= n && dest[..i] == src[..i]
    {
      dest[i] := src[i];
      i := i + 1;
    }
  }

  class BarrierUnit {
    const globalAcl: HookAcl
    var isInitialized: bool
    const idList: array<nat>
    const infos: array<ThreadInfo>

    ghost predicate Valid()
      reads this, globalAcl, globalAcl.entries, idList, infos
    {
      globalAcl.Valid() && globalAcl.entries != idList && idList.Length == infos.Length && TableOk(State())
    }

    ghost function State(): (u: Unit)
      requires globalAcl.Valid()
      reads this, globalAcl, globalAcl.entries, idList, infos
    {
      Unit(globalAcl.Value(), isInitialized, idList[..], infos[..])
    }

    /** All threads are accepted at first. */
    constructor LhBarrierProcessAttach(auxUlib: bool)
      ensures Valid()
      ensures State() ==
                Unit(Acl(true, []), auxUlib, seq(MAX_THREAD_COUNT, _ => 0), seq(MAX_THREAD_COUNT, _ => NO_THREAD))
    {
      globalAcl := new HookAcl(true);
      isInitialized := auxUlib;
      idList := new nat[MAX_THREAD_COUNT](_ => 0);
      infos := new ThreadInfo[MAX_THREAD_COUNT](_ => NO_THREAD);
      new;
      assert idList[..] == seq(MAX_THREAD_COUNT, _ => 0);
      assert infos[..] == seq(MAX_THREAD_COUNT, _ => NO_THREAD);
    }

    method LhSetGlobalInclusiveACL(threadIdList: array<nat>, threadCount: nat, caller: nat, listValid: bool)
      returns (status: Status)
      requires Valid() && threadIdList != globalAcl.entries && threadIdList != idList
      requires listValid ==> threadCount <= threadIdList.Length
      modifies globalAcl, globalAcl.entries, threadIdList
      ensures Valid() && status == AclStatus(threadCount, listValid)
      ensures State() == if status == STATUS_SUCCESS
                         then old(State()).(
                           globalAcl := Acl(false, WithCaller(old(threadIdList[..threadCount]), caller)))
                         else old(State())
    {
      status := LhSetACL(globalAcl, false, threadIdList, threadCount, caller, listValid);
    }

    method LhSetGlobalExclusiveACL(threadIdList: array<nat>, threadCount: nat, caller: nat, listValid: bool)
      returns (status: Status)
      requires Valid() && threadIdList != globalAcl.entries && threadIdList != idList
      requires listValid ==> threadCount <= threadIdList.Length
      modifies globalAcl, globalAcl.entries, threadIdList
      ensures Valid() && status == AclStatus(threadCount, listValid)
      ensures State() == if status == STATUS_SUCCESS
                         then old(State()).(
                           globalAcl := Acl(true, WithCaller(old(threadIdList[..threadCount]), caller)))
                         else old(State())
    {
      status := LhSetACL(globalAcl, true, threadIdList, threadCount, caller, listValid);
    }

    /** Reserves the first free cell. That the thread is not registered yet is asserted by the source. */
    method TlsAddCurrentThread(t: nat) returns (ok: bool)
      requires Valid() && t != 0 && t !in idList[..]
      modifies idList, infos
      ensures Valid() && AddThread(old(State()), t) == if ok then Some(State()) else None
      ensures !ok ==> State() == old(State())
    {
      var index, i := -1, 0;
      while i < idList.Length
        invariant 0 <= i <= idList.Length
        invariant -1 <= index < i && (index >= 0 ==> idList[index] == 0)
        invariant forall j | 0 <= j < (if index >= 0 then index else i) :: idList[j] != 0
      {
        if idList[i] == 0 && index == -1 {
          index := i;
        }
        i := i + 1;
      }
      ghost var before := State();
      if index == -1 {
        assert Find(before.ids, 0) == |before.ids|;
        return false;
      }
      assert Find(before.ids, 0) == index;
      assert !Registered(before, t);
      AddThreadKeeps(before, t);
      idList[index] := t;
      infos[index] := NO_THREAD;
      assert AddThread(before, t) == Some(State());
      return true;
    }

    /** The index of the caller's entry. */
    method TlsGetCurrentValue(t: nat) returns (ok: bool, index: nat)
      requires idList.Length == infos.Length
      ensures index == Find(idList[..], t) && (ok <==> index < idList.Length)
    {
      index := 0;
      while index < idList.Length
        invariant 0 <= index <= idList.Length
        invariant forall j | 0 <= j < index :: idList[j] != t
      {
        if idList[index] == t {
          assert Find(idList[..], t) == index;
          return true, index;
        }
        index := index + 1;
      }
      assert Find(idList[..], t) == |idList[..]|;
      return false, index;
    }

    /** Clears every cell that holds the caller. */
    method TlsRemoveCurrentThread(t: nat)
      requires Valid() && t != 0
      modifies idList, infos
      ensures Valid() && State() == RemoveThread(old(State()), t)
    {
      ghost var before := State();
      RemoveThreadKeeps(before, t);
      ghost var k := Find(before.ids, t);
      assert forall j | 0 <= j < |before.ids| && j != k :: before.ids[j] != t;
      var index := 0;
      while index < idList.Length
        invariant 0 <= index <= idList.Length
        invariant idList[..] == if k < index then before.ids[k := 0] else before.ids
        invariant infos[..] == if k < index then before.infos[k := NO_THREAD] else before.infos
      {
        if idList[index] == t {
          idList[index] := 0;
          infos[index] := NO_THREAD;
        }
        index := index + 1;
      }
    }

    method AcquireSelfProtection(t: nat) returns (ok: bool)
      requires Valid() && t != 0
      modifies infos
      ensures Valid() && (ok <==> Registered(old(State()), t) && !InfoOf(old(State()), t).isProtected)
      ensures State() == if ok then SetInfo(old(State()), t, InfoOf(old(State()), t).(isProtected := true))
                         else old(State())
    {
      var found, index := TlsGetCurrentValue(t);
      if !found || infos[index].isProtected {
        return false;
      }
      infos[index] := infos[index].(isProtected := true);
      return true;
    }

    /** That the caller owns the self protection is asserted by the source. */
    method ReleaseSelfProtection(t: nat)
      requires Valid() && t != 0 && Registered(State(), t) && InfoOf(State(), t).isProtected
      modifies infos
      ensures Valid() && State() == SetInfo(old(State()), t, InfoOf(old(State()), t).(isProtected := false))
    {
      var _, index := TlsGetCurrentValue(t);
      infos[index] := infos[index].(isProtected := false);
    }

    method IsThreadIntercepted(localAcl: HookAcl, threadId: nat, current: nat) returns (r: bool)
      requires globalAcl.Valid() && localAcl.Valid()
      ensures r == Intercepted(globalAcl.Value(), localAcl.Value(), if threadId == 0 then current else threadId)
    {
      var checkId := if threadId == 0 then current else threadId;
      var inGlobal := globalAcl.Contains(checkId);
      var inLocal := localAcl.Contains(checkId);
      if inGlobal {
        if inLocal {
          if localAcl.isExclusive {
            return false;
          }
        } else {
          if !localAcl.isExclusive {
            return false;
          }
        }
        return !globalAcl.isExclusive;
      } else {
        if inLocal {
          if localAcl.isExclusive {
            return false;
          }
        } else {
          if !localAcl.isExclusive {
            return false;
          }
        }
        return globalAcl.isExclusive;
      }
    }

    /** Intro from the runtime entry on, for a caller that holds the self protection and has its entries. */
    method EnterSlot(index: nat, t: nat, slot: nat, ident: nat, callback: nat, localAcl: HookAcl, retAddr: nat,
                     addrOfRetAddr: nat)
      returns (ok: bool)
      requires Valid() && localAcl.Valid() && index < infos.Length && t != 0
      requires infos[index].entries.Some? && slot < |infos[index].entries.value|
      modifies infos
      ensures var (r, info) := Negotiate(globalAcl.Value(), old(infos[index]), t,
                                         HookView(slot, ident, callback, localAcl.Value()), retAddr, addrOfRetAddr);
              ok == r && infos[..] == old(infos[..])[index := info]
    {
      var entries := infos[index].entries.value;
      ghost var start := entries;
      if entries[slot].hlsIdent != ident {
        entries := entries[slot := entries[slot].(hlsIdent := ident, isExecuting := false)];
        infos[index] := infos[index].(entries := Some(entries));
      }
      assert entries[slot := entries[slot]] == entries;
      if entries[slot].isExecuting {
        infos[index] := infos[index].(current := None, callback := 0, isProtected := false);
        return false;
      }
      infos[index] := infos[index].(callback := callback, current := Some(slot));
      var intercepted := IsThreadIntercepted(localAcl, t, t);
      entries := entries[slot := entries[slot].(isExecuting := intercepted)];
      infos[index] := infos[index].(entries := Some(entries));
      assert entries == start[slot := entries[slot]];
      if !intercepted {
        infos[index] := infos[index].(current := None, callback := 0, isProtected := false);
        return false;
      }
      entries := entries[slot := entries[slot].(retAddress := retAddr, addrOfRetAddr := addrOfRetAddr)];
      infos[index] := infos[index].(entries := Some(entries), isProtected := false);
      assert entries == start[slot := entries[slot]];
      return true;
    }

    /** The beginning of an intro: finds or makes the caller's entry and takes the self protection. */
    method OpenEntry(t: nat, granted: bool) returns (ok: bool, index: nat)
      requires Valid() && t != 0
      modifies idList, infos
      ensures Valid()
      ensures var u := old(State());
              if Registered(u, t) then
                && (ok <==> !InfoOf(u, t).isProtected)
                && State() == if ok then SetInfo(u, t, InfoOf(u, t).(isProtected := true)) else u
              else
                var added := AddThread(u, t);
                && (ok <==> added.Some? && granted)
                && (added.Some? ==> Registered(added.value, t))
                && State() == if added.None? then u else if !granted then added.value
                              else
                                SetInfo(added.value, t,
                                        NO_THREAD.(entries := Some(BlankEntries()), isProtected := true))
      ensures ok ==>
                && index < infos.Length && Find(State().ids, t) == index
                && infos[index] == if Registered(old(State()), t) then InfoOf(old(State()), t).(isProtected := true)
                                   else NO_THREAD.(entries := Some(BlankEntries()), isProtected := true)
    {
      var exists_;
      exists_, index := TlsGetCurrentValue(t);
      if exists_ {
        ok := AcquireSelfProtection(t);
      } else {
        ok, index := OpenNewEntry(t, granted);
      }
    }

    /** The same for a thread that is new to the table. */
    method OpenNewEntry(t: nat, granted: bool) returns (ok: bool, index: nat)
      requires Valid() && t != 0 && !Registered(State(), t)
      modifies idList, infos
      ensures Valid()
      ensures var added := AddThread(old(State()), t);
              && (ok <==> added.Some? && granted)
              && (added.Some? ==> Registered(added.value, t))
              && State() == if added.None? then old(State()) else if !granted then added.value
                            else
                              SetInfo(added.value, t,
                                      NO_THREAD.(entries := Some(BlankEntries()), isProtected := true))
      ensures ok ==>
                && index < infos.Length && Find(State().ids, t) == index
                && infos[index] == NO_THREAD.(entries := Some(BlankEntries()), isProtected := true)
    {
      hide BlankEntries;
      ghost var before := State();
      index := 0;
      var added := TlsAddCurrentThread(t);
      if !added {
        return false, index;
      }
      AddThreadKeeps(before, t);
      ghost var present := State();
      ok := AcquireSelfProtection(t);
      assert ok;
      var _, found := TlsGetCurrentValue(t);
      index := found;
      if !granted {
        infos[index] := infos[index].(current := None, callback := 0);
        ReleaseSelfProtection(t);
        assert infos[..] == present.infos;
        return false, index;
      }
      infos[index] := infos[index].(entries := Some(BlankEntries()));
      assert infos[..] == present.infos[index := NO_THREAD.(entries := Some(BlankEntries()), isProtected := true)];
      SetInfoKeeps(present, t, infos[index]);
    }

    /** `locked` and `granted` are the answers of the loader lock check and of the allocation. */
    method LhBarrierIntro(t: nat, slot: nat, ident: nat, callback: nat, localAcl: HookAcl, retAddr: nat,
                          addrOfRetAddr: nat, locked: bool, granted: bool)
      returns (ok: bool)
      requires Valid() && localAcl.Valid() && t != 0 && slot < MAX_HOOK_COUNT && HasEntries(State(), t)
      requires localAcl.entries != idList
      modifies idList, infos
      ensures Valid()
      ensures (ok, State()) == Intro(old(State()), t, HookView(slot, ident, callback, old(localAcl.Value())),
                                     retAddr, addrOfRetAddr, locked, granted)
    {
      hide Negotiate, AddThread;
      ghost var u := State();
      if locked || !isInitialized {
        return false;
      }
      var open, index := OpenEntry(t, granted);
      if !open {
        return false;
      }
      ghost var held, info := State(), infos[index];
      ok := EnterSlot(index, t, slot, ident, callback, localAcl, retAddr, addrOfRetAddr);
      SetInfoKeeps(held, t, infos[index]);
      assert State() == SetInfo(held, t, infos[index]);
      NegotiateProtected(u.globalAcl, info, t, HookView(slot, ident, callback, localAcl.Value()), retAddr,
                         addrOfRetAddr);
      if Registered(u, t) {
        SetInfoTwice(u, t, info, infos[index]);
      } else {
        AddThreadKeeps(u, t);
        SetInfoTwice(AddThread(u, t).value, t, info, infos[index]);
      }
    }

    /** The return address goes into the cell that the trampoline left empty. */
    method LhBarrierOutro(t: nat, slot: nat, ident: nat, callback: nat, localAcl: HookAcl, stack: array<nat>, at: nat)
      requires Valid() && localAcl.Valid() && t != 0 && at < stack.Length && stack[at] == 0
      requires OutroOk(State(), t, HookView(slot, ident, callback, localAcl.Value()))
      requires stack != idList && stack != globalAcl.entries
      modifies infos, stack
      ensures Valid()
      ensures var (address, u) := Outro(old(State()), t, HookView(slot, ident, callback, old(localAcl.Value())));
              State() == u && stack[..] == old(stack[..])[at := address]
    {
      ghost var before := State();
      var acquired := AcquireSelfProtection(t);
      var _, index := TlsGetCurrentValue(t);
      var runtime := infos[index].entries.value[slot];
      infos[index] := infos[index].(current := None, callback := 0);
      infos[index] := infos[index].(
        entries := Some(infos[index].entries.value[slot := runtime.(isExecuting := false)]));
      SetInfoKeeps(before, t, infos[index]);
      assert State() == SetInfo(before, t, infos[index]);
      stack[at] := runtime.retAddress;
      ReleaseSelfProtection(t);
      SetInfoKeeps(before, t, infos[index]);
    }

    method LhBarrierGetCallback(t: nat) returns (status: Status, value: nat)
      requires Valid()
      ensures status == if CallbackOf(State(), t).Some? then STATUS_SUCCESS else STATUS_NOT_SUPPORTED
      ensures CallbackOf(State(), t).Some? ==> CallbackOf(State(), t) == Some(value)
    {
      var found, index := TlsGetCurrentValue(t);
      if !found || infos[index].current.None? {
        return STATUS_NOT_SUPPORTED, 0;
      }
      return STATUS_SUCCESS, infos[index].callback;
    }

    /** Return address and its address, for LhBarrierGetReturnAddress and LhBarrierGetAddressOfReturnAddress. */
    method LhBarrierGetReturnAddress(t: nat) returns (status: Status, value: nat, address: nat)
      requires Valid()
      requires Registered(State(), t) && InfoOf(State(), t).current.Some? ==> CurrentEntry(State(), t).Some?
      ensures status == if CurrentEntry(State(), t).Some? then STATUS_SUCCESS else STATUS_NOT_SUPPORTED
      ensures CurrentEntry(State(), t).Some? ==>
                value == CurrentEntry(State(), t).value.retAddress
                && address == CurrentEntry(State(), t).value.addrOfRetAddr
    {
      var found, index := TlsGetCurrentValue(t);
      if !found || infos[index].current.None? {
        return STATUS_NOT_SUPPORTED, 0, 0;
      }
      var runtime := infos[index].entries.value[infos[index].current.value];
      return STATUS_SUCCESS, runtime.retAddress, runtime.addrOfRetAddr;
    }

    method LhBarrierThreadDetach(t: nat)
      requires Valid() && t != 0
      modifies idList, infos
      ensures Valid() && State() == Detach(old(State()), t)
    {
      var found, index := TlsGetCurrentValue(t);
      ghost var before := State();
      if found {
        infos[index] := infos[index].(entries := None);
        SetInfoKeeps(before, t, infos[index]);
        assert State() == SetInfo(before, t, infos[index]);
      }
      TlsRemoveCurrentThread(t);
      if found {
        assert infos[..] == before.infos[index := NO_THREAD];
      }
    }
  }
}
