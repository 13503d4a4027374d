/** The thread deadlock barrier (barrier.c) and the access control lists (acl.c) as functions on the state of
  * BARRIER_UNIT. */
module Barrier {
  import opened Limits
  import opened Words

  /** RUNTIME_INFO: what one thread knows about one slot. */
  datatype RuntimeInfo = RuntimeInfo(isExecuting: bool, hlsIdent: nat, retAddress: nat, addrOfRetAddr: nat)

  /** THREAD_RUNTIME_INFO. `current` is the index of the entry that Current points to. */
  datatype ThreadInfo = ThreadInfo(
    entries: Option<seq<RuntimeInfo>>, current: Option<nat>, callback: nat, isProtected: bool)

  /** HOOK_ACL with the Count entries that are in use. */
  datatype Acl = Acl(isExclusive: bool, entries: seq<nat>)

  /** What the barrier reads of a hook. */
  datatype HookView = HookView(slot: nat, ident: nat, callback: nat, acl: Acl)

  /** BARRIER_UNIT: a free cell of IdList holds 0. */
  datatype Unit = Unit(globalAcl: Acl, isInitialized: bool, ids: seq<nat>, infos: seq<ThreadInfo>)

  const NO_RUNTIME := RuntimeInfo(false, 0, 0, 0)
  const NO_THREAD := ThreadInfo(None, None, 0, false)

  function BlankEntries(): (e: seq<RuntimeInfo>)
    ensures |e| == MAX_HOOK_COUNT && forall i | 0 <= i < |e| :: e[i] == NO_RUNTIME
  {
    seq(MAX_HOOK_COUNT, _ => NO_RUNTIME)
  }

  // ---------- access control ----------

  /** IsThreadIntercepted. */
  function Intercepted(global: Acl, local: Acl, thread: nat): (r: bool) {
    if thread in global.entries then
      (if thread in local.entries then !local.isExclusive else local.isExclusive) && !global.isExclusive
    else
      (if thread in local.entries then !local.isExclusive else local.isExclusive) && global.isExclusive
  }

  /** A list admits the threads it names if it is inclusive and all others if it is exclusive. */
  predicate Admits(acl: Acl, thread: nat) {
    (thread in acl.entries) != acl.isExclusive
  }

  /** A thread is intercepted if and only if both lists admit it. */
  lemma InterceptedIff(global: Acl, local: Acl, thread: nat)
    ensures Intercepted(global, local, thread) <==> Admits(global, thread) && Admits(local, thread)
  {
  }

  /** Two inclusive lists with different threads: neither thread is intercepted, not even that of the global list. */
  lemma GlobalListIsNotEnough(a: nat, b: nat)
    requires a != b
    ensures !Intercepted(Acl(false, [a]), Acl(false, [b]), a) && !Intercepted(Acl(false, [a]), Acl(false, [b]), b)
  {
  }

  /** LhSetACL: a zero stands for the calling thread; the old entries are gone. */
  function WithCaller(ids: seq<nat>, caller: nat): (r: seq<nat>)
    ensures |r| == |ids|
    ensures forall i | 0 <= i < |ids| :: r[i] == if ids[i] == 0 then caller else ids[i]
  {
    seq(|ids|, i requires 0 <= i < |ids| => if ids[i] == 0 then caller else ids[i])
  }

  /** After a list was set, a thread is named if it was listed, or listed as zero by itself. */
  lemma AdmitsAfterSet(isExclusive: bool, ids: seq<nat>, caller: nat, thread: nat)
    requires thread != 0
    ensures Admits(Acl(isExclusive, WithCaller(ids, caller)), thread)
       <==> (thread in ids || (thread == caller && 0 in ids)) != isExclusive
  {
    var named := WithCaller(ids, caller);
    if i :| 0 <= i < |ids| && (ids[i] == thread || (ids[i] == 0 && thread == caller)) {
      assert named[i] == thread;
    }
    if thread in named {
      var i :| 0 <= i < |named| && named[i] == thread;
      assert ids[i] == 0 || ids[i] == thread;
    }
  }

  // ---------- the thread table ----------

  /** The first cell holding a value; |ids| if there is none. */
  function Find(ids: seq<nat>, x: nat): (i: nat)
    ensures i <= |ids| && (i < |ids| ==> ids[i] == x)
    ensures forall j | 0 <= j < i :: ids[j] != x
  {
    if ids == [] then 0 else if ids[0] == x then 0 else 1 + Find(ids[1..], x)
  }

  /** Thread ids occur once; the tables have their fixed sizes. */
  ghost predicate TableOk(u: Unit) {
    && |u.ids| == |u.infos| == MAX_THREAD_COUNT
    && forall i, j | 0 <= i < j < |u.ids| && u.ids[i] != 0 :: u.ids[i] != u.ids[j]
  }

  predicate Registered(u: Unit, t: nat) {
    Find(u.ids, t) < |u.ids|
  }

  /** The thread's entry. */
  function InfoOf(u: Unit, t: nat): (i: ThreadInfo)
    requires |u.infos| == |u.ids| && Registered(u, t)
  {
    u.infos[Find(u.ids, t)]
  }

  function SetInfo(u: Unit, t: nat, info: ThreadInfo): (r: Unit)
    requires |u.infos| == |u.ids| && Registered(u, t)
  {
    u.(infos := u.infos[Find(u.ids, t) := info])
  }

  /** TlsAddCurrentThread: the first free cell, or nothing if the table is full. */
  function AddThread(u: Unit, t: nat): (r: Option<Unit>)
    requires |u.infos| == |u.ids|
  {
    var i := Find(u.ids, 0);
    if i == |u.ids| then None else Some(u.(ids := u.ids[i := t], infos := u.infos[i := NO_THREAD]))
  }

  /** TlsRemoveCurrentThread. */
  function RemoveThread(u: Unit, t: nat): (r: Unit)
    requires TableOk(u)
  {
    if !Registered(u, t) then u
    else
      var i := Find(u.ids, t);
      u.(ids := u.ids[i := 0], infos := u.infos[i := NO_THREAD])
  }

  // ---------- intro and outro ----------

  /** The branch DONT_INTERCEPT. */
  function Declined(info: ThreadInfo): (r: ThreadInfo) {
    info.(current := None, callback := 0, isProtected := false)
  }

  /** The rest of LhBarrierIntro for a thread that has its entries and holds the self protection. */
  function Negotiate(global: Acl, info: ThreadInfo, t: nat, hook: HookView, retAddr: nat, addrOfRetAddr: nat)
    : (r: (bool, ThreadInfo))
    requires info.entries.Some? && hook.slot < |info.entries.value|
  {
    var entries := info.entries.value;
    var runtime := entries[hook.slot];
    var fresh_ := if runtime.hlsIdent != hook.ident then runtime.(hlsIdent := hook.ident, isExecuting := false)
                  else runtime;
    if fresh_.isExecuting then (false, Declined(info.(entries := Some(entries[hook.slot := fresh_]))))
    else if !Intercepted(global, hook.acl, t) then
      (false, Declined(info.(entries := Some(entries[hook.slot := fresh_]))))
    else
      var saved := fresh_.(isExecuting := true, retAddress := retAddr, addrOfRetAddr := addrOfRetAddr);
      (true, info.(entries := Some(entries[hook.slot := saved]), current := Some(hook.slot), callback := hook.callback,
                   isProtected := false))
  }

  /** A registered thread without entries, left behind by a failed allocation, makes the next intro fault. */
  predicate HasEntries(u: Unit, t: nat)
    requires |u.infos| == |u.ids|
  {
    Registered(u, t) ==>
      InfoOf(u, t).entries.Some? && |InfoOf(u, t).entries.value| == MAX_HOOK_COUNT
  }

  /** LhBarrierIntro of thread `t`; `locked` says that IsLoaderLock finds the loader lock held. */
  function Intro(u: Unit, t: nat, hook: HookView, retAddr: nat, addrOfRetAddr: nat, locked: bool, granted: bool)
    : (r: (bool, Unit))
    requires TableOk(u) && t != 0 && hook.slot < MAX_HOOK_COUNT && HasEntries(u, t)
  {
    if locked || !u.isInitialized then (false, u)
    else if Registered(u, t) then
      var info := InfoOf(u, t);
      if info.isProtected then (false, u)
      else
        var (ok, next) := Negotiate(u.globalAcl, info, t, hook, retAddr, addrOfRetAddr);
        (ok, SetInfo(u, t, next))
    else
      match AddThread(u, t)
      case None => (false, u)
      case Some(added) =>
        AddedRegistered(u, t);
        if !granted then (false, added)
        else
          var info := NO_THREAD.(entries := Some(BlankEntries()));
          var (ok, next) := Negotiate(u.globalAcl, info, t, hook, retAddr, addrOfRetAddr);
          (ok, SetInfo(added, t, next))
  }

  // ---------- the intro in two parts ----------

  /** The intro up to the self protection: whether the thread got it, and the table with the thread in it. */
  function Open(u: Unit, t: nat, locked: bool): (r: (bool, Unit))
    requires TableOk(u) && t != 0
  {
    if locked || !u.isInitialized then (false, u)
    else if Registered(u, t) then
      var info := InfoOf(u, t);
      if info.isProtected then (false, u) else (true, SetInfo(u, t, info.(isProtected := true)))
    else
      match AddThread(u, t)
      case None => (false, u)
      case Some(added) =>
        AddedRegistered(u, t);
        (true, SetInfo(added, t, NO_THREAD.(isProtected := true)))
  }

  /** The rest, which ends by giving the protection back. A thread that is new to the table needs its entries first. */
  function Decide(u: Unit, t: nat, new_: bool, hook: HookView, retAddr: nat, addrOfRetAddr: nat, granted: bool)
    : (r: (bool, Unit))
    requires TableOk(u) && Registered(u, t) && hook.slot < MAX_HOOK_COUNT && (!new_ ==> HasEntries(u, t))
  {
    var info := InfoOf(u, t);
    if new_ && !granted then (false, SetInfo(u, t, Declined(info)))
    else
      var ready := if new_ then info.(entries := Some(BlankEntries())) else info;
      var (ok, next) := Negotiate(u.globalAcl, ready, t, hook, retAddr, addrOfRetAddr);
      (ok, SetInfo(u, t, next))
  }

  /** Undisturbed, the two parts make up the intro. */
  lemma IntroSplits(u: Unit, t: nat, hook: HookView, retAddr: nat, addrOfRetAddr: nat, locked: bool, granted: bool)
    requires TableOk(u) && t != 0 && hook.slot < MAX_HOOK_COUNT && HasEntries(u, t)
    ensures var (open, v) := Open(u, t, locked);
            && TableOk(v) && (open ==> Registered(v, t) && (Registered(u, t) ==> HasEntries(v, t)))
            && Intro(u, t, hook, retAddr, addrOfRetAddr, locked, granted) ==
                 if open then Decide(v, t, !Registered(u, t), hook, retAddr, addrOfRetAddr, granted) else (false, v)
  {
    hide Negotiate, AddThread;
    if !locked && u.isInitialized {
      if Registered(u, t) {
        var held := InfoOf(u, t).(isProtected := true);
        SetInfoKeeps(u, t, held);
        NegotiateProtected(u.globalAcl, held, t, hook, retAddr, addrOfRetAddr);
        SetInfoTwice(u, t, held, Negotiate(u.globalAcl, held, t, hook, retAddr, addrOfRetAddr).1);
      } else if AddThread(u, t).Some? {
        NewThreadSplits(u, t, hook, retAddr, addrOfRetAddr, granted);
      }
    }
  }

  lemma NewThreadSplits(u: Unit, t: nat, hook: HookView, retAddr: nat, addrOfRetAddr: nat, granted: bool)
    requires TableOk(u) && t != 0 && hook.slot < MAX_HOOK_COUNT && !Registered(u, t) && AddThread(u, t).Some?
    requires u.isInitialized
    ensures var (open, v) := Open(u, t, false);
            && open && TableOk(v) && Registered(v, t)
            && Intro(u, t, hook, retAddr, addrOfRetAddr, false, granted) ==
                 Decide(v, t, true, hook, retAddr, addrOfRetAddr, granted)
  {
    hide Negotiate, AddThread;
    AddThreadKeeps(u, t);
    var added := AddThread(u, t).value;
    var held := NO_THREAD.(isProtected := true);
    SetInfoKeeps(added, t, held);
    var ready := held.(entries := Some(BlankEntries()));
    NegotiateProtected(u.globalAcl, ready, t, hook, retAddr, addrOfRetAddr);
    SetInfoTwice(added, t, held, Negotiate(u.globalAcl, ready, t, hook, retAddr, addrOfRetAddr).1);
    SetInfoTwice(added, t, held, NO_THREAD);
    assert SetInfo(added, t, NO_THREAD) == added by {
      assert added.infos[Find(added.ids, t) := NO_THREAD] == added.infos;
    }
    assert Declined(held) == NO_THREAD && NO_THREAD.(entries := Some(BlankEntries())) == ready.(isProtected := false);
  }

  /** Whether the self protection is held does not matter for the negotiation, which gives it back. */
  lemma NegotiateProtected(global: Acl, info: ThreadInfo, t: nat, hook: HookView, retAddr: nat, addrOfRetAddr: nat)
    requires info.entries.Some? && hook.slot < |info.entries.value|
    ensures Negotiate(global, info.(isProtected := false), t, hook, retAddr, addrOfRetAddr) ==
              Negotiate(global, info, t, hook, retAddr, addrOfRetAddr)
  {
  }

  lemma AddedRegistered(u: Unit, t: nat)
    requires TableOk(u) && t != 0 && !Registered(u, t) && AddThread(u, t).Some?
    ensures var r := AddThread(u, t).value;
            TableOk(r) && Registered(r, t) && Find(r.ids, t) == Find(u.ids, 0) && InfoOf(r, t) == NO_THREAD
  {
    var r := AddThread(u, t).value;
    var i := Find(u.ids, 0);
    assert r.ids[i] == t;
    assert forall j | 0 <= j < |u.ids| :: u.ids[j] != t;
  }

  /** What LhBarrierOutro asserts. */
  predicate OutroOk(u: Unit, t: nat, hook: HookView)
    requires |u.infos| == |u.ids|
  {
    && Registered(u, t) && !InfoOf(u, t).isProtected && InfoOf(u, t).entries.Some?
    && hook.slot < |InfoOf(u, t).entries.value| && InfoOf(u, t).entries.value[hook.slot].isExecuting
  }

  /** LhBarrierOutro: the address to return to and the new state. */
  function Outro(u: Unit, t: nat, hook: HookView): (r: (nat, Unit))
    requires TableOk(u) && OutroOk(u, t, hook)
  {
    var info := InfoOf(u, t);
    var runtime := info.entries.value[hook.slot];
    (runtime.retAddress,
     SetInfo(u, t, info.(current := None, callback := 0,
                         entries := Some(info.entries.value[hook.slot := runtime.(isExecuting := false)]))))
  }

  /** LhBarrierGetCallback: only while Current is set. */
  function CallbackOf(u: Unit, t: nat): (r: Option<nat>)
    requires |u.infos| == |u.ids|
  {
    if Registered(u, t) && InfoOf(u, t).current.Some? then Some(InfoOf(u, t).callback) else None
  }

  /** The runtime entry that Current points to, which the queries for the return address look into. */
  function CurrentEntry(u: Unit, t: nat): (r: Option<RuntimeInfo>)
    requires |u.infos| == |u.ids|
  {
    if !Registered(u, t) then None
    else
      var info := InfoOf(u, t);
      if info.current.Some? && info.entries.Some? && info.current.value < |info.entries.value|
      then Some(info.entries.value[info.current.value]) else None
  }

  /** LhBarrierThreadDetach. */
  function Detach(u: Unit, t: nat): (r: Unit)
    requires TableOk(u)
  {
    RemoveThread(u, t)
  }

  // ---------- the table under the operations ----------

  /** Threads do not touch one another's entries. */
  ghost predicate OthersKept(u: Unit, r: Unit, t: nat) {
    |u.infos| == |u.ids| && |r.infos| == |r.ids| &&
    forall other | other != t && other != 0 ::
      Registered(u, other) == Registered(r, other) && (Registered(u, other) ==> InfoOf(u, other) == InfoOf(r, other))
  }

  /** A cell that neither holds nor receives a value does not affect the search for it. */
  lemma {:induction false} FindUpdate(ids: seq<nat>, i: nat, v: nat, x: nat)
    requires i < |ids| && ids[i] != x && v != x
    ensures Find(ids[i := v], x) == Find(ids, x)
  {
    if ids[0] != x && i > 0 {
      assert ids[i := v][1..] == ids[1..][i - 1 := v];
      FindUpdate(ids[1..], i - 1, v, x);
    } else if i == 0 {
      assert ids[i := v][1..] == ids[1..];
    }
  }

  lemma SetInfoKeeps(u: Unit, t: nat, info: ThreadInfo)
    requires TableOk(u) && t != 0 && Registered(u, t)
    ensures var r := SetInfo(u, t, info);
            TableOk(r) && Registered(r, t) && InfoOf(r, t) == info && OthersKept(u, r, t)
  {
  }

  lemma SetInfoTwice(u: Unit, t: nat, x: ThreadInfo, y: ThreadInfo)
    requires TableOk(u) && t != 0 && Registered(u, t)
    ensures SetInfo(SetInfo(u, t, x), t, y) == SetInfo(u, t, y)
  {
  }

  lemma AddThreadKeeps(u: Unit, t: nat)
    requires TableOk(u) && t != 0 && !Registered(u, t) && AddThread(u, t).Some?
    ensures var r := AddThread(u, t).value;
            && TableOk(r) && Registered(r, t) && InfoOf(r, t) == NO_THREAD && OthersKept(u, r, t)
            && r.globalAcl == u.globalAcl && r.isInitialized == u.isInitialized
  {
    AddedRegistered(u, t);
    var i := Find(u.ids, 0);
    forall other | other != t && other != 0 ensures Find(AddThread(u, t).value.ids, other) == Find(u.ids, other) {
      FindUpdate(u.ids, i, t, other);
    }
  }

  /** A thread finds no cell if and only if all 128 are taken. */
  lemma TableIsFullIff(u: Unit, t: nat)
    requires TableOk(u)
    ensures |u.ids| == 128
    ensures AddThread(u, t).None? <==> forall i | 0 <= i < 128 :: u.ids[i] != 0
  {
  }

  lemma RemoveThreadKeeps(u: Unit, t: nat)
    requires TableOk(u) && t != 0
    ensures var r := RemoveThread(u, t);
            TableOk(r) && !Registered(r, t) && OthersKept(u, r, t)
  {
    if Registered(u, t) {
      var i := Find(u.ids, t);
      assert forall j | 0 <= j < |u.ids| && j != i :: u.ids[j] != u.ids[i];
      forall other | other != t && other != 0 ensures Find(u.ids[i := 0], other) == Find(u.ids, other) {
        FindUpdate(u.ids, i, 0, other);
      }
    }
  }
}
