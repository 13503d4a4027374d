/** The life of hooks (install.c, uninstall.c) as functions on states: which hooks are in which list, which slots they
  * hold and which bytes stand at their targets. `K` is the type of trace handles. */
module HookLifecycle {
  import opened Words
  import opened CodeMemory
  import opened Limits
  import opened RipRelocation

  const FIRST_IDENT: nat := 0x10000000
  const PATCH: nat := 8
  const TIMEOUT: int := 1000
  const SLEEP: int := 25

  /** The part of LOCAL_HOOK_INFO that the life cycle and the barrier work with. */
  datatype Hook<K> = Hook(
    target: nat, backup: seq<byte>, copy: seq<byte>, proc: nat, callback: nat, slot: nat, tracking: K)
  {
    /** HookProc is not NULL. */
    predicate armed() { proc != 0 }
  }

  /** Memory of the hooked process, the two lists with their heads first, GlobalSlotList, UniqueIDCounter, the hook
    * records that are allocated, by ident, and the handles whose Link is set. */
  datatype HookState<K(==)> = HookState(
    mem: seq<byte>, live: seq<nat>, removal: seq<nat>, slots: seq<nat>, counter: nat,
    hooks: map<nat, Hook<K>>, links: map<K, nat>)

  /** LhCriticalInitialize over zeroed static data: nothing is hooked. */
  function Initial<K>(mem: seq<byte>): (s: HookState<K>) {
    HookState(mem, [], [], seq(MAX_HOOK_COUNT, _ => 0), FIRST_IDENT, map[], map[])
  }

  function Bytes(mem: seq<byte>, target: nat): (w: seq<byte>)
    requires target + PATCH <= |mem|
    ensures |w| == PATCH
  {
    mem[target..target + PATCH]
  }

  // ---------- install ----------

  /** The first free slot; |slots| if there is none. */
  function FreeSlot(slots: seq<nat>): (i: nat)
    ensures i <= |slots| && (i < |slots| ==> slots[i] == 0)
    ensures forall j | 0 <= j < i :: slots[j] != 0
  {
    if slots == [] then 0 else if slots[0] == 0 then 0 else 1 + FreeSlot(slots[1..])
  }

  /** What an install finds out before it touches shared state: LhAllocateHook failed, the trampoline is out of reach,
    * or the five bytes of the jump to it, for a hook procedure and its callback. */
  datatype Preparation = Refused(status: Status) | Ready(jump: seq<byte>, proc: nat, callback: nat)
  {
    predicate Ok() { if Ready? then |jump| == 5 && proc != 0 else status != STATUS_SUCCESS }
  }

  function InstallStatus<K>(s: HookState<K>, handle: K, p: Preparation): (r: Status) {
    if handle in s.links then STATUS_INVALID_PARAMETER_4
    else if p.Refused? then p.status
    else if FreeSlot(s.slots) == |s.slots| then STATUS_INSUFFICIENT_RESOURCES
    else STATUS_SUCCESS
  }

  /** LhInstallHook. A full slot table still uses up an ident. */
  function Install<K>(s: HookState<K>, handle: K, target: nat, p: Preparation): (r: HookState<K>)
    requires target + PATCH <= |s.mem| && p.Ok()
  {
    if handle in s.links || p.Refused? then s
    else
      var counted := s.(counter := (s.counter + 1) % TWO_32);
      var i := FreeSlot(s.slots);
      if i == |s.slots| then counted
      else
        var backup := Bytes(s.mem, target);
        var copy := p.jump + backup[5..];
        counted.(
          mem := Overwrite(s.mem, target, copy),
          live := [s.counter] + s.live,
          slots := s.slots[i := s.counter],
          hooks := s.hooks[s.counter := Hook(target, backup, copy, p.proc, p.callback, i, handle)],
          links := s.links[handle := s.counter])
  }

  /** What an install with a free handle changes. */
  lemma InstallFields<K>(s: HookState<K>, handle: K, target: nat, p: Preparation)
    requires handle !in s.links && target + PATCH <= |s.mem| && p.Ready? && p.Ok()
    ensures var r := Install(s, handle, target, p);
            var i := FreeSlot(s.slots);
            var copy := p.jump + Bytes(s.mem, target)[5..];
            && r.counter == (s.counter + 1) % TWO_32 && r.removal == s.removal
            && (i == |s.slots| ==> r == s.(counter := r.counter))
            && (i < |s.slots| ==>
                  && r.mem == Overwrite(s.mem, target, copy) && r.slots == s.slots[i := s.counter]
                  && r.live == [s.counter] + s.live && r.links == s.links[handle := s.counter]
                  && r.hooks == s.hooks[s.counter :=
                       Hook(target, Bytes(s.mem, target), copy, p.proc, p.callback, i, handle)])
  {
  }

  // ---------- uninstall ----------

  /** What is left of the global list: the hook's successors, because the search never moves Prev off the head. */
  function Successors(live: seq<nat>, ident: nat): (r: seq<nat>) {
    if ident !in live then live
    else if live[0] == ident then live[1..]
    else Successors(live[1..], ident)
  }

  /** LhUninstallHook. */
  function Uninstall<K>(s: HookState<K>, handle: K): (r: HookState<K>) {
    if handle !in s.links then s
    else
      var ident := s.links[handle];
      if ident !in s.hooks || !s.hooks[ident].armed() then s
      else
        s.(links := s.links - {handle},
           hooks := s.hooks[ident := s.hooks[ident].(proc := 0)],
           live := Successors(s.live, ident),
           removal := [ident] + s.removal)
  }

  function Reverse(xs: seq<nat>): (r: seq<nat>)
    ensures |r| == |xs|
    ensures forall k | 0 <= k < |xs| :: r[k] == xs[|xs| - 1 - k]
  {
    if xs == [] then [] else Reverse(xs[1..]) + [xs[0]]
  }

  /** One round of LhUninstallAllHooks. */
  function Retire<K>(s: HookState<K>, ident: nat): (r: HookState<K>)
    requires ident in s.hooks
  {
    var h := s.hooks[ident];
    s.(links := if h.tracking in s.links && s.links[h.tracking] in s.hooks && s.hooks[s.links[h.tracking]].armed()
                then s.links - {h.tracking} else s.links,
       hooks := s.hooks[ident := h.(proc := 0)],
       removal := [ident] + s.removal)
  }

  /** LhUninstallAllHooks: every hook of the global list goes to the front of the removal list, one after the other. */
  function UninstallAll<K>(s: HookState<K>): (r: HookState<K>)
    requires forall ident | ident in s.live :: ident in s.hooks
    decreases |s.live|
  {
    if s.live == [] then s
    else UninstallAll(Retire(s, s.live[0]).(live := s.live[1..]))
  }

  // ---------- waiting for removal ----------

  /** Whether a thread is inside the handler of a hook after so many sleeps. */
  type Executing = (nat, nat) -> bool

  /** State, remaining timeout and sleeps so far; whether some hook timed out. */
  datatype Waiting<K> = Waiting(s: HookState<K>, timeout: int, sleeps: nat, timedOut: bool)

  function Restore<K>(s: HookState<K>, ident: nat): (r: HookState<K>)
    requires ident in s.hooks && s.hooks[ident].target + PATCH <= |s.mem| && |s.hooks[ident].backup| == PATCH
  {
    s.(mem := Overwrite(s.mem, s.hooks[ident].target, s.hooks[ident].backup))
  }

  /** Frees a hook and the slot, if the slot is still its own. */
  function Release<K>(s: HookState<K>, ident: nat): (r: HookState<K>)
    requires ident in s.hooks && s.hooks[ident].slot < |s.slots|
  {
    var i := s.hooks[ident].slot;
    s.(slots := if s.slots[i] == ident then s.slots[i := 0] else s.slots, hooks := s.hooks - {ident})
  }

  /** The inner loop: waits until no thread is inside or the timeout is used up. */
  function WaitFor<K>(w: Waiting<K>, ident: nat, executing: Executing): (r: Waiting<K>)
    requires ident in w.s.hooks && w.s.hooks[ident].slot < |w.s.slots|
    decreases w.timeout
  {
    if !executing(ident, w.sleeps) then w.(s := Release(w.s, ident))
    else if w.timeout <= 0 then w.(timedOut := true)
    else WaitFor(w.(timeout := w.timeout - SLEEP, sleeps := w.sleeps + 1), ident, executing)
  }

  /** One popped hook: restored and released if its bytes are still in place, otherwise left alone. */
  function RemoveOne<K>(w: Waiting<K>, executing: Executing): (r: Waiting<K>)
    requires Shape(w.s) && w.s.removal != []
  {
    var ident := w.s.removal[0];
    var popped := w.(s := w.s.(removal := w.s.removal[1..]));
    var h := w.s.hooks[ident];
    if Bytes(w.s.mem, h.target) != h.copy then popped
    else WaitFor(popped.(s := Restore(popped.s, ident)), ident, executing)
  }

  /** LhWaitForPendingRemovals, without other threads installing or uninstalling meanwhile. */
  function WaitForRemovals<K>(w: Waiting<K>, executing: Executing): (r: Waiting<K>)
    requires Shape(w.s)
    decreases |w.s.removal|
  {
    if w.s.removal == [] then w
    else
      RemoveOneShape(w, executing);
      WaitForRemovals(RemoveOne(w, executing), executing)
  }

  function StartWait<K>(s: HookState<K>): (w: Waiting<K>) {
    Waiting(s, TIMEOUT, 0, false)
  }

  // ---------- invariant ----------

  ghost predicate Distinct<T>(xs: seq<T>) {
    forall i, j | 0 <= i < j < |xs| :: xs[i] != xs[j]
  }

  /** Slot numbers and patched windows are in range. */
  ghost predicate InRange<K>(s: HookState<K>) {
    forall ident | ident in s.hooks ::
      var h := s.hooks[ident];
      h.slot < |s.slots| && h.target + PATCH <= |s.mem| && |h.backup| == PATCH && |h.copy| == PATCH
  }

  /** The lists are free of repetition, disjoint, and reach allocated hooks only. */
  ghost predicate ListsShaped<K>(s: HookState<K>) {
    && Distinct(s.live) && Distinct(s.removal)
    && (forall ident | ident in s.live :: ident !in s.removal && ident in s.hooks && s.hooks[ident].armed())
    && (forall ident | ident in s.removal :: ident in s.hooks && !s.hooks[ident].armed())
  }

  /** Nonzero slots and allocated hooks, whether live, pending, dropped or leaked, correspond one to one. */
  ghost predicate SlotsMatch<K>(s: HookState<K>) {
    && |s.slots| == MAX_HOOK_COUNT
    && (forall i | 0 <= i < |s.slots| && s.slots[i] != 0 :: s.slots[i] in s.hooks && s.hooks[s.slots[i]].slot == i)
    && (forall ident | ident in s.hooks :: s.hooks[ident].slot < |s.slots| && s.slots[s.hooks[ident].slot] == ident)
  }

  /** A set handle and an armed hook name each other. */
  ghost predicate LinksMatch<K>(s: HookState<K>) {
    && (forall h | h in s.links ::
          s.links[h] in s.hooks && s.hooks[s.links[h]].armed() && s.hooks[s.links[h]].tracking == h)
    && (forall ident | ident in s.hooks && s.hooks[ident].armed() ::
          s.hooks[ident].tracking in s.links && s.links[s.hooks[ident].tracking] == ident)
  }

  ghost predicate Shape<K>(s: HookState<K>) {
    InRange(s) && ListsShaped(s) && SlotsMatch(s) && LinksMatch(s)
  }

  /** All idents in use were handed out before, and none is zero. */
  ghost predicate Numbered<K>(s: HookState<K>) {
    FIRST_IDENT <= s.counter && forall ident | ident in s.hooks :: FIRST_IDENT <= ident < s.counter
  }

  // ---------- every operation keeps it ----------

  lemma InitialShape<K>(mem: seq<byte>)
    ensures Shape(Initial<K>(mem)) && Numbered(Initial<K>(mem))
  {
  }

  lemma InstallShape<K>(s: HookState<K>, handle: K, target: nat, p: Preparation)
    requires Shape(s) && Numbered(s) && s.counter + 1 < TWO_32 && target + PATCH <= |s.mem|
    requires p.Ok()
    ensures Shape(Install(s, handle, target, p)) && Numbered(Install(s, handle, target, p))
  {
    hide SlotsMatch, LinksMatch, ListsShaped, InRange;
    if InstallStatus(s, handle, p) == STATUS_SUCCESS {
      InstallLists(s, handle, target, p);
      InstallSlots(s, handle, target, p);
      InstallLinks(s, handle, target, p);
    } else {
      CounterIrrelevant(s, (s.counter + 1) % TWO_32);
    }
  }

  lemma CounterIrrelevant<K>(s: HookState<K>, counter: nat)
    requires Shape(s)
    ensures Shape(s.(counter := counter))
  {
  }

  lemma InstallLists<K>(s: HookState<K>, handle: K, target: nat, p: Preparation)
    requires Shape(s) && Numbered(s) && s.counter + 1 < TWO_32 && target + PATCH <= |s.mem|
    requires p.Ready? && p.Ok() && InstallStatus(s, handle, p) == STATUS_SUCCESS
    ensures ListsShaped(Install(s, handle, target, p)) && InRange(Install(s, handle, target, p))
  {
    hide SlotsMatch, LinksMatch;
    assert s.counter !in s.live && s.counter !in s.removal;
  }

  lemma InstallSlots<K>(s: HookState<K>, handle: K, target: nat, p: Preparation)
    requires Shape(s) && Numbered(s) && s.counter + 1 < TWO_32 && target + PATCH <= |s.mem|
    requires p.Ready? && p.Ok() && InstallStatus(s, handle, p) == STATUS_SUCCESS
    ensures SlotsMatch(Install(s, handle, target, p))
  {
    hide ListsShaped, LinksMatch;
  }

  lemma InstallLinks<K>(s: HookState<K>, handle: K, target: nat, p: Preparation)
    requires Shape(s) && Numbered(s) && s.counter + 1 < TWO_32 && target + PATCH <= |s.mem|
    requires p.Ready? && p.Ok() && InstallStatus(s, handle, p) == STATUS_SUCCESS
    ensures LinksMatch(Install(s, handle, target, p))
  {
    hide ListsShaped, SlotsMatch;
  }

  lemma {:induction false} AfterIsSuffix(live: seq<nat>, ident: nat) returns (k: nat)
    requires Distinct(live)
    ensures ident in live ==> 1 <= k <= |live| && live[k - 1] == ident && Successors(live, ident) == live[k..]
    ensures ident !in live ==> Successors(live, ident) == live
  {
    k := 0;
    if ident in live {
      if live[0] == ident {
        k := 1;
      } else {
        k := AfterIsSuffix(live[1..], ident);
        assert ident in live[1..];
        k := k + 1;
      }
    }
  }

  lemma UninstallShape<K>(s: HookState<K>, handle: K)
    requires Shape(s)
    ensures Shape(Uninstall(s, handle))
    ensures Numbered(s) ==> Numbered(Uninstall(s, handle))
  {
    if handle in s.links {
      var ident := s.links[handle];
      var r := Uninstall(s, handle);
      var k := AfterIsSuffix(s.live, ident);
      assert ident !in s.removal;
      if ident in s.live {
        assert forall x | x in r.live :: x in s.live;
        assert ident !in r.live;
      }
      UninstallLinks(s, handle);
      hide LinksMatch;
      assert ListsShaped(r);
    }
  }

  lemma UninstallLinks<K>(s: HookState<K>, handle: K)
    requires LinksMatch(s)
    ensures LinksMatch(Uninstall(s, handle))
  {
    hide Successors;
  }

  lemma RetireShape<K>(s: HookState<K>)
    requires Shape(s) && s.live != []
    ensures var r := Retire(s, s.live[0]).(live := s.live[1..]);
            Shape(r) && (Numbered(s) ==> Numbered(r)) && r.links == s.links - {s.hooks[s.live[0]].tracking}
  {
    var ident := s.live[0];
    var r := Retire(s, ident).(live := s.live[1..]);
    assert ident in s.live && ident !in s.removal && ident !in r.live;
    assert ListsShaped(r);
    assert LinksMatch(r);
  }

  lemma {:induction false} UninstallAllShape<K>(s: HookState<K>)
    requires Shape(s)
    ensures Shape(UninstallAll(s)) && (Numbered(s) ==> Numbered(UninstallAll(s)))
    decreases |s.live|
  {
    if s.live != [] {
      RetireShape(s);
      UninstallAllShape(Retire(s, s.live[0]).(live := s.live[1..]));
    }
  }

  lemma ReleaseShape<K>(s: HookState<K>, ident: nat)
    requires Shape(s) && ident in s.hooks && !s.hooks[ident].armed() && ident !in s.removal
    ensures Shape(Release(s, ident)) && (Numbered(s) ==> Numbered(Release(s, ident)))
    ensures Release(s, ident).slots[s.hooks[ident].slot] == 0
  {
    assert ident !in s.live;
  }

  lemma {:induction false} WaitForShape<K>(w: Waiting<K>, ident: nat, executing: Executing)
    requires Shape(w.s) && ident in w.s.hooks && !w.s.hooks[ident].armed() && ident !in w.s.removal
    ensures var r := WaitFor(w, ident, executing);
            && Shape(r.s) && (Numbered(w.s) ==> Numbered(r.s))
            && r.s.removal == w.s.removal && r.s.live == w.s.live && r.s.mem == w.s.mem
            && (r.s == w.s || r.s == Release(w.s, ident))
    decreases w.timeout
  {
    if !executing(ident, w.sleeps) {
      ReleaseShape(w.s, ident);
    } else if w.timeout > 0 {
      WaitForShape(w.(timeout := w.timeout - SLEEP, sleeps := w.sleeps + 1), ident, executing);
    }
  }

  /** A popped hook is in no list any more. */
  lemma PoppedShape<K>(s: HookState<K>)
    requires Shape(s) && s.removal != []
    ensures var (ident, popped) := (s.removal[0], s.(removal := s.removal[1..]));
            && Shape(popped) && (Numbered(s) ==> Numbered(popped))
            && ident in s.hooks && !s.hooks[ident].armed() && ident !in popped.removal && ident !in popped.live
  {
    var ident, popped := s.removal[0], s.(removal := s.removal[1..]);
    assert ident in s.removal;
    assert ListsShaped(popped);
  }

  lemma RestoreShape<K>(s: HookState<K>, ident: nat)
    requires Shape(s) && ident in s.hooks
    ensures Shape(Restore(s, ident)) && (Numbered(s) ==> Numbered(Restore(s, ident)))
  {
  }

  lemma RemoveOneShape<K>(w: Waiting<K>, executing: Executing)
    requires Shape(w.s) && w.s.removal != []
    ensures var r := RemoveOne(w, executing);
            && Shape(r.s) && (Numbered(w.s) ==> Numbered(r.s)) && r.s.removal == w.s.removal[1..]
            && r.s.live == w.s.live
  {
    hide ListsShaped, SlotsMatch, LinksMatch;
    var ident := w.s.removal[0];
    var popped := w.(s := w.s.(removal := w.s.removal[1..]));
    PoppedShape(w.s);
    if Bytes(w.s.mem, w.s.hooks[ident].target) == w.s.hooks[ident].copy {
      RestoreShape(popped.s, ident);
      WaitForShape(popped.(s := Restore(popped.s, ident)), ident, executing);
    }
  }
}
