/** What holds over whole runs of installs, uninstalls and waits. */
module HookRuns {
  import opened Words
  import opened CodeMemory
  import opened HookLifecycle

  // ---------- runs ----------

  datatype Op<K> =
    | InstallOp(handle: K, target: nat, p: Preparation)
    | UninstallOp(handle: K)
    | UninstallAllOp
    | WaitOp(executing: Executing)

  /** Pointers into the process, and jumps of five bytes. */
  predicate OpOk<K>(s: HookState<K>, op: Op<K>) {
    op.InstallOp? ==>
      && op.target + PATCH <= |s.mem|
      && op.p.Ok()
  }

  function Apply<K>(s: HookState<K>, op: Op<K>): (r: HookState<K>)
    requires Shape(s) && OpOk(s, op)
  {
    match op
    case InstallOp(handle, target, p) => Install(s, handle, target, p)
    case UninstallOp(handle) => Uninstall(s, handle)
    case UninstallAllOp => UninstallAll(s)
    case WaitOp(executing) => WaitForRemovals(StartWait(s), executing).s
  }

  /** Every operation keeps the shape, as long as the ident counter does not wrap around. */
  lemma ApplyShape<K>(s: HookState<K>, op: Op<K>)
    requires Shape(s) && Numbered(s) && OpOk(s, op) && s.counter + 1 < TWO_32
    ensures var r := Apply(s, op);
            && Shape(r) && Numbered(r) && |r.mem| == |s.mem|
            && s.counter <= r.counter <= s.counter + 1
  {
    hide InRange, ListsShaped, SlotsMatch, LinksMatch;
    match op
    case InstallOp(handle, target, p) => InstallShape(s, handle, target, p);
    case UninstallOp(handle) => UninstallShape(s, handle);
    case UninstallAllOp => UninstallAllShape(s); UninstallAllEffect(s);
    case WaitOp(executing) => WaitShape(StartWait(s), executing);
  }

  lemma {:induction false} WaitShape<K>(w: Waiting<K>, executing: Executing)
    requires Shape(w.s)
    ensures var r := WaitForRemovals(w, executing);
            && Shape(r.s) && (Numbered(w.s) ==> Numbered(r.s))
            && r.s.removal == [] && r.s.live == w.s.live && r.s.counter == w.s.counter && |r.s.mem| == |w.s.mem|
            && r.s.links == w.s.links
    decreases |w.s.removal|
  {
    hide InRange, ListsShaped, SlotsMatch, LinksMatch, Numbered;
    if w.s.removal != [] {
      RemoveOneShape(w, executing);
      RemoveOneFrame(w, executing);
      WaitShape(RemoveOne(w, executing), executing);
    }
  }

  lemma {:induction false} WaitForFrame<K>(w: Waiting<K>, ident: nat, executing: Executing)
    requires ident in w.s.hooks && w.s.hooks[ident].slot < |w.s.slots|
    ensures var r := WaitFor(w, ident, executing);
            && (w.timedOut ==> r.timedOut)
            && if r.s == w.s then r.timedOut else r.s == Release(w.s, ident)
    ensures var r := WaitFor(w, ident, executing); !r.timedOut ==> r.s == Release(w.s, ident)
    decreases w.timeout
  {
    if executing(ident, w.sleeps) && w.timeout > 0 {
      WaitForFrame(w.(timeout := w.timeout - SLEEP, sleeps := w.sleeps + 1), ident, executing);
    }
  }

  /** What one pop does: memory changes only at the target, where the backup comes back if the copy was there. */
  lemma RemoveOneFrame<K>(w: Waiting<K>, executing: Executing)
    requires Shape(w.s) && w.s.removal != []
    ensures var (ident, r) := (w.s.removal[0], RemoveOne(w, executing));
            var h := w.s.hooks[ident];
            && r.s.counter == w.s.counter && r.s.links == w.s.links && |r.s.mem| == |w.s.mem|
            && r.s.mem == (if Bytes(w.s.mem, h.target) == h.copy then Overwrite(w.s.mem, h.target, h.backup)
                          else w.s.mem)
            && (r.s.hooks == w.s.hooks || r.s.hooks == w.s.hooks - {ident})
            && (w.timedOut ==> r.timedOut)
            && (Bytes(w.s.mem, h.target) != h.copy ==> r.s.hooks == w.s.hooks && r.timedOut == w.timedOut)
            && (Bytes(w.s.mem, h.target) == h.copy ==> r.timedOut || r.s.hooks == w.s.hooks - {ident})
  {
    hide ListsShaped, LinksMatch;
    var ident := w.s.removal[0];
    OnRemovalList(w.s);
    var h := w.s.hooks[ident];
    var popped := w.(s := w.s.(removal := w.s.removal[1..]));
    if Bytes(w.s.mem, h.target) == h.copy {
      WaitForFrame(popped.(s := Restore(popped.s, ident)), ident, executing);
    }
  }

  lemma OnRemovalList<K>(s: HookState<K>)
    requires Shape(s)
    ensures forall ident | ident in s.removal :: ident in s.hooks && !s.hooks[ident].armed()
  {
  }

  // ---------- LhUninstallAllHooks as a whole ----------

  /** The global list moves, reversed, to the front of the removal list; exactly its hooks are disarmed. */
  lemma {:induction false} UninstallAllEffect<K>(s: HookState<K>)
    requires Shape(s)
    ensures var r := UninstallAll(s);
            && r.live == [] && r.removal == Reverse(s.live) + s.removal
            && r.mem == s.mem && r.slots == s.slots && r.counter == s.counter && r.hooks.Keys == s.hooks.Keys
            && (forall ident | ident in s.hooks ::
                  r.hooks[ident] == s.hooks[ident].(proc := if ident in s.live then 0 else s.hooks[ident].proc))
    decreases |s.live|
  {
    hide InRange, ListsShaped, SlotsMatch, LinksMatch, Retire;
    if s.live != [] {
      var ident := s.live[0];
      var next := RetireEffect(s);
      RetireShape(s);
      UninstallAllEffect(next);
      assert Reverse(s.live) + s.removal == Reverse(s.live[1..]) + next.removal;
      assert s.live == [ident] + next.live;
    }
  }

  lemma RetireEffect<K>(s: HookState<K>) returns (next: HookState<K>)
    requires Shape(s) && s.live != []
    ensures s.live[0] in s.hooks && next == Retire(s, s.live[0]).(live := s.live[1..])
    ensures next.live == s.live[1..] && next.removal == [s.live[0]] + s.removal
    ensures next.mem == s.mem && next.slots == s.slots && next.counter == s.counter && next.hooks.Keys == s.hooks.Keys
    ensures forall ident | ident in s.hooks ::
              next.hooks[ident] == s.hooks[ident].(proc := if ident == s.live[0] then 0 else s.hooks[ident].proc)
  {
    hide SlotsMatch, LinksMatch;
    assert s.live[0] in s.live;
    next := Retire(s, s.live[0]).(live := s.live[1..]);
  }

  /** Every armed hook is in the global list. */
  ghost predicate NothingDropped<K>(s: HookState<K>) {
    forall ident | ident in s.hooks && s.hooks[ident].armed() :: ident in s.live
  }

  /** LhUninstallAllHooks disarms every hook if and only if none was dropped from the global list before. */
  lemma UninstallAllIsCompleteIff<K>(s: HookState<K>)
    requires Shape(s)
    ensures (forall ident | ident in UninstallAll(s).hooks :: !UninstallAll(s).hooks[ident].armed())
              <==> NothingDropped(s)
  {
    hide InRange, SlotsMatch, LinksMatch, UninstallAll;
    UninstallAllEffect(s);
    var r := UninstallAll(s);
    assert forall ident | ident in s.hooks :: r.hooks[ident].armed() <==> s.hooks[ident].armed() && ident !in s.live;
  }

  // ---------- LhUninstallHook on the global list ----------

  /** The global list becomes the suffix behind the hook, or stays as it is when the hook is not in it; all hooks in
    * front of it are dropped although they stay armed. */
  lemma UninstallKeepsSuffix<K>(s: HookState<K>, handle: K) returns (k: nat)
    requires Shape(s) && handle in s.links
    ensures var (ident, r) := (s.links[handle], Uninstall(s, handle));
            && k <= |s.live| && r.live == s.live[k..] && r.removal == [ident] + s.removal
            && (ident in s.live <==> k > 0) && (k > 0 ==> s.live[k - 1] == ident)
            && (forall j | 0 <= j < k - 1 ::
                  s.live[j] in r.hooks && r.hooks[s.live[j]].armed() && s.live[j] !in r.live && s.live[j] !in r.removal)
  {
    var ident := s.links[handle];
    var r := Uninstall(s, handle);
    k := AfterIsSuffix(s.live, ident);
    if ident !in s.live {
      k := 0;
    }
    assert r.live == s.live[k..];
    forall j | 0 <= j < k - 1
      ensures s.live[j] in r.hooks && r.hooks[s.live[j]].armed() && s.live[j] !in r.live && s.live[j] !in r.removal
    {
      assert s.live[j] in s.live && s.live[j] != ident;
      assert forall m | 0 <= m < |r.live| :: r.live[m] == s.live[k + m];
    }
  }

  /** Exactly the one hook leaves the list, so that no other is dropped, if and only if it is the head. */
  lemma UninstallDropsNothingIff<K>(s: HookState<K>, handle: K)
    requires Shape(s) && NothingDropped(s) && handle in s.links
    ensures NothingDropped(Uninstall(s, handle)) <==> s.live[0] == s.links[handle]
  {
    var ident := s.links[handle];
    var r := Uninstall(s, handle);
    var k := UninstallKeepsSuffix(s, handle);
    assert ident in s.live;
    if k == 1 {
      assert s.live == [ident] + r.live;
      assert forall x | x in s.live && x != ident :: x in r.live;
    } else {
      assert s.live[0] in r.hooks && r.hooks[s.live[0]].armed() && s.live[0] !in r.live;
      assert Distinct(s.live);
    }
  }

  /** Two hooks installed and the older one uninstalled: the newer one stays armed and patched, but no list has it any
    * more, so that LhUninstallAllHooks leaves it as it is. */
  lemma NewerHookIsDropped(older: seq<byte>, newer: seq<byte>)
    requires |older| == 5 && |newer| == 5
    ensures var first := Install(Initial<nat>(seq(16, _ => 0)), 1, 0, Ready(older, 1, 0));
            var both := Install(first, 2, 8, Ready(newer, 1, 0));
            var one := Uninstall(both, 1);
            && one.live == [] && one.removal == [FIRST_IDENT] && UninstallAll(one) == one
            && FIRST_IDENT + 1 in one.hooks && one.hooks[FIRST_IDENT + 1].armed()
            && one.links == map[2 := FIRST_IDENT + 1]
            && Bytes(one.mem, 8) == newer + [0, 0, 0]
  {
    var s := Initial<nat>(seq(16, _ => 0));
    assert FreeSlot(s.slots) == 0;
    var first := Install(s, 1, 0, Ready(older, 1, 0));
    assert FreeSlot(first.slots) == 1;
    var both := Install(first, 2, 8, Ready(newer, 1, 0));
    assert both.live == [FIRST_IDENT + 1, FIRST_IDENT];
    assert Successors(both.live, FIRST_IDENT) == [] by {
      assert both.live[1..] == [FIRST_IDENT];
    }
  }

  // ---------- when the slots run out ----------

  /** Different slots below `n`, and one of them free. */
  lemma {:induction false} KeysBelow<K>(hooks: map<nat, Hook<K>>, keys: set<nat>, n: nat, free: nat)
    requires keys <= hooks.Keys && forall x | x in keys :: hooks[x].slot < n
    requires forall x, y | x in keys && y in keys && x != y :: hooks[x].slot != hooks[y].slot
    ensures |keys| <= n
    ensures free < n && (forall x | x in keys :: hooks[x].slot != free) ==> |keys| < n
    decreases n
  {
    if n == 0 {
      assert forall x | x in keys :: false;
      assert keys == {};
    } else if x :| x in keys && hooks[x].slot == n - 1 {
      KeysBelow(hooks, keys - {x}, n - 1, free);
    } else {
      KeysBelow(hooks, keys, n - 1, free);
    }
  }

  /** Slots that name different hooks. */
  lemma {:induction false} SlotsAbove<K>(s: HookState<K>, n: nat)
    requires SlotsMatch(s) && n <= |s.slots| && forall i | 0 <= i < n :: s.slots[i] != 0
    ensures var named := set i | 0 <= i < n :: s.slots[i]; named <= s.hooks.Keys && |named| == n
    decreases n
  {
    if n > 0 {
      SlotsAbove(s, n - 1);
      var fewer := set i | 0 <= i < n - 1 :: s.slots[i];
      assert s.slots[n - 1] !in fewer;
      assert (set i | 0 <= i < n :: s.slots[i]) == fewer + {s.slots[n - 1]};
    }
  }

  /** No slot is free if and only if 1024 hooks are allocated, whether in force, waiting, dropped or leaked. */
  lemma SlotsRunOutIff<K>(s: HookState<K>)
    requires Shape(s) && Numbered(s)
    ensures |s.hooks| <= 1024 && |s.slots| == 1024
    ensures FreeSlot(s.slots) == |s.slots| <==> |s.hooks| == 1024
  {
    hide InRange, ListsShaped, LinksMatch;
    var i := FreeSlot(s.slots);
    assert forall x, y | x in s.hooks && y in s.hooks && x != y :: s.hooks[x].slot != s.hooks[y].slot;
    assert i < |s.slots| ==> forall x | x in s.hooks :: s.hooks[x].slot != i;
    KeysBelow(s.hooks, s.hooks.Keys, 1024, i);
    if i == |s.slots| {
      SlotsAbove(s, |s.slots|);
      Smaller(set j | 0 <= j < |s.slots| :: s.slots[j], s.hooks.Keys);
    }
  }

  lemma {:induction false} Smaller(a: set<nat>, b: set<nat>)
    requires a <= b
    ensures |a| <= |b|
    decreases |b|
  {
    if x :| x in b {
      Smaller(a - {x}, b - {x});
      assert x in a ==> |a - {x}| == |a| - 1;
      assert x !in a ==> a - {x} == a;
      if x !in a {
        assert a <= b - {x};
      }
    } else {
      assert a == {};
    }
  }
}
