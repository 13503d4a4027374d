/** Several hooks on one target. */
module HookStacks {
  import opened Words
  import opened CodeMemory
  import opened RipRelocation
  import opened HookLifecycle
  import opened HookRuns
  import opened HookRestoration

  // ---------- stacked hooks ----------

  /** The `i`-th hook, counted from the oldest, was put over `vals[i]` and left `vals[i + 1]`. */
  ghost predicate Layer<K>(s: HookState<K>, target: nat, ident: nat, vals: seq<seq<byte>>, i: nat)
    requires i + 1 < |vals|
  {
    && ident in s.hooks && s.hooks[ident].target == target
    && s.hooks[ident].backup == vals[i] && s.hooks[ident].copy == vals[i + 1]
  }

  /** Hooks `ids`, oldest first, are stacked on one target whose bytes went through `vals`. */
  ghost predicate Stacked<K>(s: HookState<K>, target: nat, ids: seq<nat>, vals: seq<seq<byte>>) {
    && |vals| == |ids| + 1 && Distinct(vals) && Distinct(ids) && target + PATCH <= |s.mem|
    && (forall i | 0 <= i < |ids| :: Layer(s, target, ids[i], vals, i))
    && Bytes(s.mem, target) == vals[|ids|]
  }

  /** Trampolines that a jump at the target can reach. */
  predicate InReach(target: nat, trampolines: seq<nat>) {
    forall i | 0 <= i < |trampolines| :: FitsLong(trampolines[i] - (target + 5))
  }

  /** The bytes at the target below the first and above each of the hooks with these trampolines. */
  function Levels(target: nat, original: seq<byte>, trampolines: seq<nat>): (vals: seq<seq<byte>>)
    requires |original| == PATCH && InReach(target, trampolines)
    ensures |vals| == |trampolines| + 1 && vals[0] == original
    ensures forall i | 0 <= i < |trampolines| :: vals[i + 1] == NearJump(target, trampolines[i]) + original[5..]
  {
    seq(|trampolines| + 1, i requires 0 <= i <= |trampolines| =>
      if i == 0 then original else NearJump(target, trampolines[i - 1]) + original[5..])
  }

  /** Different trampolines give different bytes, unless the target jumped to one of them before all hooks. */
  lemma LevelsDiffer(target: nat, original: seq<byte>, trampolines: seq<nat>)
    requires |original| == PATCH && InReach(target, trampolines) && Distinct(trampolines)
    requires forall i | 0 <= i < |trampolines| :: original[..5] != NearJump(target, trampolines[i])
    ensures Distinct(Levels(target, original, trampolines))
  {
    hide NearJump;
    var vals := Levels(target, original, trampolines);
    forall i, j | 0 <= i < j < |vals| ensures vals[i] != vals[j] {
      assert vals[j][..5] == NearJump(target, trampolines[j - 1]);
      if i > 0 {
        assert vals[i][..5] == NearJump(target, trampolines[i - 1]);
        JumpsDiffer(target, trampolines[i - 1], trampolines[j - 1]);
      }
    }
  }

  /** Installing over a stack puts a new hook on top, whose backup is the copy of the one below. */
  lemma InstallOnStack<K>(s: HookState<K>, handle: K, target: nat, original: seq<byte>, trampolines: seq<nat>,
                          ids: seq<nat>, new_: nat, p: Preparation)
    requires Shape(s) && Numbered(s) && target + PATCH <= |s.mem| && |original| == PATCH
    requires InReach(target, trampolines + [new_]) && InReach(target, trampolines) && FitsLong(new_ - (target + 5))
    requires Stacked(s, target, ids, Levels(target, original, trampolines)) && Distinct(trampolines)
    requires forall i | 0 <= i < |trampolines| :: original[..5] != NearJump(target, trampolines[i])
    requires new_ !in trampolines && original[..5] != NearJump(target, new_)
    requires p.Ready? && p.jump == NearJump(target, new_) && p.Ok() && InstallStatus(s, handle, p) == STATUS_SUCCESS
    ensures Stacked(Install(s, handle, target, p), target, ids + [s.counter],
                    Levels(target, original, trampolines + [new_]))
  {
    hide InRange, ListsShaped, SlotsMatch, LinksMatch, FreeSlot, NearJump;
    var r := Install(s, handle, target, p);
    var all := trampolines + [new_];
    var before, after := Levels(target, original, trampolines), Levels(target, original, all);
    assert forall i | 0 <= i < |trampolines| :: all[i] == trampolines[i];
    LevelsDiffer(target, original, all);
    assert before[|ids|][5..] == original[5..];
    assert after[|ids| + 1] == p.jump + Bytes(s.mem, target)[5..];
    OverwriteHere(s.mem, target, after[|ids| + 1]);
    IdentsOf(s, target, ids, before);
    forall i | 0 <= i < |ids| + 1 ensures Layer(r, target, (ids + [s.counter])[i], after, i) {
      if i < |ids| {
        assert Layer(s, target, ids[i], before, i) && before[i] == after[i] && before[i + 1] == after[i + 1];
      }
    }
  }

  lemma IdentsOf<K>(s: HookState<K>, target: nat, ids: seq<nat>, vals: seq<seq<byte>>)
    requires Stacked(s, target, ids, vals) && Numbered(s)
    ensures forall i | 0 <= i < |ids| :: ids[i] in s.hooks && ids[i] != s.counter
  {
    forall i | 0 <= i < |ids| ensures ids[i] in s.hooks && ids[i] != s.counter {
      assert Layer(s, target, ids[i], vals, i);
    }
  }

  // ---------- popping hooks of a stack ----------

  /** How many hooks are left in force after popping the hooks with the given heights, out of `level`: a pop counts only
    * if its hook is on top. */
  ghost function Descend(level: nat, order: seq<nat>): (r: nat)
    ensures r <= level <= r + |order|
    decreases |order|
  {
    if order == [] then level else Descend(if order[0] + 1 == level then level - 1 else level, order[1..])
  }

  /** The descent does not get below a hook that is not popped. */
  lemma {:induction false} DescentStops(level: nat, order: seq<nat>, height: nat)
    requires height < level && height !in order
    ensures Descend(level, order) > height
    decreases |order|
  {
    if order != [] {
      DescentStops(if order[0] + 1 == level then level - 1 else level, order[1..], height);
    }
  }

  /** All hooks are undone if and only if each is popped, newest first. */
  lemma {:induction false} DescendToZeroIff(n: nat, order: seq<nat>)
    requires Distinct(order) && forall k | 0 <= k < |order| :: order[k] < n
    ensures Descend(n, order) == 0 <==> |order| == n && forall k | 0 <= k < n :: order[k] == n - 1 - k
    decreases n
  {
    if n > 0 && order != [] {
      var rest := order[1..];
      assert forall k | 0 <= k < |rest| :: rest[k] == order[k + 1] != order[0];
      if order[0] == n - 1 {
        DescendToZeroIff(n - 1, rest);
        if |rest| == n - 1 && forall k | 0 <= k < n - 1 :: rest[k] == n - 2 - k {
          assert forall k | 0 < k < n :: order[k] == rest[k - 1];
        }
      } else {
        DescentStops(n, rest, order[0]);
      }
    }
  }

  /** Popped oldest first, only the last one counts. */
  lemma {:induction false} DescendOldestFirst(n: nat, order: seq<nat>, from: nat)
    requires |order| == n - from && from < n && forall k | 0 <= k < |order| :: order[k] == from + k
    ensures Descend(n, order) == n - 1
    decreases |order|
  {
    if from + 1 == n {
      assert order[1..] == [];
    } else {
      DescendOldestFirst(n, order[1..], from + 1);
    }
  }

  // ---------- a stack among other hooks ----------

  /** The members of a stack, in the order of a list. */
  function Only(xs: seq<nat>, ids: seq<nat>): (r: seq<nat>)
    ensures forall x :: x in r <==> x in xs && x in ids
  {
    if xs == [] then []
    else if xs[0] in ids then [xs[0]] + Only(xs[1..], ids) else Only(xs[1..], ids)
  }

  /** The place of a member in the stack. */
  function Height(ids: seq<nat>, x: nat): (i: nat)
    requires x in ids
    ensures i < |ids| && ids[i] == x
  {
    if ids[0] == x then 0 else 1 + Height(ids[1..], x)
  }

  function Heights(xs: seq<nat>, ids: seq<nat>): (r: seq<nat>)
    ensures |r| == |Only(xs, ids)|
    ensures forall k | 0 <= k < |r| :: r[k] < |ids| && ids[r[k]] == Only(xs, ids)[k]
  {
    if xs == [] then []
    else if xs[0] in ids then [Height(ids, xs[0])] + Heights(xs[1..], ids) else Heights(xs[1..], ids)
  }

  lemma {:induction false} OnlyDistinct(xs: seq<nat>, ids: seq<nat>)
    requires Distinct(xs)
    ensures Distinct(Only(xs, ids))
  {
    if xs != [] {
      OnlyDistinct(xs[1..], ids);
      assert xs[0] !in xs[1..];
    }
  }

  lemma {:induction false} OnlyAppend(a: seq<nat>, b: seq<nat>, ids: seq<nat>)
    ensures Only(a + b, ids) == Only(a, ids) + Only(b, ids)
  {
    if a == [] {
      assert a + b == b;
    } else {
      assert (a + b)[1..] == a[1..] + b;
      OnlyAppend(a[1..], b, ids);
    }
  }

  lemma {:induction false} OnlyReverse(xs: seq<nat>, ids: seq<nat>)
    ensures Only(Reverse(xs), ids) == Reverse(Only(xs, ids))
  {
    if xs != [] {
      OnlyReverse(xs[1..], ids);
      OnlyAppend(Reverse(xs[1..]), [xs[0]], ids);
      assert Only([xs[0]], ids) == if xs[0] in ids then [xs[0]] else [];
      if xs[0] in ids {
        assert Only(xs, ids)[1..] == Only(xs[1..], ids);
      }
    }
  }

  /** Each hook of the list belongs to the stack or leaves its target alone. */
  ghost predicate Beside<K>(s: HookState<K>, target: nat, ids: seq<nat>, xs: seq<nat>) {
    forall x | x in xs :: x in s.hooks && (x in ids || Apart(s.hooks[x].target, target))
  }

  /** The hooks of the stack are allocated as layers as long as they are in the list. */
  ghost predicate Layers<K>(s: HookState<K>, target: nat, ids: seq<nat>, vals: seq<seq<byte>>, xs: seq<nat>) {
    |vals| == |ids| + 1 && forall i | 0 <= i < |ids| && ids[i] in xs :: Layer(s, target, ids[i], vals, i)
  }

  /** One turn of the wait on a stack: the top hook uncovers the one below, every other hook changes nothing here. */
  lemma RemoveOneDescends<K>(w: Waiting<K>, target: nat, ids: seq<nat>, vals: seq<seq<byte>>, level: nat,
                             executing: Executing)
    requires Shape(w.s) && w.s.removal != [] && Distinct(vals)
    requires Beside(w.s, target, ids, w.s.removal) && Layers(w.s, target, ids, vals, w.s.removal)
    requires target + PATCH <= |w.s.mem| && level < |vals| && Bytes(w.s.mem, target) == vals[level]
    ensures var (x, r) := (w.s.removal[0], RemoveOne(w, executing));
            && |r.s.mem| == |w.s.mem|
            && Bytes(r.s.mem, target) == vals[if x in ids && Height(ids, x) + 1 == level then level - 1 else level]
            && Beside(r.s, target, ids, w.s.removal[1..]) && Layers(r.s, target, ids, vals, w.s.removal[1..])
  {
    hide SlotsMatch, LinksMatch, RemoveOne;
    RemoveOneShape(w, executing);
    RemoveOneFrame(w, executing);
    var x := w.s.removal[0];
    assert x in w.s.removal && x !in w.s.removal[1..];
    var h := w.s.hooks[x];
    if x in ids {
      var i := Height(ids, x);
      assert Layer(w.s, target, ids[i], vals, i);
      assert h.copy == vals[level] <==> i + 1 == level;
      OverwriteHere(w.s.mem, target, h.backup);
    } else {
      OverwriteApart(w.s.mem, h.target, h.backup, target);
    }
    var r := RemoveOne(w, executing);
    forall i | 0 <= i < |ids| && ids[i] in w.s.removal[1..] ensures Layer(r.s, target, ids[i], vals, i) {
      assert ids[i] in w.s.removal && Layer(w.s, target, ids[i], vals, i);
    }
  }

  /** Waiting takes the target down the stack as Descend says, whatever else waits for removal. */
  lemma {:induction false} WaitDescends<K>(w: Waiting<K>, target: nat, ids: seq<nat>, vals: seq<seq<byte>>,
                                           level: nat, executing: Executing)
    requires Shape(w.s) && Distinct(vals)
    requires Beside(w.s, target, ids, w.s.removal) && Layers(w.s, target, ids, vals, w.s.removal)
    requires target + PATCH <= |w.s.mem| && level < |vals| && Bytes(w.s.mem, target) == vals[level]
    ensures var r := WaitForRemovals(w, executing);
            |r.s.mem| == |w.s.mem| && Bytes(r.s.mem, target) == vals[Descend(level, Heights(w.s.removal, ids))]
    decreases |w.s.removal|
  {
    hide Shape, RemoveOne, Beside, Layers, Bytes;
    if w.s.removal != [] {
      RemoveOneShape(w, executing);
      RemoveOneDescends(w, target, ids, vals, level, executing);
      var x := w.s.removal[0];
      WaitDescends(RemoveOne(w, executing), target, ids, vals,
                   if x in ids && Height(ids, x) + 1 == level then level - 1 else level, executing);
    }
  }

  lemma StackDescends<K>(s: HookState<K>, target: nat, ids: seq<nat>, vals: seq<seq<byte>>, executing: Executing)
    requires Shape(s) && Stacked(s, target, ids, vals) && Beside(s, target, ids, s.removal)
    ensures Distinct(ids) && |vals| == |ids| + 1
    ensures var r := WaitForRemovals(StartWait(s), executing).s;
            |r.mem| == |s.mem| && target + PATCH <= |s.mem|
            && Bytes(r.mem, target) == vals[Descend(|ids|, Heights(s.removal, ids))]
  {
    hide Shape, WaitForRemovals, Beside, Heights, Descend;
    WaitDescends(StartWait(s), target, ids, vals, |ids|, executing);
  }

  /** The target has its original bytes after the wait if and only if the removal list has the whole stack newest first,
    * with any hooks on other targets in between. */
  lemma StackRestoredIff<K>(s: HookState<K>, target: nat, ids: seq<nat>, vals: seq<seq<byte>>, executing: Executing)
    requires Shape(s) && Stacked(s, target, ids, vals) && Beside(s, target, ids, s.removal)
    ensures var r := WaitForRemovals(StartWait(s), executing).s;
            |r.mem| == |s.mem| && (Bytes(r.mem, target) == vals[0] <==> Only(s.removal, ids) == Reverse(ids))
  {
    hide InRange, SlotsMatch, LinksMatch, WaitForRemovals;
    var order := Heights(s.removal, ids);
    StackDescends(s, target, ids, vals, executing);
    OnlyDistinct(s.removal, ids);
    forall i, j | 0 <= i < j < |order| ensures order[i] != order[j] {
      assert Only(s.removal, ids)[i] != Only(s.removal, ids)[j];
    }
    DescendToZeroIff(|ids|, order);
    ReversedIff(Only(s.removal, ids), ids, order);
  }

  /** The heights tell when a list is the reversed stack. */
  lemma ReversedIff(xs: seq<nat>, ids: seq<nat>, order: seq<nat>)
    requires Distinct(ids) && |order| == |xs|
    requires forall k | 0 <= k < |order| :: order[k] < |ids| && xs[k] == ids[order[k]]
    ensures xs == Reverse(ids) <==> |order| == |ids| && forall k | 0 <= k < |ids| :: order[k] == |ids| - 1 - k
  {
    var n := |ids|;
    assert xs == Reverse(ids) <==> |xs| == n && forall k | 0 <= k < n :: xs[k] == ids[n - 1 - k];
  }

  /** LhUninstallAllHooks and a wait restore the target if and only if the stack was waiting newest first already, or
    * gets that way by moving its hooks from the global list to the front, the oldest ahead. */
  lemma UninstallAllOnStack<K>(s: HookState<K>, target: nat, ids: seq<nat>, vals: seq<seq<byte>>, executing: Executing)
    requires Shape(s) && Stacked(s, target, ids, vals)
    requires Beside(s, target, ids, s.removal) && Beside(s, target, ids, s.live)
    ensures var u := UninstallAll(s);
            Shape(u) && var r := WaitForRemovals(StartWait(u), executing).s;
                        |r.mem| == |s.mem|
                        && (Bytes(r.mem, target) == vals[0]
                            <==> Reverse(Only(s.live, ids)) + Only(s.removal, ids) == Reverse(ids))
  {
    hide Shape, UninstallAll, WaitForRemovals, Stacked, Beside;
    var u := UninstalledStack(s, target, ids, vals);
    StackRestoredIff(u, target, ids, vals, executing);
  }

  lemma UninstalledStack<K>(s: HookState<K>, target: nat, ids: seq<nat>, vals: seq<seq<byte>>)
    returns (u: HookState<K>)
    requires Shape(s) && Stacked(s, target, ids, vals)
    requires Beside(s, target, ids, s.removal) && Beside(s, target, ids, s.live)
    ensures u == UninstallAll(s) && Shape(u) && |u.mem| == |s.mem|
    ensures Stacked(u, target, ids, vals) && Beside(u, target, ids, u.removal)
    ensures Only(u.removal, ids) == Reverse(Only(s.live, ids)) + Only(s.removal, ids)
  {
    hide InRange, SlotsMatch, LinksMatch, ListsShaped, UninstallAll;
    u := UninstallAll(s);
    UninstallAllShape(s);
    UninstallAllEffect(s);
    OnlyAppend(Reverse(s.live), s.removal, ids);
    OnlyReverse(s.live, ids);
    forall i | 0 <= i < |ids| ensures Layer(u, target, ids[i], vals, i) {
      assert Layer(s, target, ids[i], vals, i);
    }
    forall x | x in u.removal ensures x in s.live || x in s.removal {
      ReverseMembers(s.live, x);
    }
  }

  /** A stack that is in the global list as a whole, newest first as installs leave it, is popped oldest first by
    * LhUninstallAllHooks and a wait, so that only its newest hook is undone. */
  lemma OnlyNewestUndone<K>(s: HookState<K>, target: nat, ids: seq<nat>, vals: seq<seq<byte>>, executing: Executing)
    requires Shape(s) && Stacked(s, target, ids, vals) && ids != []
    requires Beside(s, target, ids, s.removal) && Beside(s, target, ids, s.live)
    requires Only(s.live, ids) == Reverse(ids) && Only(s.removal, ids) == []
    ensures var u := UninstallAll(s);
            Shape(u) && var r := WaitForRemovals(StartWait(u), executing).s;
                        |r.mem| == |s.mem| && Bytes(r.mem, target) == vals[|ids| - 1]
  {
    hide Shape, UninstallAll, WaitForRemovals, Descend, Stacked, Beside, Heights;
    var u := UninstalledStack(s, target, ids, vals);
    var order := Heights(u.removal, ids);
    ReverseTwice(ids);
    assert Only(u.removal, ids) == ids;
    StackDescends(u, target, ids, vals, executing);
    HeightsInOrder(u.removal, ids);
    DescendOldestFirst(|ids|, order, 0);
  }

  lemma HeightsInOrder(xs: seq<nat>, ids: seq<nat>)
    requires Distinct(ids) && Only(xs, ids) == ids
    ensures |Heights(xs, ids)| == |ids| && forall k | 0 <= k < |ids| :: Heights(xs, ids)[k] == k
  {
    var order := Heights(xs, ids);
    forall k | 0 <= k < |ids| ensures order[k] == k {
      assert ids[order[k]] == ids[k];
    }
  }

  lemma ReverseTwice(ids: seq<nat>)
    ensures Reverse(Reverse(ids)) == ids
  {
    var r := Reverse(ids);
    assert forall k | 0 <= k < |ids| :: Reverse(r)[k] == r[|ids| - 1 - k];
  }

  // ---------- two hooks on one target ----------

  const OLDER: nat := FIRST_IDENT
  const NEWER: nat := FIRST_IDENT + 1

  const BLANK: seq<byte> := [0, 0, 0, 0, 0, 0, 0, 0]

  /** The jump from address 0, for some hook procedure without a callback. */
  function ToTrampoline(trampoline: nat): (p: Preparation)
    requires FitsLong(trampoline - 5)
    ensures p.Ready? && p.jump == NearJump(0, trampoline) && p.Ok()
  {
    Ready(NearJump(0, trampoline), 1, 0)
  }

  /** An install with handle 1 and a trampoline at 100 over a target of eight zeros. */
  function OneHook(): (s: HookState<nat>) {
    Install(Initial<nat>(BLANK), 1, 0, ToTrampoline(100))
  }

  /** A second one with handle 2 and a trampoline at 200. */
  function TwoHooks(): (s: HookState<nat>)
    ensures |s.mem| == 8
  {
    Install(OneHook(), 2, 0, ToTrampoline(200))
  }

  lemma OneHookStacked()
    ensures var s := OneHook();
            && Shape(s) && Numbered(s) && s.live == [OLDER] && s.removal == [] && s.counter == NEWER && |s.mem| == 8
            && s.links == map[1 := OLDER] && s.hooks.Keys == {OLDER} && FreeSlot(s.slots) == 1 && |s.slots| > 1
            && Stacked(s, 0, [OLDER], Levels(0, BLANK, [100]))
  {
    hide InRange, ListsShaped, SlotsMatch, LinksMatch, NearJump, Install, Stacked, Levels;
    var none := Initial<nat>(BLANK);
    InitialShape<nat>(BLANK);
    InstallShape(none, 1, 0, ToTrampoline(100));
    NotAJump(BLANK);
    FirstSlot(none.slots, OLDER);
    assert [] + [100] == [100] && [] + [OLDER] == [OLDER];
    assert Bytes(none.mem, 0) == BLANK;
    NoStack(none, 0);
    InstallFields(none, 1, 0, ToTrampoline(100));
    InstallOnStack(none, 1, 0, BLANK, [], [], 100, ToTrampoline(100));
  }

  /** A target without hooks. */
  lemma NoStack<K>(s: HookState<K>, target: nat)
    requires target + PATCH <= |s.mem|
    ensures Stacked(s, target, [], Levels(target, Bytes(s.mem, target), []))
  {
  }

  lemma FirstSlot(slots: seq<nat>, x: nat)
    requires x != 0 && |slots| > 1 && slots[0] == slots[1] == 0
    ensures FreeSlot(slots) == 0 && FreeSlot(slots[0 := x]) == 1
  {
  }

  lemma TwoHooksStacked()
    ensures var s := TwoHooks();
            && Shape(s) && s.live == [NEWER, OLDER] && s.removal == []
            && s.links == map[1 := OLDER, 2 := NEWER] && s.hooks.Keys == {OLDER, NEWER}
            && Stacked(s, 0, [OLDER, NEWER], Levels(0, BLANK, [100, 200]))
  {
    hide InRange, ListsShaped, SlotsMatch, LinksMatch, NearJump, Install, OneHook, Stacked;
    var one := OneHook();
    OneHookStacked();
    InstallShape(one, 2, 0, ToTrampoline(200));
    NotAJump(BLANK);
    assert [100] + [200] == [100, 200] && [OLDER] + [NEWER] == [OLDER, NEWER];
    InstallFields(one, 2, 0, ToTrampoline(200));
    InstallOnStack(one, 2, 0, BLANK, [100], [OLDER], 200, ToTrampoline(200));
  }

  lemma NotAJump(original: seq<byte>)
    requires |original| == 8 && original[0] == 0
    ensures original[..5] != NearJump(0, 100) && original[..5] != NearJump(0, 200)
  {
    assert original[..5][0] == 0;
  }

  lemma OnlyTwo(a: nat, b: nat)
    ensures Only([b, a], [a, b]) == [b, a] == Reverse([a, b]) && Only([], [a, b]) == []
  {
    assert [b, a][1..] == [a];
    assert Only([a], [a, b]) == [a];
  }

  /** Uninstalling all and waiting leaves the jump of the older hook in place, although both hooks are gone. */
  lemma UninstallAllLeavesJump(executing: Executing)
    ensures var u := UninstallAll(TwoHooks());
            Shape(u) && var r := WaitForRemovals(StartWait(u), executing).s;
                        |r.mem| == 8 && r.removal == [] && Bytes(r.mem, 0) == NearJump(0, 100) + [0, 0, 0]
  {
    hide Shape, TwoHooks, UninstallAll, WaitForRemovals, NearJump, Stacked, Only, Reverse, Levels;
    TwoHooksStacked();
    var s, ids := TwoHooks(), [OLDER, NEWER];
    OnlyTwo(OLDER, NEWER);
    OnlyNewestUndone(s, 0, ids, Levels(0, BLANK, [100, 200]), executing);
    WaitShape(StartWait(UninstallAll(s)), executing);
    assert Levels(0, BLANK, [100, 200])[0 + 1] == NearJump(0, [100, 200][0]) + BLANK[5..];
    assert BLANK[5..] == [0, 0, 0];
  }

  /** Uninstalling both by handle, the older one first, and waiting restores the target. */
  lemma OlderFirstRestores(executing: Executing)
    ensures var u := Uninstall(Uninstall(TwoHooks(), 1), 2);
            Shape(u) && var r := WaitForRemovals(StartWait(u), executing).s; |r.mem| == 8 && Bytes(r.mem, 0) == BLANK
  {
    hide Shape, TwoHooks, WaitForRemovals, NearJump, Stacked, Only, Reverse, Levels;
    TwoHooksStacked();
    var s, ids, vals := TwoHooks(), [OLDER, NEWER], Levels(0, BLANK, [100, 200]);
    var one := UninstalledOnStack(s, 1, 0, ids, vals);
    var u := UninstalledOnStack(one, 2, 0, ids, vals);
    assert u.removal == [NEWER, OLDER];
    OnlyTwo(OLDER, NEWER);
    StackRestoredIff(u, 0, ids, vals, executing);
  }

  /** Uninstalling a hook does not move the stack. */
  lemma UninstalledOnStack<K>(s: HookState<K>, handle: K, target: nat, ids: seq<nat>, vals: seq<seq<byte>>)
    returns (u: HookState<K>)
    requires Shape(s) && handle in s.links && Stacked(s, target, ids, vals)
    ensures u == Uninstall(s, handle) && Shape(u) && u.mem == s.mem && Stacked(u, target, ids, vals)
    ensures u.removal == [s.links[handle]] + s.removal && u.links == s.links - {handle} && u.hooks.Keys == s.hooks.Keys
  {
    hide InRange, ListsShaped, SlotsMatch;
    u := Uninstall(s, handle);
    UninstallShape(s, handle);
    forall i | 0 <= i < |ids| ensures Layer(u, target, ids[i], vals, i) {
      assert Layer(s, target, ids[i], vals, i);
    }
  }
}
