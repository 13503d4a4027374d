/** What uninstalling gives back: original bytes for disjoint targets, and how far a stack of hooks on one target is
  * undone. */
module HookRestoration {
  import opened Words
  import opened CodeMemory
  import opened RipRelocation
  import opened HookLifecycle
  import opened HookRuns

  // ---------- disjoint targets ----------

  /** The hook's bytes stand at its target: it is armed, dropped or not, or waits for removal. */
  predicate Patched<K>(s: HookState<K>, ident: nat) {
    ident in s.hooks && (s.hooks[ident].armed() || ident in s.removal)
  }

  predicate Apart(a: nat, b: nat) {
    a + PATCH <= b || b + PATCH <= a
  }

  predicate Covers<K>(s: HookState<K>, ident: nat, k: int) {
    Patched(s, ident) && s.hooks[ident].target <= k < s.hooks[ident].target + PATCH
  }

  /** Memory is the original with the copies of the patched hooks, whose windows do not overlap. */
  ghost predicate Layered<K>(s: HookState<K>, original: seq<byte>) {
    && |s.mem| == |original| && InRange(s)
    && (forall ident | Patched(s, ident) ::
          && s.hooks[ident].backup == Bytes(original, s.hooks[ident].target)
          && s.hooks[ident].copy == Bytes(s.mem, s.hooks[ident].target))
    && (forall a, b | Patched(s, a) && Patched(s, b) && a != b :: Apart(s.hooks[a].target, s.hooks[b].target))
    && (forall k | 0 <= k < |s.mem| :: (exists ident :: Covers(s, ident, k)) || s.mem[k] == original[k])
  }

  lemma BytesEqual(a: seq<byte>, b: seq<byte>, target: nat)
    requires |a| == |b| && target + PATCH <= |a|
    requires forall k | target <= k < target + PATCH :: a[k] == b[k]
    ensures Bytes(a, target) == Bytes(b, target)
  {
  }

  lemma OverwriteApart(mem: seq<byte>, at: nat, src: seq<byte>, target: nat)
    requires |src| == PATCH && at + PATCH <= |mem| && target + PATCH <= |mem| && Apart(at, target)
    ensures Bytes(Overwrite(mem, at, src), target) == Bytes(mem, target)
  {
  }

  lemma OverwriteHere(mem: seq<byte>, at: nat, src: seq<byte>)
    requires |src| == PATCH && at + PATCH <= |mem|
    ensures Bytes(Overwrite(mem, at, src), at) == src
  {
  }

  /** The window of a new hook does not overlap the windows in use. */
  ghost predicate NewTarget<K>(s: HookState<K>, target: nat) {
    forall ident | Patched(s, ident) :: Apart(target, s.hooks[ident].target)
  }

  lemma InstallLayered<K>(s: HookState<K>, original: seq<byte>, handle: K, target: nat, p: Preparation)
    requires Shape(s) && Numbered(s) && s.counter + 1 < TWO_32 && OpOk(s, InstallOp(handle, target, p))
    requires Layered(s, original) && NewTarget(s, target)
    ensures Layered(Install(s, handle, target, p), original)
  {
    hide LinksMatch, SlotsMatch, FreeSlot, Layered;
    var r := Install(s, handle, target, p);
    InstallShape(s, handle, target, p);
    if InstallStatus(s, handle, p) == STATUS_SUCCESS {
      AddLayer(s, r, original, s.counter, target);
    } else {
      SameLayers(s, r, original);
    }
  }

  lemma AddLayer<K>(s: HookState<K>, r: HookState<K>, original: seq<byte>, new_: nat, target: nat)
    requires Layered(s, original) && NewTarget(s, target) && InRange(r) && !Patched(s, new_) && Patched(r, new_)
    requires forall ident :: Patched(r, ident) <==> ident == new_ || Patched(s, ident)
    requires forall ident | Patched(s, ident) && Patched(r, ident) :: r.hooks[ident] == s.hooks[ident]
    requires var h := r.hooks[new_];
             && target + PATCH <= |s.mem| && h.target == target && h.backup == Bytes(s.mem, target)
             && |h.copy| == PATCH && r.mem == Overwrite(s.mem, target, h.copy)
    ensures Layered(r, original)
  {
    forall k | target <= k < target + PATCH ensures s.mem[k] == original[k] {
      assert forall ident | Patched(s, ident) :: !Covers(s, ident, k);
    }
    BytesEqual(s.mem, original, target);
    var copy := r.hooks[new_].copy;
    OverwriteHere(s.mem, target, copy);
    forall ident | Patched(s, ident)
      ensures Bytes(r.mem, s.hooks[ident].target) == Bytes(s.mem, s.hooks[ident].target)
    {
      OverwriteApart(s.mem, target, copy, s.hooks[ident].target);
    }
    forall k | 0 <= k < |r.mem| ensures (exists ident :: Covers(r, ident, k)) || r.mem[k] == original[k] {
      if target <= k < target + PATCH {
        assert Covers(r, new_, k);
      } else if ident :| Covers(s, ident, k) {
        assert Covers(r, ident, k);
      }
    }
  }

  /** If the same hooks stay patched and memory stays, so does the layering. */
  lemma SameLayers<K>(s: HookState<K>, r: HookState<K>, original: seq<byte>)
    requires Layered(s, original) && InRange(r) && r.mem == s.mem
    requires forall ident :: Patched(r, ident) <==> Patched(s, ident)
    requires forall ident | Patched(s, ident) && Patched(r, ident) ::
               && r.hooks[ident].target == s.hooks[ident].target && r.hooks[ident].backup == s.hooks[ident].backup
               && r.hooks[ident].copy == s.hooks[ident].copy
    ensures Layered(r, original)
  {
    assert forall ident, k :: Covers(r, ident, k) <==> Covers(s, ident, k);
  }

  lemma UninstallLayered<K>(s: HookState<K>, original: seq<byte>, handle: K)
    requires Shape(s) && Layered(s, original)
    ensures Layered(Uninstall(s, handle), original)
  {
    hide SlotsMatch, Layered;
    UninstallShape(s, handle);
    SameLayers(s, Uninstall(s, handle), original);
  }

  lemma ReverseMembers(xs: seq<nat>, x: nat)
    ensures x in Reverse(xs) <==> x in xs
  {
    if x in xs {
      var k :| 0 <= k < |xs| && xs[k] == x;
      assert Reverse(xs)[|xs| - 1 - k] == x;
    }
  }

  lemma UninstallAllLayered<K>(s: HookState<K>, original: seq<byte>)
    requires Shape(s) && Layered(s, original)
    ensures Layered(UninstallAll(s), original)
  {
    hide SlotsMatch, LinksMatch, Layered, UninstallAll;
    UninstallAllShape(s);
    UninstallAllEffect(s);
    var r := UninstallAll(s);
    forall ident ensures Patched(r, ident) <==> Patched(s, ident) {
      ReverseMembers(s.live, ident);
    }
    SameLayers(s, r, original);
  }

  lemma RemoveOneLayered<K>(w: Waiting<K>, original: seq<byte>, executing: Executing)
    requires Shape(w.s) && w.s.removal != [] && Layered(w.s, original)
    ensures Layered(RemoveOne(w, executing).s, original)
  {
    hide SlotsMatch, LinksMatch, RemoveOne;
    var s := w.s;
    var ident := s.removal[0];
    assert ident in s.removal;
    var h := s.hooks[ident];
    RemoveOneShape(w, executing);
    RemoveOneFrame(w, executing);
    var r := RemoveOne(w, executing).s;
    assert Patched(s, ident) && ident !in r.removal;
    assert r.mem == Overwrite(s.mem, h.target, h.backup);
    assert forall other :: Patched(r, other) <==> other != ident && Patched(s, other);
    forall other | Patched(r, other)
      ensures Bytes(r.mem, s.hooks[other].target) == Bytes(s.mem, s.hooks[other].target)
    {
      OverwriteApart(s.mem, h.target, h.backup, s.hooks[other].target);
    }
    forall k | 0 <= k < |r.mem| ensures (exists other :: Covers(r, other, k)) || r.mem[k] == original[k] {
      if h.target <= k < h.target + PATCH {
        assert r.mem[k] == h.backup[k - h.target] == original[k];
      } else if other :| Covers(s, other, k) {
        assert Covers(r, other, k);
      }
    }
  }

  lemma {:induction false} WaitLayered<K>(w: Waiting<K>, original: seq<byte>, executing: Executing)
    requires Shape(w.s) && Layered(w.s, original)
    ensures Layered(WaitForRemovals(w, executing).s, original)
    decreases |w.s.removal|
  {
    hide InRange, SlotsMatch, LinksMatch, ListsShaped, Layered;
    if w.s.removal != [] {
      RemoveOneShape(w, executing);
      RemoveOneLayered(w, original, executing);
      WaitLayered(RemoveOne(w, executing), original, executing);
    }
  }

  // ---------- restoration over runs ----------

  /** Every operation of the run is in order when its turn comes: pointers into the process, idents left, and new
    * targets apart from those in use. */
  ghost predicate Disjoint<K>(s: HookState<K>, ops: seq<Op<K>>)
    decreases |ops|
  {
    ops == [] ||
    (&& Shape(s) && OpOk(s, ops[0]) && s.counter + 1 < TWO_32
     && (ops[0].InstallOp? ==> NewTarget(s, ops[0].target))
     && Disjoint(Apply(s, ops[0]), ops[1..]))
  }

  ghost function RunOps<K>(s: HookState<K>, ops: seq<Op<K>>): (r: HookState<K>)
    requires Disjoint(s, ops)
    decreases |ops|
  {
    if ops == [] then s else RunOps(Apply(s, ops[0]), ops[1..])
  }

  lemma {:induction false} RunLayered<K>(s: HookState<K>, ops: seq<Op<K>>, original: seq<byte>)
    requires Shape(s) && Numbered(s) && Layered(s, original) && Disjoint(s, ops)
    ensures var r := RunOps(s, ops); Shape(r) && Numbered(r) && Layered(r, original)
    decreases |ops|
  {
    hide InRange, SlotsMatch, LinksMatch, ListsShaped, Layered, Numbered;
    if ops != [] {
      ApplyShape(s, ops[0]);
      match ops[0] {
        case InstallOp(handle, target, p) => InstallLayered(s, original, handle, target, p);
        case UninstallOp(handle) => UninstallLayered(s, original, handle);
        case UninstallAllOp => UninstallAllLayered(s, original);
        case WaitOp(executing) => WaitLayered(StartWait(s), original, executing);
      }
      RunLayered(Apply(s, ops[0]), ops[1..], original);
    }
  }

  /** Restoration: any run of installs on disjoint targets, uninstalls and waits that ends with no handle set and a
    * completed wait leaves memory as it was, whichever waits timed out. */
  lemma Restoration<K>(mem: seq<byte>, ops: seq<Op<K>>, executing: Executing)
    requires Disjoint(Initial<K>(mem), ops + [WaitOp(executing)])
    requires RunOps(Initial<K>(mem), ops + [WaitOp(executing)]).links == map[]
    ensures RunOps(Initial<K>(mem), ops + [WaitOp(executing)]).mem == mem
  {
    var s := Initial<K>(mem);
    InitialShape<K>(mem);
    RunLayered(s, ops + [WaitOp(executing)], mem);
    var r := RunOps(s, ops + [WaitOp(executing)]);
    LastWaitEmpties(s, ops, executing);
    assert forall ident :: !Patched(r, ident);
    assert forall ident, k :: !Covers(r, ident, k);
  }

  lemma {:induction false} LastWaitEmpties<K>(s: HookState<K>, ops: seq<Op<K>>, executing: Executing)
    requires Disjoint(s, ops + [WaitOp(executing)])
    ensures RunOps(s, ops + [WaitOp(executing)]).removal == []
    decreases |ops|
  {
    hide InRange, SlotsMatch, LinksMatch, ListsShaped;
    var all := ops + [WaitOp(executing)];
    if ops == [] {
      assert all[1..] == [];
      WaitShape(StartWait(s), executing);
    } else {
      assert all[1..] == ops[1..] + [WaitOp(executing)];
      LastWaitEmpties(Apply(s, ops[0]), ops[1..], executing);
    }
  }
}
