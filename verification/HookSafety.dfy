/** What holds in every reachable state of hooks and barrier together. */
module HookSafety {
  import opened Limits
  import opened Words
  import opened HookLifecycle
  import opened HookRuns
  import opened HookSystem
  import B = Barrier

  // ---------- safety ----------

  /** What holds of a thread with stack `a`: its executing entries are exactly its handler frames, each with the ident
    * of its hook and the return address that the intro saved; no hook has two frames; the nesting is at most
    * 1024; the self protection is held exactly during an intro; a callback is to be had exactly when the
    * last intro or outro past the self protection was a successful intro, and then it and the return address are
    * those of the newest frame. */
  ghost predicate ThreadSafe<K>(h: HookState<K>, u: B.Unit, a: seq<Activation>, t: nat, isCurrent: bool)
    requires |u.infos| == |u.ids|
  {
    var f := Frames(a);
    && (B.Registered(u, t) && B.InfoOf(u, t).entries.Some? ==>
          var entries := B.InfoOf(u, t).entries.value;
          && (forall i | 0 <= i < |entries| :: entries[i].isExecuting <==> HasFrame(h, f, i))
          && FramesOk(h, f, entries))
    && (IsOpening(a) <==> B.Registered(u, t) && B.InfoOf(u, t).isProtected)
    && (!B.Registered(u, t) || B.InfoOf(u, t).entries.None? ==> f == [])
    && (forall k | 0 <= k < |f| :: f[k].phase.Admitted?)
    && (forall j, k | 0 <= j < k < |f| :: f[j].ident != f[k].ident)
    && |f| <= 1024
    && (B.CallbackOf(u, t).Some? <==> isCurrent)
    && (isCurrent ==>
          && f != [] && B.CallbackOf(u, t).value == Top(f).phase.callback
          && B.CurrentEntry(u, t).Some? && B.CurrentEntry(u, t).value.retAddress == Top(f).phase.retAddress)
  }

  lemma ThreadOkIsSafe<K>(h: HookState<K>, u: B.Unit, a: seq<Activation>, t: nat, isCurrent: bool)
    requires Shape(h) && B.TableOk(u) && ThreadOk(h, u, a, t, isCurrent)
    ensures ThreadSafe(h, u, a, t, isCurrent)
  {
    hide InRange, ListsShaped, LinksMatch, SlotsMatch, Frames, IsOpening, Base;
    var f := Frames(a);
    DepthBounded(h, f);
    assert f != [] ==> f[|f| - 1] == Top(f);
  }

  /** The barrier is safe for every thread in every reachable state. */
  lemma BarrierSafety<K>(mem: seq<byte>, auxUlib: bool, steps: seq<Step<K>>, t: nat)
    requires Runs(Loaded<K>(mem, auxUlib), steps) && t != 0
    ensures var s := After(Loaded<K>(mem, auxUlib), steps);
            B.TableOk(s.unit) && ThreadSafe(s.hooks, s.unit, Stack(s, t), t, t in s.current)
  {
    hide ThreadOk, ThreadSafe, Shape, Numbered;
    InitialInv<K>(mem, auxUlib);
    RunKeeps(Loaded<K>(mem, auxUlib), steps);
    var s := After(Loaded<K>(mem, auxUlib), steps);
    ThreadOkIsSafe(s.hooks, s.unit, Stack(s, t), t, t in s.current);
  }

  /** In every reachable state the execution counter of a hook is zero if and only if no thread is between its increment
    * and its decrement. */
  lemma CounterExact<K>(mem: seq<byte>, auxUlib: bool, steps: seq<Step<K>>, ident: nat)
    requires Runs(Loaded<K>(mem, auxUlib), steps) && ident in After(Loaded<K>(mem, auxUlib), steps).hooks.hooks
    ensures var s := After(Loaded<K>(mem, auxUlib), steps);
            && Counter(s, ident) >= 0
            && (Counter(s, ident) == 0 <==> forall t, k | 0 <= k < |Stack(s, t)| :: Stack(s, t)[k].ident != ident)
  {
    hide ThreadOk, Shape, Numbered, CountersOk;
    InitialInv<K>(mem, auxUlib);
    RunKeeps(Loaded<K>(mem, auxUlib), steps);
    CounterTells(After(Loaded<K>(mem, auxUlib), steps), ident);
  }

  /** In every reachable state a thread that is counted keeps the hook's record and slot: neither is freed or given to
    * another hook under it. */
  lemma SlotReuseSafety<K>(mem: seq<byte>, auxUlib: bool, steps: seq<Step<K>>, t: nat, k: nat)
    requires Runs(Loaded<K>(mem, auxUlib), steps)
    requires k < |Stack(After(Loaded<K>(mem, auxUlib), steps), t)|
    ensures var s := After(Loaded<K>(mem, auxUlib), steps);
            var ident := Stack(s, t)[k].ident;
            && ident in s.hooks.hooks && s.hooks.hooks[ident].slot < |s.hooks.slots|
            && s.hooks.slots[s.hooks.hooks[ident].slot] == ident
  {
    hide InRange, ListsShaped, LinksMatch, Numbered, CountersOk;
    InitialInv<K>(mem, auxUlib);
    RunKeeps(Loaded<K>(mem, auxUlib), steps);
    AllocatedIdents(After(Loaded<K>(mem, auxUlib), steps), t);
  }

  /** At first the global list admits every thread, and a hook whose local list was not set intercepts nobody. */
  lemma InitialLists<K>(mem: seq<byte>, auxUlib: bool, s: System<K>, ident: nat, t: nat)
    requires ident in s.hooks.hooks && ident !in s.settings
    ensures B.Admits(Loaded<K>(mem, auxUlib).unit.globalAcl, t)
    ensures forall global :: !B.Intercepted(global, View(s, ident).acl, t)
  {
  }

  // ---------- exactly when an intro succeeds ----------

  /** The first part of an intro gets the self protection exactly if the loader lock is not held, the barrier is
    * initialised, and the thread is registered and not within another intro already, or there is a free cell for it;
    * otherwise the table is as before. */
  lemma OpenSucceedsIff<K>(s: System<K>, t: nat, locked: bool)
    requires Inv(s) && Enabled(s, OpenIntro(t, locked))
    ensures B.Open(s.unit, t, locked).0 <==> Opens(s, t, locked)
    ensures !B.Open(s.unit, t, locked).0 ==> B.Open(s.unit, t, locked).1 == s.unit
  {
    hide Inv, Enabled;
    OpenThread(s, t, locked);
  }

  /** The second part succeeds exactly if the entries can be had, the hook has no frame on the thread, and both lists
    * admit the thread. */
  lemma DecideSucceedsIff<K>(s: System<K>, t: nat, ret: nat, addr: nat, granted: bool)
    requires Inv(s) && Enabled(s, DecideIntro(t, ret, addr, granted))
    ensures View(s, Top(Stack(s, t)).ident).slot < MAX_HOOK_COUNT
    ensures var hook := View(s, Top(Stack(s, t)).ident);
            B.Decide(s.unit, t, Top(Stack(s, t)).phase.new_, hook, ret, addr, granted).0 <==> Enters(s, t, granted)
  {
    hide Inv, Enters;
    DecideThread(s, t, ret, addr, granted);
  }

  /** The intro as one call, for a thread that is not within another intro. */
  lemma IntroSucceedsIff<K>(s: System<K>, t: nat, ret: nat, addr: nat, locked: bool, granted: bool)
    requires Inv(s) && Enabled(s, OpenIntro(t, locked)) && B.HasEntries(s.unit, t)
    ensures View(s, Top(Stack(s, t)).ident).slot < MAX_HOOK_COUNT
    ensures var (a, hook) := (Stack(s, t), View(s, Top(Stack(s, t)).ident));
            B.Intro(s.unit, t, hook, ret, addr, locked, granted).0
            <==> && Opens(s, t, locked) && (!B.Registered(s.unit, t) ==> granted) && NoFrameOf(Frames(a), hook.ident)
                 && B.Admits(s.unit.globalAcl, t) && B.Admits(hook.acl, t)
  {
    hide Inv, NoFrameOf, B.Open, B.Decide, B.Intro, B.Admits, Frames, IsOpening, Shape, B.TableOk;
    var ident := Top(Stack(s, t)).ident;
    SlotOf(s, ident);
    B.IntroSplits(s.unit, t, View(s, ident), ret, addr, locked, granted);
    OpenSucceedsIff(s, t, locked);
    if Opens(s, t, locked) {
      var o := Opened(s, t, locked);
      DecideSucceedsIff(o, t, ret, addr, granted);
    }
  }

  lemma SlotOf<K>(s: System<K>, ident: nat)
    requires Inv(s) && ident in s.hooks.hooks
    ensures s.hooks.hooks[ident].slot < MAX_HOOK_COUNT && B.TableOk(s.unit) && Shape(s.hooks)
    ensures |s.unit.infos| == |s.unit.ids|
  {
    hide InRange, ListsShaped, LinksMatch, CountersOk, ThreadOk;
  }

  /** The state between the two parts of an intro. */
  lemma Opened<K>(s: System<K>, t: nat, locked: bool) returns (o: System<K>)
    requires Inv(s) && Enabled(s, OpenIntro(t, locked)) && Opens(s, t, locked)
    ensures o == Next(s, OpenIntro(t, locked)) && Inv(o) && At(o, t) && o.hooks == s.hooks && o.settings == s.settings
    ensures o.unit == B.Open(s.unit, t, locked).1 && o.unit.globalAcl == s.unit.globalAcl && o.current == s.current
    ensures B.Registered(o.unit, t) && (B.Registered(s.unit, t) && B.HasEntries(s.unit, t) ==> B.HasEntries(o.unit, t))
    ensures Stack(o, t) == Rest(Stack(s, t)) + [Activation(Top(Stack(s, t)).ident, Opening(!B.Registered(s.unit, t)))]
    ensures Frames(Stack(o, t)) == Frames(Stack(s, t))
              && forall other | other != t :: Stack(o, other) == Stack(s, other)
  {
    hide InRange, ListsShaped, LinksMatch, SlotsMatch, CountersOk, B.AddThread, FramesShaped, Frames, IsOpening, Base,
         EntriesOk, InfoOk;
    var a, u := Stack(s, t), s.unit;
    assert ThreadOk(s.hooks, u, a, t, t in s.current);
    OpenKeeps(s, t, locked);
    OpenThread(s, t, locked);
    AdvanceCounts(s, t, Opening(!B.Registered(u, t)));
    o := Next(s, OpenIntro(t, locked));
    StackForms(s.hooks, a);
    MovingBase(a);
    NotOpening(Rest(a));
    OnTop(Rest(a), Top(a).(phase := Opening(!B.Registered(u, t))));
    if B.Registered(u, t) {
      B.SetInfoKeeps(u, t, B.InfoOf(u, t).(isProtected := true));
    } else {
      B.AddThreadKeeps(u, t);
      B.SetInfoKeeps(B.AddThread(u, t).value, t, B.NO_THREAD.(isProtected := true));
    }
  }

  // ---------- what the barrier asserts and takes for granted ----------

  /** The integrity checks of LhBarrierOutro never fail: a thread inside a handler can always leave it. */
  lemma OutroChecksHold<K>(s: System<K>, t: nat)
    requires Inv(s) && s.fault.None? && At(s, t) && !Outbound(s, t)
    requires Top(Stack(s, t)).phase.Admitted? && Top(Stack(s, t)).phase.inside()
    ensures Enabled(s, CallOutro(t))
  {
    hide InRange, ListsShaped, LinksMatch, SlotsMatch, EntriesOk, Frames, IsOpening, CountersOk;
    var a := Stack(s, t);
    assert ThreadOk(s.hooks, s.unit, a, t, t in s.current);
    StackForms(s.hooks, a);
    FrameMarked(s.hooks, a, B.InfoOf(s.unit, t).entries.value);
  }

  lemma FrameMarked<K>(h: HookState<K>, f: seq<Activation>, entries: seq<B.RuntimeInfo>)
    requires EntriesOk(h, f, entries) && f != []
    ensures Top(f).ident in h.hooks && h.hooks[Top(f).ident].slot < |entries|
    ensures entries[h.hooks[Top(f).ident].slot].isExecuting
  {
    assert f[|f| - 1] == Top(f);
  }

  /** The thread has its entries, if it is registered, or is about to get them. */
  ghost predicate EquippedAt(u: B.Unit, a: seq<Activation>, t: nat)
    requires |u.infos| == |u.ids|
  {
    B.HasEntries(u, t) || (IsOpening(a) && Top(Base(a)).phase.new_)
  }

  ghost predicate Equipped<K>(s: System<K>) {
    |s.unit.infos| == |s.unit.ids| && forall t | t != 0 :: EquippedAt(s.unit, Stack(s, t), t)
  }

  ghost predicate Granted<K>(step: Step<K>) {
    step.DecideIntro? ==> step.granted
  }

  /** If one thread's entry and stack change, the others are as equipped as before. */
  lemma OthersEquipped<K>(s: System<K>, r: System<K>, t: nat)
    requires Equipped(s) && B.OthersKept(s.unit, r.unit, t) && t != 0 && EquippedAt(r.unit, Stack(r, t), t)
    requires forall other | other != t :: Stack(r, other) == Stack(s, other)
    ensures Equipped(r)
  {
    hide IsOpening, Base;
    forall other | other != 0 ensures EquippedAt(r.unit, Stack(r, other), other) {
      assert EquippedAt(s.unit, Stack(s, other), other);
    }
  }

  lemma SameTable<K>(s: System<K>, r: System<K>)
    requires Equipped(s) && r.unit.ids == s.unit.ids && r.unit.infos == s.unit.infos && r.stacks == s.stacks
    ensures Equipped(r)
  {
    hide IsOpening, Base;
    forall t | t != 0 ensures EquippedAt(r.unit, Stack(r, t), t) {
      assert EquippedAt(s.unit, Stack(s, t), t);
    }
  }

  lemma SelfKept(u: B.Unit, t: nat)
    requires |u.infos| == |u.ids|
    ensures B.OthersKept(u, u, t)
  {
  }

  lemma StepEquips<K>(s: System<K>, step: Step<K>)
    requires Inv(s) && Equipped(s) && Enabled(s, step) && Granted(step)
    ensures Equipped(Next(s, step))
  {
    hide Inv, Enabled, Next, Equipped;
    match step
    case Enter(t, ident) => MoveEquips(s, step, t);
    case Check(t) => MoveEquips(s, step, t);
    case OpenIntro(t, locked) => OpenEquips(s, t, locked);
    case DecideIntro(t, ret, addr, granted) => DecideEquips(s, t, ret, addr);
    case Jump(t) => JumpEquips(s, t);
    case CallOutro(t) => OutroEquips(s, t);
    case Detach(t) => DetachEquips(s, t);
    case _ => OtherEquips(s, step);
  }

  lemma OtherEquips<K>(s: System<K>, step: Step<K>)
    requires Inv(s) && Equipped(s) && Enabled(s, step)
    requires step.Change? || step.Configure? || step.ConfigureGlobal? || step.Pop? || step.Free? || step.Exit?
    ensures Equipped(Next(s, step))
  {
    hide InRange, ListsShaped, LinksMatch, SlotsMatch, ThreadOk, CountersOk, Apply, Equipped;
    SameTable(s, Next(s, step));
  }

  lemma MoveEquips<K>(s: System<K>, step: Step<K>, t: nat)
    requires Inv(s) && Equipped(s) && Enabled(s, step) && (step.Enter? || step.Check?) && step.t == t
    ensures Equipped(Next(s, step))
  {
    hide InRange, ListsShaped, LinksMatch, SlotsMatch, CountersOk, FramesShaped, ThreadOk, Frames, IsOpening, Base,
         Equipped, Leave, Advance;
    var a := Stack(s, t);
    EquippedNow(s, t);
    SelfKept(s.unit, t);
    if step.Enter? {
      OnTop(a, Activation(step.ident, Counted));
    } else {
      StackForms(s.hooks, a);
      MovingBase(a);
      OnTop(Rest(a), Top(a).(phase := Checked));
      LeaveCounts(s, t);
      AdvanceCounts(s, t, Checked);
    }
    OthersEquipped(s, Next(s, step), t);
  }

  lemma OpenEquips<K>(s: System<K>, t: nat, locked: bool)
    requires Inv(s) && Equipped(s) && Enabled(s, OpenIntro(t, locked))
    ensures Equipped(Next(s, OpenIntro(t, locked)))
  {
    hide InRange, ListsShaped, LinksMatch, SlotsMatch, CountersOk, FramesShaped, InfoOk, B.AddThread, B.Open, Equipped,
         Opens;
    var a, r := Stack(s, t), Next(s, OpenIntro(t, locked));
    OpenThread(s, t, locked);
    EquippedNow(s, t);
    StackForms(s.hooks, a);
    if Opens(s, t, locked) {
      var o := Opened(s, t, locked);
      OnTop(Rest(a), Top(a).(phase := Opening(!B.Registered(s.unit, t))));
      NotBoth(s, t, locked);
    } else {
      LeaveCounts(s, t);
    }
    OthersEquipped(s, r, t);
  }

  lemma EquippedNow<K>(s: System<K>, t: nat)
    requires Inv(s) && Equipped(s) && t != 0
    ensures EquippedAt(s.unit, Stack(s, t), t) && StackOk(s.hooks, Stack(s, t))
  {
    hide Shape, CountersOk, FramesShaped, InfoOk, ProtectionOk, Frames, IsOpening, EquippedAt;
    assert ThreadOk(s.hooks, s.unit, Stack(s, t), t, t in s.current);
  }

  lemma NotBoth<K>(s: System<K>, t: nat, locked: bool)
    requires |s.unit.infos| == |s.unit.ids| && Opens(s, t, locked) && EquippedAt(s.unit, Stack(s, t), t)
    ensures B.Registered(s.unit, t) ==> B.HasEntries(s.unit, t)
  {
  }

  lemma DecideEquips<K>(s: System<K>, t: nat, ret: nat, addr: nat)
    requires Inv(s) && Equipped(s) && Enabled(s, DecideIntro(t, ret, addr, true))
    ensures Equipped(Next(s, DecideIntro(t, ret, addr, true)))
  {
    hide InRange, ListsShaped, LinksMatch, CountersOk, ThreadOk, B.Negotiate, B.BlankEntries, IsOpening, Base, Enters;
    var act, hook, u := Top(Stack(s, t)), View(s, Top(Stack(s, t)).ident), s.unit;
    DecideThread(s, t, ret, addr, true);
    LeaveCounts(s, t);
    AdvanceCounts(s, t, Admitted(ret, addr, hook.callback, 0));
    var info := B.InfoOf(u, t);
    var ready := if act.phase.new_ then info.(entries := Some(B.BlankEntries())) else info;
    NegotiateLength(u.globalAcl, ready, t, hook, ret, addr);
    B.SetInfoKeeps(u, t, B.Negotiate(u.globalAcl, ready, t, hook, ret, addr).1);
    OthersEquipped(s, Next(s, DecideIntro(t, ret, addr, true)), t);
  }

  lemma NegotiateLength(global: B.Acl, info: B.ThreadInfo, t: nat, hook: B.HookView, ret: nat, addr: nat)
    requires info.entries.Some? && hook.slot < |info.entries.value|
    ensures var next := B.Negotiate(global, info, t, hook, ret, addr).1;
            next.entries.Some? && |next.entries.value| == |info.entries.value|
  {
  }

  lemma JumpEquips<K>(s: System<K>, t: nat)
    requires Inv(s) && Equipped(s) && Enabled(s, Jump(t))
    ensures Equipped(Next(s, Jump(t)))
  {
    hide InRange, ListsShaped, LinksMatch, SlotsMatch, CountersOk, FramesShaped, ThreadOk, Frames, IsOpening, Base,
         Equipped, Advance;
    var a := Stack(s, t);
    if s.hooks.hooks[Top(a).ident].armed() {
      var act := Top(a).(phase := Top(a).phase.(handler := s.hooks.hooks[Top(a).ident].proc));
      EquippedNow(s, t);
      SelfKept(s.unit, t);
      StackForms(s.hooks, a);
      OnTop(Rest(a), act);
      AdvanceCounts(s, t, act.phase);
      OthersEquipped(s, Next(s, Jump(t)), t);
    } else {
      SameTable(s, Next(s, Jump(t)));
    }
  }

  lemma OutroEquips<K>(s: System<K>, t: nat)
    requires Inv(s) && Equipped(s) && Enabled(s, CallOutro(t))
    ensures Equipped(Next(s, CallOutro(t)))
  {
    hide InRange, ListsShaped, LinksMatch, SlotsMatch, CountersOk, Frames;
    var a := Stack(s, t);
    OutroThread(s, t);
    EquippedNow(s, t);
    StackForms(s.hooks, a);
    LeaveCounts(s, t);
    var info := B.InfoOf(s.unit, t);
    var hook := View(s, Top(a).ident);
    var entries := info.entries.value[hook.slot := info.entries.value[hook.slot].(isExecuting := false)];
    B.SetInfoKeeps(s.unit, t, info.(current := None, callback := 0, entries := Some(entries)));
    OthersEquipped(s, Next(s, CallOutro(t)), t);
  }

  lemma DetachEquips<K>(s: System<K>, t: nat)
    requires Inv(s) && Equipped(s) && Enabled(s, Detach(t))
    ensures Equipped(Next(s, Detach(t)))
  {
    hide InRange, ListsShaped, LinksMatch, SlotsMatch, CountersOk, ThreadOk, IsOpening, Base;
    B.RemoveThreadKeeps(s.unit, t);
    OthersEquipped(s, Next(s, Detach(t)), t);
  }

  lemma {:induction false} RunEquips<K>(s: System<K>, steps: seq<Step<K>>)
    requires Inv(s) && Equipped(s) && Runs(s, steps) && forall k | 0 <= k < |steps| :: Granted(steps[k])
    ensures Equipped(After(s, steps))
    decreases |steps|
  {
    hide Inv, Enabled, Next, Equipped, Granted;
    if steps != [] {
      StepKeeps(s, steps[0]);
      StepEquips(s, steps[0]);
      RunEquips(Next(s, steps[0]), steps[1..]);
    }
  }

  /** As long as every allocation of entries succeeds, an intro never gets past the self protection without its
    * entries. */
  lemma IntroNeverFaults<K>(mem: seq<byte>, auxUlib: bool, steps: seq<Step<K>>, t: nat)
    requires Runs(Loaded<K>(mem, auxUlib), steps) && forall k | 0 <= k < |steps| :: Granted(steps[k])
    requires t != 0 && Stack(After(Loaded<K>(mem, auxUlib), steps), t) != []
    requires Top(Stack(After(Loaded<K>(mem, auxUlib), steps), t)).phase.Opening?
    ensures var s := After(Loaded<K>(mem, auxUlib), steps);
            && |s.unit.infos| == |s.unit.ids| && B.Registered(s.unit, t)
            && (!Top(Stack(s, t)).phase.new_ ==> B.HasEntries(s.unit, t))
  {
    hide Enabled, Next, Frames, CountersOk, Shape;
    InitialInv<K>(mem, auxUlib);
    RunKeeps(Loaded<K>(mem, auxUlib), steps);
    LoadedEquipped<K>(mem, auxUlib);
    RunEquips(Loaded<K>(mem, auxUlib), steps);
    var s := After(Loaded<K>(mem, auxUlib), steps);
    assert ThreadOk(s.hooks, s.unit, Stack(s, t), t, t in s.current) && EquippedAt(s.unit, Stack(s, t), t);
  }

  lemma LoadedEquipped<K>(mem: seq<byte>, auxUlib: bool)
    ensures Equipped(Loaded<K>(mem, auxUlib))
  {
  }

  /** One failed allocation is enough: the thread stays registered without entries, and its next intro has none. */
  lemma FailedAllocationSticks(u: B.Unit, t: nat, hook: B.HookView, ret: nat, addr: nat)
    requires B.TableOk(u) && t != 0 && hook.slot < MAX_HOOK_COUNT && u.isInitialized && !B.Registered(u, t)
    ensures var (ok, r) := B.Intro(u, t, hook, ret, addr, false, false);
            |r.infos| == |r.ids| && !ok && (B.HasEntries(r, t) <==> B.AddThread(u, t).None?)
  {
    hide B.AddThread;
    if B.AddThread(u, t).Some? {
      B.AddThreadKeeps(u, t);
    } else {
      NotAdded(u, t);
    }
  }

  lemma NotAdded(u: B.Unit, t: nat)
    requires B.TableOk(u) && !B.Registered(u, t)
    ensures B.HasEntries(u, t)
  {
  }

  // ---------- the bound on the nesting ----------

  lemma DepthBounded<K>(h: HookState<K>, frames: seq<Activation>)
    requires forall k | 0 <= k < |frames| :: frames[k].ident in h.hooks
    requires forall j, k | 0 <= j < k < |frames| :: frames[j].ident != frames[k].ident
    requires Shape(h)
    ensures |frames| <= 1024
  {
    var slots := seq(|frames|, k requires 0 <= k < |frames| => h.hooks[frames[k].ident].slot);
    DistinctBelow(slots, 1024);
  }

  /** Different numbers below `n` are at most `n`. */
  lemma {:induction false} DistinctBelow(xs: seq<nat>, n: nat)
    requires forall k | 0 <= k < |xs| :: xs[k] < n
    requires forall j, k | 0 <= j < k < |xs| :: xs[j] != xs[k]
    ensures |xs| <= n
    decreases n
  {
    assert |xs| == 0 || xs[0] < n;
    if n > 0 {
      if k :| 0 <= k < |xs| && xs[k] == n - 1 {
        var rest := xs[..k] + xs[k + 1..];
        DistinctBelow(rest, n - 1);
      } else {
        DistinctBelow(xs, n - 1);
      }
    }
  }
}
