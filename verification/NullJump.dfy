/** Exactly when a thread can still jump through the cleared procedure of an uninstalled hook. */
module NullJump {
  import opened Limits
  import opened Words
  import opened HookLifecycle
  import opened HookRuns
  import opened HookSystem
  import opened HookSafety
  import opened HandlerReach
  import B = Barrier

  // ---------- who is bound for the jump ----------

  /** The thread was admitted to the handler of a hook that is not armed any more: its next step ends the process. */
  predicate Stuck<K>(s: System<K>, t: nat) {
    && Pending(Stack(s, t)) && Top(Stack(s, t)).ident in s.hooks.hooks
    && !s.hooks.hooks[Top(Stack(s, t)).ident].armed()
  }

  /** The thread table is full of such threads. */
  ghost predicate Jammed<K>(s: System<K>) {
    0 !in s.unit.ids && forall t | t != 0 && B.Registered(s.unit, t) :: Stuck(s, t)
  }

  predicate LocalAdmits<K>(s: System<K>, t: nat, ident: nat) {
    ident in s.hooks.hooks && B.Admits(View(s, ident).acl, t)
  }

  /** The thread can get to the jump: it was admitted; or its intro holds the self protection, the hook has no frame on
    * it, and the local list admits it; or it is past the check, with an intro that can get that far. */
  ghost predicate Bound<K>(s: System<K>, t: nat, ident: nat) {
    var a := Stack(s, t);
    || (Pending(a) && Top(a).ident == ident)
    || (LocalAdmits(s, t, ident) && NoFrameOf(Frames(a), ident)
        && (|| (IsOpening(a) && Top(Base(a)).ident == ident)
            || CanOpen(s, t, ident)))
  }

  ghost predicate CanOpen<K>(s: System<K>, t: nat, ident: nat) {
    var a := Stack(s, t);
    && a != [] && Top(a) == Activation(ident, Checked) && s.unit.isInitialized && !IsOpening(a)
    && (B.Registered(s.unit, t) || !Jammed(s))
  }

  ghost predicate SomeBound<K>(s: System<K>, ident: nat) {
    exists t :: t != 0 && Bound(s, t, ident)
  }

  // ---------- nobody else gets there ----------

  /** What a step leaves to the other threads. */
  ghost predicate Apart<K>(s: System<K>, r: System<K>, t: nat) {
    && r.unit.isInitialized == s.unit.isInitialized
    && forall other | other != t && other != 0 ::
         Stack(r, other) == Stack(s, other) && B.Registered(r.unit, other) == B.Registered(s.unit, other)
  }

  /** The local list of an uninstalled hook is not changed any more. */
  lemma LocalStays<K>(s: System<K>, step: Step<K>, t: nat, ident: nat)
    requires Inv(s) && Shape(s.hooks) && B.TableOk(s.unit) && Enabled(s, step) && Disarmed(s.hooks, ident)
    ensures LocalAdmits(Next(s, step), t, ident) ==> LocalAdmits(s, t, ident)
  {
    hide Inv, Shape, B.TableOk, B.Open, B.Decide, B.Outro, Apply, B.Admits;
    DisarmedStays(s, step, ident);
  }

  /** The steps that do not concern a thread. */
  predicate Global<K>(step: Step<K>) {
    step.Change? || step.Configure? || step.ConfigureGlobal? || step.Pop? || step.Free?
  }

  predicate OfThread<K>(step: Step<K>, t: nat) {
    match step
    case Enter(x, _) => x == t
    case Check(x) => x == t
    case OpenIntro(x, _) => x == t
    case DecideIntro(x, _, _, _) => x == t
    case Jump(x) => x == t
    case CallOutro(x) => x == t
    case Exit(x) => x == t
    case Detach(x) => x == t
    case _ => false
  }

  lemma StepIsApart<K>(s: System<K>, step: Step<K>, t: nat)
    requires Inv(s) && Shape(s.hooks) && B.TableOk(s.unit) && Enabled(s, step) && (Global(step) || OfThread(step, t))
    ensures Apart(s, Next(s, step), t)
  {
    hide Inv, Shape, B.TableOk, B.Open, B.Decide, B.Outro, Apply, PopHook, Release, IsOpening, Leave, Advance;
    if step.OpenIntro? {
      OpenIsApart(s, t, step.locked);
    } else if step.DecideIntro? {
      DecideIsApart(s, t, step.retAddress, step.addrOfRetAddr, step.granted);
    } else if step.CallOutro? {
      OutroIsApart(s, t);
    } else if step.Check? {
      LeaveCounts(s, t);
      AdvanceCounts(s, t, Checked);
    } else if step.Jump? {
      AdvanceCounts(s, t, Top(Stack(s, t)).phase.(handler := s.hooks.hooks[Top(Stack(s, t)).ident].proc));
    } else if step.Detach? {
      B.RemoveThreadKeeps(s.unit, t);
    }
  }

  lemma OpenIsApart<K>(s: System<K>, t: nat, locked: bool)
    requires Inv(s) && Shape(s.hooks) && B.TableOk(s.unit) && Enabled(s, OpenIntro(t, locked))
    ensures Apart(s, Next(s, OpenIntro(t, locked)), t)
  {
    hide Inv, Shape, B.TableOk, B.Open, Leave, Advance, B.Registered, ThreadOk, Opens, CountIn;
    LeaveCounts(s, t);
    OpenThread(s, t, locked);
    AdvanceCounts(s, t, Opening(!B.Registered(s.unit, t)));
    OpenUnit(s.unit, t, locked);
  }

  lemma DecideIsApart<K>(s: System<K>, t: nat, ret: nat, addr: nat, granted: bool)
    requires Inv(s) && Shape(s.hooks) && B.TableOk(s.unit) && Enabled(s, DecideIntro(t, ret, addr, granted))
    ensures Apart(s, Next(s, DecideIntro(t, ret, addr, granted)), t)
  {
    hide Inv, Shape, B.TableOk, B.Decide, Leave, Advance, B.Registered, B.HasEntries, Enters, ThreadOk, CountIn;
    LeaveCounts(s, t);
    DecideThread(s, t, ret, addr, granted);
    AdvanceCounts(s, t, Admitted(ret, addr, View(s, Top(Stack(s, t)).ident).callback, 0));
    DecideUnit(s.unit, t, Top(Stack(s, t)).phase.new_, View(s, Top(Stack(s, t)).ident), ret, addr, granted);
  }

  lemma OutroIsApart<K>(s: System<K>, t: nat)
    requires Inv(s) && Shape(s.hooks) && B.TableOk(s.unit) && Enabled(s, CallOutro(t))
    ensures Apart(s, Next(s, CallOutro(t)), t)
  {
    hide Inv, Shape, B.TableOk, B.Outro, B.OutroOk, Leave, B.Registered, ThreadOk, CountIn;
    LeaveCounts(s, t);
    OutroThread(s, t);
    OutroUnit(s.unit, t, View(s, Top(Stack(s, t)).ident));
  }

  lemma OpenUnit(u: B.Unit, t: nat, locked: bool)
    requires B.TableOk(u) && t != 0
    ensures B.Open(u, t, locked).1.isInitialized == u.isInitialized
    ensures B.Open(u, t, locked).1.globalAcl == u.globalAcl
  {
  }

  lemma DecideUnit(u: B.Unit, t: nat, new_: bool, hook: B.HookView, ret: nat, addr: nat, granted: bool)
    requires B.TableOk(u) && B.Registered(u, t) && hook.slot < MAX_HOOK_COUNT && (!new_ ==> B.HasEntries(u, t))
    ensures var r := B.Decide(u, t, new_, hook, ret, addr, granted).1;
            r.isInitialized == u.isInitialized && r.globalAcl == u.globalAcl && r.ids == u.ids
  {
    hide B.Negotiate, B.HasEntries;
  }

  lemma OutroUnit(u: B.Unit, t: nat, hook: B.HookView)
    requires B.TableOk(u) && B.OutroOk(u, t, hook)
    ensures var r := B.Outro(u, t, hook).1;
            r.isInitialized == u.isInitialized && r.globalAcl == u.globalAcl && r.ids == u.ids
  {
  }

  lemma DetachUnit(u: B.Unit, t: nat)
    requires B.TableOk(u)
    ensures B.Detach(u, t).isInitialized == u.isInitialized && B.Detach(u, t).globalAcl == u.globalAcl
    ensures !B.Registered(u, t) ==> B.Detach(u, t) == u
  {
  }

  /** Facts about a thread in an invariant state. */
  lemma ThreadFacts<K>(s: System<K>, t: nat)
    requires Inv(s) && t != 0
    ensures |s.unit.infos| == |s.unit.ids| && StackOk(s.hooks, Stack(s, t))
    ensures !B.Registered(s.unit, t) ==> Frames(Stack(s, t)) == [] && !IsOpening(Stack(s, t))
  {
    hide Shape, CountersOk, FramesShaped, InfoOk, ProtectionOk, Frames, IsOpening;
    assert ThreadOk(s.hooks, s.unit, Stack(s, t), t, t in s.current);
  }

  /** A jammed table stays so. */
  lemma StaysJammed<K>(s: System<K>, step: Step<K>)
    requires Inv(s) && Shape(s.hooks) && B.TableOk(s.unit) && Enabled(s, step) && Jammed(s)
    ensures Next(s, step).fault.Some? || Jammed(Next(s, step))
  {
    hide Inv, Shape, B.TableOk, B.Registered;
    if Global(step) {
      GlobalJammed(s, step);
    } else {
      var t := ThreadOf(s, step);
      OwnJammed(s, step, t);
    }
  }

  lemma GlobalJammed<K>(s: System<K>, step: Step<K>)
    requires Inv(s) && Shape(s.hooks) && B.TableOk(s.unit) && Enabled(s, step) && Jammed(s) && Global(step)
    ensures Jammed(Next(s, step))
  {
    hide InRange, ListsShaped, LinksMatch, SlotsMatch, ThreadOk, CountersOk, Apply, CountIn;
    var r := Next(s, step);
    StepKeeps(s, step);
    forall t | t != 0 && B.Registered(r.unit, t) ensures Stuck(r, t) {
      assert Stuck(s, t) && Stack(r, t) == Stack(s, t);
      assert Stack(s, t)[|Stack(s, t)| - 1] == Top(Stack(s, t));
      AllocatedIdents(r, t);
      if step.Change? {
        ChangeExtends(s.hooks, step.op);
      }
    }
  }

  lemma OwnJammed<K>(s: System<K>, step: Step<K>, t: nat)
    requires Inv(s) && Shape(s.hooks) && B.TableOk(s.unit) && Enabled(s, step) && Jammed(s) && OfThread(step, t)
    ensures Next(s, step).fault.Some? || Jammed(Next(s, step))
  {
    hide Inv, Shape, B.TableOk, B.Open, B.Decide, B.Outro, IsOpening, Leave, Advance, Frames, B.Registered, B.Detach;
    var r := Next(s, step);
    StepIsApart(s, step, t);
    if t != 0 {
      ThreadFacts(s, t);
    }
    if step.Jump? {
      if B.Registered(s.unit, t) {
        assert Stuck(s, t);
      } else {
        PendingIsFrame(Stack(s, t));
      }
    } else if step.Exit? {
      forall x | x != 0 && B.Registered(r.unit, x) ensures Stuck(r, x) {
        assert Stuck(s, x);
      }
    } else {
      NotRegistered(s, step, t);
      UnitStays(s, step, t);
      forall x | x != 0 && B.Registered(r.unit, x) ensures Stuck(r, x) {
        assert x != t && Stuck(s, x) && Stack(r, x) == Stack(s, x);
      }
    }
  }

  lemma PendingIsFrame(a: seq<Activation>)
    requires Pending(a)
    ensures Frames(a) == a
  {
  }

  /** A thread that is stuck makes no other step than its jump. */
  lemma NotRegistered<K>(s: System<K>, step: Step<K>, t: nat)
    requires Shape(s.hooks) && B.TableOk(s.unit) && Enabled(s, step) && Jammed(s) && OfThread(step, t)
    requires !step.Jump? && !step.Exit?
    ensures t != 0 && !B.Registered(s.unit, t)
  {
    hide Shape, B.TableOk, B.Registered, B.HasEntries;
    assert t != 0 && B.Registered(s.unit, t) ==> Stuck(s, t);
  }

  /** Without a cell for it a thread does not get into the table. */
  lemma UnitStays<K>(s: System<K>, step: Step<K>, t: nat)
    requires Inv(s) && Shape(s.hooks) && B.TableOk(s.unit) && Enabled(s, step) && Jammed(s) && OfThread(step, t)
    requires t != 0 && !B.Registered(s.unit, t) && !step.Jump? && !step.Exit?
    ensures Next(s, step).unit == s.unit && Next(s, step).hooks == s.hooks && !step.DecideIntro? && !step.CallOutro?
    ensures step.OpenIntro? ==> Next(s, step) == Leave(s, t)
  {
    hide Inv, Shape, B.TableOk, B.Decide, B.Outro, IsOpening, Leave, Advance, B.Registered, B.Detach;
    match step
    case Check(x) =>
      LeaveCounts(s, t);
      AdvanceCounts(s, t, Checked);
    case OpenIntro(x, locked) =>
      ThreadFacts(s, t);
      FreeCell(s.unit, t);
      LeaveCounts(s, t);
    case Detach(x) => DetachUnit(s.unit, t);
    case _ =>
  }

  // ---------- a step does not make a thread bound ----------

  /** If its own stack does not get bound, nobody does. */
  lemma NobodyBound<K>(s: System<K>, step: Step<K>, t: nat, ident: nat)
    requires Inv(s) && Shape(s.hooks) && B.TableOk(s.unit) && Enabled(s, step) && (Global(step) || OfThread(step, t))
    requires Disarmed(s.hooks, ident) && !SomeBound(s, ident) && Next(s, step).fault.None?
    requires t != 0 && OfThread(step, t) ==> !Bound(Next(s, step), t, ident)
    ensures !SomeBound(Next(s, step), ident)
  {
    hide Inv, Shape, B.TableOk, Frames, IsOpening, Base, NoFrameOf, Next, Enabled, LocalAdmits, Jammed, Disarmed;
    var r := Next(s, step);
    if Jammed(s) {
      StaysJammed(s, step);
    }
    StepIsApart(s, step, if Global(step) then 0 else t);
    forall x | x != 0 ensures !Bound(r, x, ident) {
      if x != t || Global(step) {
        assert !Bound(s, x, ident);
        LocalStays(s, step, x, ident);
      }
    }
  }

  lemma EnterNotBound<K>(s: System<K>, t: nat, x: nat, ident: nat)
    requires Inv(s) && Shape(s.hooks) && B.TableOk(s.unit) && Enabled(s, Enter(t, x)) && !Bound(s, t, ident)
    ensures !Bound(Next(s, Enter(t, x)), t, ident)
  {
    hide Inv, Shape, B.TableOk, Frames, IsOpening, Base, NoFrameOf, Jammed, LocalAdmits;
    OnTop(Stack(s, t), Activation(x, Counted));
    LocalSame(s, Next(s, Enter(t, x)), t, ident);
  }

  lemma LocalSame<K>(s: System<K>, r: System<K>, t: nat, ident: nat)
    requires r.hooks == s.hooks && r.settings == s.settings
    ensures LocalAdmits(r, t, ident) == LocalAdmits(s, t, ident)
  {
  }

  /** Off the stack again, nothing is bound any more. */
  lemma LeftNotBound<K>(s: System<K>, r: System<K>, t: nat, ident: nat)
    requires Inv(s) && t != 0 && Stack(s, t) != [] && Stack(r, t) == Rest(Stack(s, t)) && !Bound(s, t, ident)
    requires r.hooks == s.hooks && r.settings == s.settings
    ensures !Bound(r, t, ident)
  {
    hide Inv, Frames, IsOpening, Base, NoFrameOf, Jammed, LocalAdmits;
    ThreadFacts(s, t);
    StackForms(s.hooks, Stack(s, t));
    LocalSame(s, r, t, ident);
    BaseMoves(Stack(s, t));
  }

  lemma BaseMoves(a: seq<Activation>)
    requires a != []
    ensures Moving(a) ==> Base(a) == Rest(a)
    ensures !Moving(a) ==> Base(a) == a && (IsOpening(a) <==> Top(a).phase.Opening?)
    ensures !Moving(Rest(a)) ==> Base(Rest(a)) == Rest(a)
  {
  }

  lemma CheckNotBound<K>(s: System<K>, t: nat, ident: nat)
    requires Inv(s) && Shape(s.hooks) && B.TableOk(s.unit) && Enabled(s, Check(t)) && !Bound(s, t, ident)
    requires Disarmed(s.hooks, ident)
    ensures !Bound(Next(s, Check(t)), t, ident)
  {
    hide Inv, Shape, B.TableOk, Frames, IsOpening, Base, NoFrameOf, Jammed, LocalAdmits, Leave, Advance;
    var r := Next(s, Check(t));
    LeaveCounts(s, t);
    AdvanceCounts(s, t, Checked);
    if s.hooks.hooks[Top(Stack(s, t)).ident].armed() {
      ThreadFacts(s, t);
      StackForms(s.hooks, Stack(s, t));
      MovingBase(Stack(s, t));
      OnTop(Rest(Stack(s, t)), Top(Stack(s, t)).(phase := Checked));
      LocalSame(s, r, t, ident);
    } else {
      LeftNotBound(s, r, t, ident);
    }
  }

  lemma OpenNotBound<K>(s: System<K>, t: nat, locked: bool, ident: nat)
    requires Inv(s) && Shape(s.hooks) && B.TableOk(s.unit) && Enabled(s, OpenIntro(t, locked)) && !Bound(s, t, ident)
    ensures !Bound(Next(s, OpenIntro(t, locked)), t, ident)
  {
    hide Inv, Shape, B.TableOk, Frames, IsOpening, Base, NoFrameOf, LocalAdmits, Leave, Advance, B.Open, B.Registered;
    var a, r := Stack(s, t), Next(s, OpenIntro(t, locked));
    OpenSucceedsIff(s, t, locked);
    ThreadFacts(s, t);
    if Opens(s, t, locked) {
      var o := Opened(s, t, locked);
      var act := Top(a).(phase := Opening(!B.Registered(s.unit, t)));
      StackForms(s.hooks, a);
      OnTop(Rest(a), act);
      LocalSame(s, o, t, ident);
      assert Top(a).ident == ident ==> CanOpen(s, t, ident);
    } else {
      LeaveCounts(s, t);
      LeftNotBound(s, r, t, ident);
    }
  }

  lemma DecideNotBound<K>(s: System<K>, step: Step<K>, t: nat, ident: nat)
    requires Inv(s) && Shape(s.hooks) && B.TableOk(s.unit) && Enabled(s, step) && step.DecideIntro? && step.t == t
    requires !Bound(s, t, ident)
    ensures !Bound(Next(s, step), t, ident)
  {
    hide Inv, Shape, B.TableOk, Frames, IsOpening, Base, NoFrameOf, Jammed, Leave, Advance, B.Decide, B.Registered,
         B.HasEntries, B.Admits;
    var a, r := Stack(s, t), Next(s, step);
    DecideSucceedsIff(s, t, step.retAddress, step.addrOfRetAddr, step.granted);
    ThreadFacts(s, t);
    LeaveCounts(s, t);
    if Enters(s, t, step.granted) {
      var act := Top(a).(phase := Admitted(step.retAddress, step.addrOfRetAddr, View(s, Top(a).ident).callback, 0));
      AdvanceCounts(s, t, act.phase);
      StackForms(s.hooks, a);
      OnTop(Rest(a), act);
      BaseMoves(a);
    } else {
      LeftNotBound(s, r, t, ident);
    }
  }

  lemma JumpNotBound<K>(s: System<K>, t: nat, ident: nat)
    requires Inv(s) && Shape(s.hooks) && B.TableOk(s.unit) && Enabled(s, Jump(t)) && !Bound(s, t, ident)
    ensures Next(s, Jump(t)).fault != Some(ident)
    ensures Next(s, Jump(t)).fault.None? ==> !Bound(Next(s, Jump(t)), t, ident)
  {
    hide Inv, Shape, B.TableOk, Frames, IsOpening, Base, NoFrameOf, Jammed, LocalAdmits, Advance;
    var a := Stack(s, t);
    var act := Top(a).(phase := Top(a).phase.(handler := s.hooks.hooks[Top(a).ident].proc));
    AdvanceCounts(s, t, act.phase);
    ThreadFacts(s, t);
    StackForms(s.hooks, a);
    OnTop(Rest(a), act);
  }

  lemma OtherNotBound<K>(s: System<K>, step: Step<K>, t: nat, ident: nat)
    requires Inv(s) && Shape(s.hooks) && B.TableOk(s.unit) && Enabled(s, step) && !Bound(s, t, ident) && t != 0
    requires (step.CallOutro? || step.Exit? || step.Detach?) && step.t == t
    ensures Next(s, step).fault.None? && !Bound(Next(s, step), t, ident)
  {
    hide Inv, Shape, B.TableOk, Frames, IsOpening, Base, NoFrameOf, Jammed, LocalAdmits, Leave, B.Outro, B.Detach,
         B.Registered;
    var r := Next(s, step);
    if step.CallOutro? {
      LeaveCounts(s, t);
      LeftNotBound(s, r, t, ident);
    } else if step.Exit? {
      LocalSame(s, r, t, ident);
      assert Stack(r, t) == Stack(s, t) && r.unit == s.unit;
      JammedSame(s, r);
    } else {
      assert !IsOpening([]) by {
        BareStack();
      }
    }
  }

  lemma BareStack()
    ensures !IsOpening([])
  {
  }

  lemma JammedSame<K>(s: System<K>, r: System<K>)
    requires r.unit == s.unit && r.hooks == s.hooks && r.stacks == s.stacks
    ensures Jammed(r) == Jammed(s)
  {
    assert forall t :: Stuck(r, t) == Stuck(s, t);
  }

  lemma OwnNotBound<K>(s: System<K>, step: Step<K>, t: nat, ident: nat)
    requires Inv(s) && Shape(s.hooks) && B.TableOk(s.unit) && Enabled(s, step) && Disarmed(s.hooks, ident)
    requires OfThread(step, t) && t != 0 && !Bound(s, t, ident)
    ensures Next(s, step).fault != Some(ident)
    ensures Next(s, step).fault.None? ==> !Bound(Next(s, step), t, ident)
  {
    hide Inv, Shape, B.TableOk, Next, Enabled, Bound, Disarmed;
    if !step.Jump? {
      NoFault(s, step);
    }
    match step
    case Enter(_, x) => EnterNotBound(s, t, x, ident);
    case Check(_) => CheckNotBound(s, t, ident);
    case OpenIntro(_, locked) => OpenNotBound(s, t, locked, ident);
    case DecideIntro(_, _, _, _) => DecideNotBound(s, step, t, ident);
    case Jump(_) => JumpNotBound(s, t, ident);
    case CallOutro(_) => OtherNotBound(s, step, t, ident);
    case Exit(_) => OtherNotBound(s, step, t, ident);
    case Detach(_) => OtherNotBound(s, step, t, ident);
  }

  lemma StepKeepsFree<K>(s: System<K>, step: Step<K>, ident: nat)
    requires Inv(s) && Shape(s.hooks) && B.TableOk(s.unit) && Enabled(s, step) && Disarmed(s.hooks, ident)
    requires !SomeBound(s, ident)
    ensures Next(s, step).fault != Some(ident)
    ensures Next(s, step).fault.Some? || !SomeBound(Next(s, step), ident)
  {
    hide Inv, Shape, B.TableOk, Next, Enabled, Bound, Disarmed;
    if Global(step) {
      GlobalNoFault(s, step);
      NobodyBound(s, step, 0, ident);
    } else {
      var t := ThreadOf(s, step);
      assert !Bound(s, t, ident);
      OwnNotBound(s, step, t, ident);
      if Next(s, step).fault.None? {
        NobodyBound(s, step, t, ident);
      }
    }
  }

  lemma ThreadOf<K>(s: System<K>, step: Step<K>) returns (t: nat)
    requires Shape(s.hooks) && B.TableOk(s.unit) && Enabled(s, step) && !Global(step)
    ensures OfThread(step, t) && t != 0
  {
    hide Shape, B.TableOk, B.Registered, B.HasEntries;
    t := match step
      case Enter(x, _) => x
      case Check(x) => x
      case OpenIntro(x, _) => x
      case DecideIntro(x, _, _, _) => x
      case Jump(x) => x
      case CallOutro(x) => x
      case Exit(x) => x
      case Detach(x) => x;
  }

  lemma GlobalNoFault<K>(s: System<K>, step: Step<K>)
    requires Shape(s.hooks) && B.TableOk(s.unit) && Enabled(s, step) && Global(step)
    ensures Next(s, step).fault.None?
  {
    hide Shape, B.TableOk, Apply, PopHook, Release;
  }

  lemma NoFault<K>(s: System<K>, step: Step<K>)
    requires Shape(s.hooks) && B.TableOk(s.unit) && Enabled(s, step) && !step.Jump?
    ensures Next(s, step).fault.None?
  {
    hide Shape, B.TableOk, Apply, PopHook, Release, B.Open, B.Decide, B.Outro, B.Detach;
  }

  /** No continuation jumps through the cleared procedure unless a thread is bound for it. */
  lemma {:induction false} NeverFaults<K>(s: System<K>, steps: seq<Step<K>>, ident: nat)
    requires Inv(s) && Runs(s, steps) && Disarmed(s.hooks, ident) && s.fault != Some(ident)
    requires s.fault.Some? || !SomeBound(s, ident)
    ensures After(s, steps).fault != Some(ident)
    decreases |steps|
  {
    hide Inv, Next, Disarmed, SomeBound, Shape, B.TableOk;
    if steps != [] {
      FaultStops(s, steps[0]);
      StepKeeps(s, steps[0]);
      DisarmedStays(s, steps[0], ident);
      StepKeepsFree(s, steps[0], ident);
      NeverFaults(Next(s, steps[0]), steps[1..], ident);
    }
  }

  lemma FaultStops<K>(s: System<K>, step: Step<K>)
    requires Shape(s.hooks) && B.TableOk(s.unit) && Enabled(s, step)
    ensures s.fault.None?
  {
    hide Shape, B.TableOk;
  }
}
