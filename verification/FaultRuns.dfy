/** Runs that jump through the cleared procedure of an uninstalled hook, built from any state that admits one. */
module FaultRuns {
  import opened Words
  import opened HookLifecycle
  import opened HookRuns
  import opened HookSystem
  import opened HookSafety
  import opened HandlerReach
  import opened NullJump
  import B = Barrier

  const OPEN_TO_ALL: B.Acl := B.Acl(true, [])
  const CLOSED_TO_ALL: B.Acl := B.Acl(false, [])

  // ---------- building runs ----------

  lemma {:induction false} RunsAppend<K>(s: System<K>, a: seq<Step<K>>, b: seq<Step<K>>)
    requires Runs(s, a) && Runs(After(s, a), b)
    ensures Runs(s, a + b) && After(s, a + b) == After(After(s, a), b)
    decreases |a|
  {
    hide Enabled, Next;
    if a == [] {
      assert a + b == b;
    } else {
      RunsAppend(Next(s, a[0]), a[1..], b);
      assert (a + b)[0] == a[0] && (a + b)[1..] == a[1..] + b;
    }
  }

  /** A run from a state in which all is as assumed to another one. */
  ghost predicate Leads<K>(s: System<K>, steps: seq<Step<K>>, r: System<K>) {
    Runs(s, steps) && r == After(s, steps) && Inv(r) && Equipped(r)
  }

  lemma NoSteps<K>(s: System<K>)
    requires Inv(s) && Equipped(s)
    ensures Leads(s, [], s)
  {
    hide Inv, Equipped;
  }

  lemma OneStep<K>(s: System<K>, step: Step<K>)
    requires Inv(s) && Equipped(s) && Shape(s.hooks) && B.TableOk(s.unit) && Enabled(s, step) && Granted(step)
    ensures Leads(s, [step], Next(s, step))
  {
    hide Inv, Equipped, Enabled, Next, Granted, Shape, B.TableOk;
    var r := Next(s, step);
    assert [step][0] == step && [step][1..] == [];
    assert Runs(r, []) && After(r, []) == r;
    StepKeeps(s, step);
    StepEquips(s, step);
  }

  lemma Join<K>(s: System<K>, a: seq<Step<K>>, m: System<K>, b: seq<Step<K>>, r: System<K>)
    requires Leads(s, a, m) && Leads(m, b, r)
    ensures Leads(s, a + b, r)
  {
    hide Inv, Equipped;
    RunsAppend(s, a, b);
  }

  lemma Led<K>(s: System<K>, steps: seq<Step<K>>, r: System<K>)
    requires Leads(s, steps, r)
    ensures Inv(r) && Equipped(r) && Shape(r.hooks) && B.TableOk(r.unit)
  {
    hide Inv, Equipped, Shape, B.TableOk;
    InvParts(r);
  }

  /** Everything but the stack, the departures and the entry of one thread is the same. */
  ghost predicate Same<K>(s: System<K>, r: System<K>, t: nat) {
    && r.hooks == s.hooks && r.settings == s.settings && r.unit.ids == s.unit.ids && r.fault == s.fault
    && r.unit.isInitialized == s.unit.isInitialized && r.unit.globalAcl == s.unit.globalAcl
    && forall other | other != t :: Stack(r, other) == Stack(s, other) && Leaving(r, other) == Leaving(s, other)
  }

  /** A thread can get out of the pages that it left. */
  lemma {:induction false} GetOut<K>(s: System<K>, t: nat) returns (steps: seq<Step<K>>, r: System<K>)
    requires Inv(s) && Equipped(s) && s.fault.None? && t != 0
    ensures Leads(s, steps, r) && r == s.(leaving := r.leaving) && Same(s, r, t) && !Outbound(r, t)
    decreases |Leaving(s, t)|
  {
    hide Inv, Equipped, Leads;
    if Outbound(s, t) {
      InvParts(s);
      var step := Exit(t);
      OneStep(s, step);
      var next := Next(s, step);
      Led(s, [step], next);
      var rest;
      rest, r := GetOut(next, t);
      Join(s, [step], next, rest, r);
      steps := [step] + rest;
    } else {
      NoSteps(s);
      steps, r := [], s;
    }
  }

  // ---------- leaving all trampolines and handlers ----------

  function Rank(a: seq<Activation>): (n: nat) {
    if a == [] then 0
    else match Top(a).phase
      case Counted => 3
      case Checked => 2
      case Opening(_) => 2
      case Admitted(_, _, _, handler) => if handler != 0 then 1 else 2
  }

  /** The step brings the thread closer to the end, with nothing admitted anew. */
  ghost predicate Progress<K>(s: System<K>, r: System<K>, t: nat) {
    var a, b := Stack(s, t), Stack(r, t);
    && Same(s, r, t) && !Pending(b)
    && (|b| < |a| || (|b| == |a| && Rank(b) < Rank(a)))
  }

  /** An activation on its way either leaves or passes the check. */
  ghost predicate Clears<K>(s: System<K>, r: System<K>, t: nat) {
    var a, b := Stack(s, t), Stack(r, t);
    a != [] && (b == Rest(a) || (Top(a).phase.Counted? && b == Rest(a) + [Activation(Top(a).ident, Checked)]))
  }

  lemma MovingOne<K>(s: System<K>, t: nat) returns (step: Step<K>)
    requires Inv(s) && Shape(s.hooks) && B.TableOk(s.unit) && s.fault.None? && t != 0 && !Outbound(s, t)
    requires Moving(Stack(s, t))
    ensures Enabled(s, step) && Granted(step) && Progress(s, Next(s, step), t) && Clears(s, Next(s, step), t)
  {
    hide Inv, Shape, B.TableOk, Leave, Advance, Frames, IsOpening;
    var a := Stack(s, t);
    AllocatedIdents(s, t);
    assert a[|a| - 1] == Top(a);
    ThreadFacts(s, t);
    StackForms(s.hooks, a);
    LeaveCounts(s, t);
    LeaveOthers(s, t);
    if Top(a).phase.Counted? {
      step := Check(t);
      AdvanceCounts(s, t, Checked);
    } else {
      step := OpenIntro(t, true);
    }
  }

  lemma LeaveOthers<K>(s: System<K>, t: nat)
    requires Stack(s, t) != []
    ensures forall other | other != t :: Leaving(Leave(s, t), other) == Leaving(s, other)
    ensures Leave(s, t).fault == s.fault
  {
  }

  /** With a global list that admits nobody, a thread in the table can always make a step towards leaving all
    * trampolines
    * and handlers, unless it is stuck. */
  lemma UnwindOne<K>(s: System<K>, t: nat) returns (step: Step<K>)
    requires Inv(s) && Equipped(s) && Shape(s.hooks) && B.TableOk(s.unit) && s.fault.None?
    requires t != 0 && B.Registered(s.unit, t) && !Outbound(s, t) && Stack(s, t) != [] && !Stuck(s, t)
    requires s.unit.globalAcl == CLOSED_TO_ALL
    ensures Enabled(s, step) && Granted(step) && Progress(s, Next(s, step), t)
  {
    hide Inv, Equipped, Shape, B.TableOk, Next, Progress, Stuck, Clears;
    var a := Stack(s, t);
    if Moving(a) {
      step := MovingOne(s, t);
    } else {
      AllocatedIdents(s, t);
      assert a[|a| - 1] == Top(a);
      if Top(a).phase.Opening? {
        step := DecideIntro(t, 0, 0, true);
        DecideProgress(s, t);
      } else if Pending(a) {
        step := Jump(t);
        JumpProgress(s, t);
      } else {
        step := CallOutro(t);
        OutroChecksHold(s, t);
        OutroProgress(s, t);
      }
    }
  }

  lemma DecideProgress<K>(s: System<K>, t: nat)
    requires Inv(s) && Equipped(s) && Shape(s.hooks) && B.TableOk(s.unit) && s.fault.None? && At(s, t)
    requires !Outbound(s, t) && Top(Stack(s, t)).phase.Opening? && B.Registered(s.unit, t)
    requires s.unit.globalAcl == CLOSED_TO_ALL
    ensures Enabled(s, DecideIntro(t, 0, 0, true)) && Progress(s, Next(s, DecideIntro(t, 0, 0, true)), t)
  {
    hide Inv, Equipped, Shape, B.TableOk, Leave, Advance, B.HasEntries, Frames, IsOpening, B.Decide, NoFrameOf;
    var a := Stack(s, t);
    DecideReady(s, t);
    DecideSucceedsIff(s, t, 0, 0, true);
    DecideUnit(s.unit, t, Top(a).phase.new_, View(s, Top(a).ident), 0, 0, true);
    ThreadFacts(s, t);
    StackForms(s.hooks, a);
    LeaveCounts(s, t);
    LeaveOthers(s, t);
  }

  lemma DecideReady<K>(s: System<K>, t: nat)
    requires Inv(s) && Equipped(s) && Shape(s.hooks) && B.TableOk(s.unit) && s.fault.None? && At(s, t)
    requires !Outbound(s, t) && Top(Stack(s, t)).phase.Opening?
    ensures B.Registered(s.unit, t) && Enabled(s, DecideIntro(t, 0, 0, true))
  {
    hide InRange, ListsShaped, LinksMatch, SlotsMatch, CountersOk, FramesShaped, InfoOk, ProtectionOk, Frames,
         B.HasEntries;
    assert ThreadOk(s.hooks, s.unit, Stack(s, t), t, t in s.current);
    OpeningBase(Stack(s, t));
    EquippedNow(s, t);
  }

  lemma JumpProgress<K>(s: System<K>, t: nat)
    requires Inv(s) && Shape(s.hooks) && B.TableOk(s.unit) && s.fault.None? && At(s, t) && !Outbound(s, t)
    requires Pending(Stack(s, t)) && !Stuck(s, t)
    ensures Enabled(s, Jump(t)) && Progress(s, Next(s, Jump(t)), t)
  {
    hide Inv, Shape, B.TableOk, Advance;
    AdvanceCounts(s, t, Top(Stack(s, t)).phase.(handler := s.hooks.hooks[Top(Stack(s, t)).ident].proc));
    AdvanceOthers(s, t, Top(Stack(s, t)).phase.(handler := s.hooks.hooks[Top(Stack(s, t)).ident].proc));
  }

  lemma AdvanceOthers<K>(s: System<K>, t: nat, phase: Phase)
    requires Stack(s, t) != []
    ensures Advance(s, t, phase) == s.(stacks := Advance(s, t, phase).stacks)
  {
  }

  lemma OutroProgress<K>(s: System<K>, t: nat)
    requires Inv(s) && Shape(s.hooks) && B.TableOk(s.unit) && Enabled(s, CallOutro(t))
    ensures Progress(s, Next(s, CallOutro(t)), t)
  {
    hide Inv, Shape, B.TableOk, Leave, Frames, IsOpening, B.Outro;
    ThreadFacts(s, t);
    StackForms(s.hooks, Stack(s, t));
    OutroUnit(s.unit, t, View(s, Top(Stack(s, t)).ident));
    LeaveCounts(s, t);
    LeaveOthers(s, t);
  }

  /** A thread in the table that is not stuck can leave all trampolines and handlers. */
  lemma {:induction false} Unwind<K>(s: System<K>, t: nat) returns (steps: seq<Step<K>>, r: System<K>)
    requires Inv(s) && Equipped(s) && s.fault.None? && t != 0 && B.Registered(s.unit, t) && !Stuck(s, t)
    requires s.unit.globalAcl == CLOSED_TO_ALL
    ensures Leads(s, steps, r) && Same(s, r, t) && Stack(r, t) == [] && Leaving(r, t) == []
    decreases |Stack(s, t)|, Rank(Stack(s, t))
  {
    hide Inv, Equipped, Enabled, Next, Granted, Leads;
    var out, m := GetOut(s, t);
    Led(s, out, m);
    if Stack(m, t) == [] {
      steps, r := out, m;
    } else {
      var step := UnwindOne(m, t);
      OneStep(m, step);
      var next := Next(m, step);
      Led(m, [step], next);
      var rest;
      rest, r := Unwind(next, t);
      Join(m, [step], next, rest, r);
      Join(s, out, m, [step] + rest, r);
      steps := out + ([step] + rest);
    }
  }

  /** An activation on its way moves on. */
  lemma MoveOn<K>(s: System<K>, t: nat) returns (steps: seq<Step<K>>, r: System<K>)
    requires Inv(s) && Equipped(s) && s.fault.None? && t != 0 && Moving(Stack(s, t))
    ensures Leads(s, steps, r) && Same(s, r, t) && Clears(s, r, t)
  {
    hide Inv, Equipped, Enabled, Next, Granted, Leads, Moving;
    var out, m := GetOut(s, t);
    Led(s, out, m);
    var step := MovingOne(m, t);
    OneStep(m, step);
    r := Next(m, step);
    Join(s, out, m, [step], r);
    steps := out + [step];
  }

  /** The activations on their way on top of an intro can get out of its way. */
  lemma {:induction false} ClearTop<K>(s: System<K>, t: nat) returns (steps: seq<Step<K>>, r: System<K>)
    requires Inv(s) && Equipped(s) && s.fault.None? && t != 0
    ensures Leads(s, steps, r) && Same(s, r, t) && Stack(r, t) == Base(Stack(s, t)) && !Outbound(r, t)
    decreases Rank(Stack(s, t))
  {
    hide Inv, Equipped, Leads, Outbound;
    if !Moving(Stack(s, t)) {
      steps, r := GetOut(s, t);
    } else {
      var move, next := MoveOn(s, t);
      Led(s, move, next);
      var rest;
      if Stack(next, t) == Rest(Stack(s, t)) {
        rest, r := GetOut(next, t);
      } else {
        rest, r := ClearTop(next, t);
        assert Rest(Stack(next, t)) == Rest(Stack(s, t));
      }
      Join(s, move, next, rest, r);
      steps := move + rest;
    }
  }

  // ---------- what is bound can get to the jump ----------

  lemma PendingFaults<K>(s: System<K>, t: nat) returns (steps: seq<Step<K>>, r: System<K>)
    requires Inv(s) && Equipped(s) && s.fault.None? && t != 0 && Stuck(s, t)
    ensures Leads(s, steps, r) && r.fault == Some(Top(Stack(s, t)).ident)
  {
    hide Inv, Equipped, Leads, Granted;
    var out, m := GetOut(s, t);
    Led(s, out, m);
    JumpFaults(m, t);
    var step := Jump(t);
    OneStep(m, step);
    r := Next(m, step);
    Join(s, out, m, [step], r);
    steps := out + [step];
  }

  lemma JumpFaults<K>(s: System<K>, t: nat)
    requires Shape(s.hooks) && B.TableOk(s.unit) && s.fault.None? && t != 0 && Stuck(s, t) && !Outbound(s, t)
    ensures Enabled(s, Jump(t)) && Next(s, Jump(t)).fault == Some(Top(Stack(s, t)).ident) && Granted(Step<K>.Jump(t))
  {
    hide Shape, B.TableOk;
  }

  /** The global list is set. */
  lemma SetGlobal<K>(s: System<K>, acl: B.Acl) returns (r: System<K>)
    requires Inv(s) && Equipped(s) && s.fault.None?
    ensures Leads(s, [ConfigureGlobal(acl)], r) && r == s.(unit := s.unit.(globalAcl := acl))
  {
    hide Inv, Equipped, Leads, Shape, B.TableOk;
    InvParts(s);
    r := Next(s, ConfigureGlobal(acl));
    OneStep(s, ConfigureGlobal(acl));
  }

  /** An intro with the self protection in hand gets its thread admitted once the global list admits everybody. */
  lemma OpeningFaults<K>(s: System<K>, t: nat) returns (steps: seq<Step<K>>, r: System<K>)
    requires Inv(s) && Equipped(s) && s.fault.None? && At(s, t) && Top(Stack(s, t)).phase.Opening?
    requires Disarmed(s.hooks, Top(Stack(s, t)).ident) && LocalAdmits(s, t, Top(Stack(s, t)).ident)
    requires NoFrameOf(Frames(Stack(s, t)), Top(Stack(s, t)).ident)
    ensures Leads(s, steps, r) && r.fault == Some(Top(Stack(s, t)).ident)
  {
    hide Inv, Equipped, Leads, Enabled, Next, NoFrameOf, Frames, LocalAdmits, Granted;
    var out, m := GetOut(s, t);
    Led(s, out, m);
    var c := SetGlobal(m, OPEN_TO_ALL);
    Led(m, [ConfigureGlobal(OPEN_TO_ALL)], c);
    LocalSame(s, c, t, Top(Stack(s, t)).ident);
    assert Stack(c, t) == Stack(s, t);
    DecideReady(c, t);
    var step := DecideIntro(t, 0, 0, true);
    DecideAdmits(c, t);
    GrantedDecide<K>(t);
    OneStep(c, step);
    var d := Next(c, step);
    Led(c, [step], d);
    var jump;
    jump, r := PendingFaults(d, t);
    Join(c, [step], d, jump, r);
    Join(m, [ConfigureGlobal(OPEN_TO_ALL)], c, [step] + jump, r);
    Join(s, out, m, [ConfigureGlobal(OPEN_TO_ALL)] + ([step] + jump), r);
    steps := out + ([ConfigureGlobal(OPEN_TO_ALL)] + ([step] + jump));
  }

  lemma GrantedDecide<K>(t: nat)
    ensures Granted(Step<K>.DecideIntro(t, 0, 0, true))
  {
  }

  lemma DecideAdmits<K>(c: System<K>, t: nat)
    requires Inv(c) && Shape(c.hooks) && B.TableOk(c.unit) && Enabled(c, DecideIntro(t, 0, 0, true))
    requires c.unit.globalAcl == OPEN_TO_ALL && LocalAdmits(c, t, Top(Stack(c, t)).ident)
    requires NoFrameOf(Frames(Stack(c, t)), Top(Stack(c, t)).ident) && Disarmed(c.hooks, Top(Stack(c, t)).ident)
    ensures var d := Next(c, DecideIntro(t, 0, 0, true));
            d.fault.None? && Stuck(d, t) && Top(Stack(d, t)).ident == Top(Stack(c, t)).ident
  {
    hide Inv, Shape, B.TableOk, NoFrameOf, Frames, B.Decide, Leave, Advance, B.HasEntries, B.Registered;
    DecideSucceedsIff(c, t, 0, 0, true);
    AdvanceCounts(c, t, Admitted(0, 0, View(c, Top(Stack(c, t)).ident).callback, 0));
    assert Enters(c, t, true);
  }

  /** In a full table a thread that is not stuck can leave its handlers and end. */
  lemma MakeRoom<K>(s: System<K>, t: nat) returns (steps: seq<Step<K>>, m: System<K>)
    requires Inv(s) && Equipped(s) && s.fault.None? && !B.Registered(s.unit, t) && 0 !in s.unit.ids && !Jammed(s)
    ensures Leads(s, steps, m) && 0 in m.unit.ids && m.fault.None?
    ensures m.hooks == s.hooks && m.settings == s.settings && m.unit.isInitialized == s.unit.isInitialized
    ensures Stack(m, t) == Stack(s, t) && Leaving(m, t) == Leaving(s, t)
  {
    hide Inv, Equipped, Leads, Enabled, Next, Stuck, Granted;
    var other :| other != 0 && B.Registered(s.unit, other) && !Stuck(s, other);
    var c := SetGlobal(s, CLOSED_TO_ALL);
    Led(s, [ConfigureGlobal(CLOSED_TO_ALL)], c);
    StuckSame(s, c, other);
    var rest, r := Unwind(c, other);
    Led(c, rest, r);
    var step := Step<K>.Detach(other);
    DetachFrees(r, other);
    OneStep(r, step);
    m := Next(r, step);
    assert t != other && Stack(r, t) == Stack(c, t) && Leaving(r, t) == Leaving(c, t);
    Join(c, rest, r, [step], m);
    Join(s, [ConfigureGlobal(CLOSED_TO_ALL)], c, rest + [step], m);
    steps := [ConfigureGlobal(CLOSED_TO_ALL)] + (rest + [step]);
  }

  lemma StuckSame<K>(s: System<K>, r: System<K>, t: nat)
    requires r.hooks == s.hooks && r.stacks == s.stacks
    ensures Stuck(r, t) == Stuck(s, t)
  {
  }

  lemma DetachFrees<K>(r: System<K>, t: nat)
    requires Shape(r.hooks) && B.TableOk(r.unit) && r.fault.None? && t != 0 && Stack(r, t) == [] && Leaving(r, t) == []
    requires B.Registered(r.unit, t)
    ensures Enabled(r, Detach(t)) && Granted(Step<K>.Detach(t))
    ensures var m := Next(r, Detach(t));
            0 in m.unit.ids && m == r.(unit := m.unit, current := m.current)
            && m.unit.isInitialized == r.unit.isInitialized
  {
    hide Shape;
    var i := B.Find(r.unit.ids, t);
    assert r.unit.ids[i := 0][i] == 0;
  }

  /** A thread past the check gets the self protection as soon as there is a cell for it in the table. */
  lemma CheckedFaults<K>(s: System<K>, t: nat, ident: nat) returns (steps: seq<Step<K>>, r: System<K>)
    requires Inv(s) && Equipped(s) && s.fault.None? && t != 0 && CanOpen(s, t, ident) && Disarmed(s.hooks, ident)
    requires LocalAdmits(s, t, ident) && NoFrameOf(Frames(Stack(s, t)), ident)
    ensures Leads(s, steps, r) && r.fault == Some(ident)
  {
    hide Inv, Equipped, Leads, Jammed, LocalAdmits, NoFrameOf, Frames, IsOpening, Enabled, Next, Opens, B.Registered;
    var room, m := [], s;
    if !B.Registered(s.unit, t) && 0 !in s.unit.ids {
      room, m := MakeRoom(s, t);
    } else {
      NoSteps(s);
    }
    Led(s, room, m);
    var out, g := GetOut(m, t);
    Led(m, out, g);
    AllocatedHere(g, t);
    OpensNow(g, t);
    var o := Opened(g, t, false);
    var step := Step<K>.OpenIntro(t, false);
    OneStep(g, step);
    Led(g, [step], o);
    LocalSame(s, o, t, ident);
    var rest;
    rest, r := OpeningFaults(o, t);
    Join(g, [step], o, rest, r);
    Join(m, out, g, [step] + rest, r);
    Join(s, room, m, out + ([step] + rest), r);
    steps := room + (out + ([step] + rest));
  }

  lemma AllocatedHere<K>(s: System<K>, t: nat)
    requires Inv(s) && t != 0 && Stack(s, t) != []
    ensures At(s, t)
  {
    hide Inv;
    AllocatedIdents(s, t);
    assert Stack(s, t)[|Stack(s, t)| - 1] == Top(Stack(s, t));
  }

  lemma OpensNow<K>(m: System<K>, t: nat)
    requires Shape(m.hooks) && B.TableOk(m.unit) && m.fault.None? && At(m, t) && !Outbound(m, t)
    requires Top(Stack(m, t)).phase.Checked?
    requires m.unit.isInitialized && !IsOpening(Stack(m, t)) && (B.Registered(m.unit, t) || 0 in m.unit.ids)
    ensures Enabled(m, OpenIntro(t, false)) && Opens(m, t, false) && Granted(Step<K>.OpenIntro(t, false))
    ensures Next(m, OpenIntro(t, false)).fault == m.fault
  {
    hide Shape, IsOpening, B.Open;
  }

  // ---------- main result ----------

  /** Some continuation jumps through the cleared procedure of an uninstalled hook, which ends the process, if and
    * only if a thread is bound for it. */
  lemma NullJumpReachableIff<K>(s: System<K>, ident: nat)
    requires Inv(s) && Equipped(s) && s.fault.None? && Disarmed(s.hooks, ident)
    ensures (exists steps :: Runs(s, steps) && After(s, steps).fault == Some(ident)) <==> SomeBound(s, ident)
  {
    hide Inv, Equipped, Disarmed, Runs, After, Bound;
    if SomeBound(s, ident) {
      var t :| t != 0 && Bound(s, t, ident);
      var steps := ReachFault(s, t, ident);
    }
    if exists steps :: Runs(s, steps) && After(s, steps).fault == Some(ident) {
      var steps :| Runs(s, steps) && After(s, steps).fault == Some(ident);
      if !SomeBound(s, ident) {
        NeverFaults(s, steps, ident);
      }
    }
  }

  lemma ReachFault<K>(s: System<K>, t: nat, ident: nat) returns (steps: seq<Step<K>>)
    requires Inv(s) && Equipped(s) && s.fault.None? && t != 0 && Bound(s, t, ident) && Disarmed(s.hooks, ident)
    ensures Runs(s, steps) && After(s, steps).fault == Some(ident)
  {
    hide Inv, Equipped, CanOpen, LocalAdmits, NoFrameOf, Frames, IsOpening, Base, Runs, After;
    var a := Stack(s, t);
    var r;
    if Pending(a) && Top(a).ident == ident {
      AllocatedHere(s, t);
      steps, r := PendingFaults(s, t);
    } else if CanOpen(s, t, ident) {
      steps, r := CheckedFaults(s, t, ident);
    } else {
      var clear, o := ClearTop(s, t);
      ClearedOpening(s, o, t, ident);
      Led(s, clear, o);
      AllocatedHere(o, t);
      LocalSame(s, o, t, ident);
      var rest;
      rest, r := OpeningFaults(o, t);
      Join(s, clear, o, rest, r);
      steps := clear + rest;
    }
  }

  lemma ClearedOpening<K>(s: System<K>, o: System<K>, t: nat, ident: nat)
    requires Stack(o, t) == Base(Stack(s, t)) && IsOpening(Stack(s, t)) && Top(Base(Stack(s, t))).ident == ident
    ensures Stack(o, t) != [] && Top(Stack(o, t)).phase.Opening? && Frames(Stack(o, t)) == Frames(Stack(s, t))
  {
  }

  // ---------- a run that ends in the jump ----------

  /** The next step of a run that is being built. */
  lemma Extend<K>(start: System<K>, steps: seq<Step<K>>, i: nat, s: System<K>) returns (r: System<K>)
    requires i < |steps| && Leads(start, steps[..i], s) && Granted(steps[i])
    requires Shape(s.hooks) && B.TableOk(s.unit) ==> Enabled(s, steps[i])
    ensures Shape(s.hooks) && B.TableOk(s.unit) && Enabled(s, steps[i]) && r == Next(s, steps[i])
    ensures Leads(start, steps[..i + 1], r) && Inv(r)
  {
    hide Inv, Equipped, Enabled, Next, Granted, Shape, B.TableOk;
    Led(start, steps[..i], s);
    OneStep(s, steps[i]);
    r := Next(s, steps[i]);
    Join(start, steps[..i], s, [steps[i]], r);
    assert steps[..i] + [steps[i]] == steps[..i + 1];
  }

  lemma OneHook(jumper: seq<byte>)
    requires |jumper| == 5
    ensures var h := Install(Initial<nat>(seq(16, _ => 0)), 1, 0, Ready(jumper, 1, 0));
            && h.live == [FIRST_IDENT] && h.links == map[1 := FIRST_IDENT] && h.counter == FIRST_IDENT + 1
            && h.removal == [] && h.hooks.Keys == {FIRST_IDENT} && h.hooks[FIRST_IDENT].armed()
            && var r := Uninstall(h, 1);
               && r.live == [] && r.links == map[] && r.counter == h.counter && r.removal == [FIRST_IDENT]
               && r.hooks.Keys == {FIRST_IDENT} && !r.hooks[FIRST_IDENT].armed()
  {
    var s := Initial<nat>(seq(16, _ => 0));
    assert FreeSlot(s.slots) == 0;
    var h := Install(s, 1, 0, Ready(jumper, 1, 0));
    assert Successors(h.live, FIRST_IDENT) == [];
  }

  /** A thread passes the check, and the hook is uninstalled before the intro of the thread. */
  ghost function TooLate(jumper: seq<byte>): (steps: seq<Step<nat>>) {
    [Change(InstallOp(1, 0, Ready(jumper, 1, 0))), Configure(FIRST_IDENT, OPEN_TO_ALL), Enter(7, FIRST_IDENT), Check(7),
     Change(UninstallOp(1))]
  }

  /** The library just loaded, and a hook installed. */
  lemma Installed(jumper: seq<byte>, steps: seq<Step<nat>>) returns (a: System<nat>)
    requires |jumper| == 5 && steps != [] && steps[0] == Change(InstallOp(1, 0, Ready(jumper, 1, 0)))
    ensures var start := Loaded<nat>(seq(16, _ => 0), true);
            && Leads(start, steps[..1], a) && Inv(a)
            && a == start.(hooks := Install(Initial<nat>(seq(16, _ => 0)), 1, 0, Ready(jumper, 1, 0)),
                           counters := a.counters)
            && Counter(a, FIRST_IDENT) == 0
  {
    hide Inv, Equipped, Shape, B.TableOk, Install, Leads;
    OneHook(jumper);
    var start := Loaded<nat>(seq(16, _ => 0), true);
    InitialInv<nat>(seq(16, _ => 0), true);
    LoadedEquipped<nat>(seq(16, _ => 0), true);
    NoSteps(start);
    assert steps[..0] == [];
    a := Extend(start, steps, 0, start);
  }

  lemma TooLateRuns(jumper: seq<byte>) returns (s: System<nat>)
    requires |jumper| == 5
    ensures var start := Loaded<nat>(seq(16, _ => 0), true);
            && Leads(start, TooLate(jumper), s)
            && s.hooks == Uninstall(Install(Initial<nat>(seq(16, _ => 0)), 1, 0, Ready(jumper, 1, 0)), 1)
            && s.unit == start.unit && s.stacks == map[7 := [Activation(FIRST_IDENT, Checked)]] && s.fault.None?
            && s.settings == map[FIRST_IDENT := OPEN_TO_ALL]
  {
    hide Inv, Equipped, Shape, B.TableOk, Install, Uninstall, Leads;
    OneHook(jumper);
    var steps := TooLate(jumper);
    assert steps[..5] == steps;
    var a := Installed(jumper, steps);
    var start := Loaded<nat>(seq(16, _ => 0), true);
    var b := Extend(start, steps, 1, a);
    var d := EnterAndCheck(start, steps, b);
    s := Extend(start, steps, 4, d);
  }

  /** A thread that has no activation yet enters the trampoline. */
  lemma EnterNext(b: System<nat>)
    requires Stack(b, 7) == [] && b.fault.None? && FIRST_IDENT in b.hooks.hooks
    ensures Granted(Step<nat>.Enter(7, FIRST_IDENT))
    ensures Shape(b.hooks) && B.TableOk(b.unit) ==>
              && Enabled(b, Enter(7, FIRST_IDENT))
              && var c := Next(b, Enter(7, FIRST_IDENT));
                 && c == b.(stacks := b.stacks[7 := [Activation(FIRST_IDENT, Counted)]], counters := c.counters)
                 && Counter(c, FIRST_IDENT) == Counter(b, FIRST_IDENT) + 1
  {
    hide Shape, B.TableOk;
    assert [] + [Activation(FIRST_IDENT, Counted)] == [Activation(FIRST_IDENT, Counted)];
  }

  lemma CheckNext(c: System<nat>)
    requires Stack(c, 7) == [Activation(FIRST_IDENT, Counted)] && Leaving(c, 7) == [] && c.fault.None?
    requires FIRST_IDENT in c.hooks.hooks
    ensures Granted(Step<nat>.Check(7))
    ensures Shape(c.hooks) && B.TableOk(c.unit) ==>
              && Enabled(c, Check(7))
              && Next(c, Check(7)) ==
                   if c.hooks.hooks[FIRST_IDENT].armed()
                   then c.(stacks := c.stacks[7 := [Activation(FIRST_IDENT, Checked)]]) else Leave(c, 7)
  {
    hide Shape, B.TableOk, Leave;
    assert Rest(Stack(c, 7)) + [Top(Stack(c, 7)).(phase := Checked)] == [Activation(FIRST_IDENT, Checked)];
  }

  lemma EnterAndCheck(start: System<nat>, steps: seq<Step<nat>>, b: System<nat>) returns (d: System<nat>)
    requires |steps| >= 4 && Leads(start, steps[..2], b)
    requires steps[2] == Enter(7, FIRST_IDENT) && steps[3] == Check(7)
    requires b.stacks == map[] && b.leaving == map[] && b.fault.None?
    requires FIRST_IDENT in b.hooks.hooks && b.hooks.hooks[FIRST_IDENT].armed()
    ensures Leads(start, steps[..4], d) && Inv(d)
    ensures d == b.(stacks := map[7 := [Activation(FIRST_IDENT, Checked)]], counters := d.counters)
  {
    hide Inv, Equipped, Shape, B.TableOk, Leads, Enabled, Next, Granted;
    EnterNext(b);
    var c := Extend(start, steps, 2, b);
    CheckNext(c);
    d := Extend(start, steps, 3, c);
  }

  /** After these steps the hook is uninstalled, nobody is inside its handler and nobody gets there any more, but the
    * run can go on to jump through the cleared procedure. */
  lemma NullJumpAfterUninstall(jumper: seq<byte>)
    requires |jumper| == 5
    ensures var start := Loaded<nat>(seq(16, _ => 0), true);
            && Runs(start, TooLate(jumper))
            && var s := After(start, TooLate(jumper));
               && Disarmed(s.hooks, FIRST_IDENT) && s.hooks.live == [] && s.hooks.links == map[]
               && (forall steps | Runs(s, steps) :: !InHandler(After(s, steps), FIRST_IDENT))
               && exists steps :: Runs(s, steps) && After(s, steps).fault == Some(FIRST_IDENT)
  {
    hide Inv, Equipped, Runs, After, Loaded, Install, Uninstall, TooLate, Bound, InHandler;
    var s := TooLateRuns(jumper);
    OneHook(jumper);
    BoundAtStart(s);
    forall steps | Runs(s, steps) ensures !InHandler(After(s, steps), FIRST_IDENT) {
      StaysOut(s, steps, FIRST_IDENT);
    }
    NullJumpReachableIff(s, FIRST_IDENT);
  }

  lemma BoundAtStart(s: System<nat>)
    requires s.unit == Loaded<nat>(seq(16, _ => 0), true).unit
              && s.stacks == map[7 := [Activation(FIRST_IDENT, Checked)]]
    requires s.settings == map[FIRST_IDENT := OPEN_TO_ALL] && FIRST_IDENT in s.hooks.hooks
    ensures SomeBound(s, FIRST_IDENT) && !InHandler(s, FIRST_IDENT)
  {
    var a := Stack(s, 7);
    assert Rest(a) == [] && Frames(a) == [] && !IsOpening(a);
    assert s.unit.ids[0] == 0 && !Jammed(s);
    assert CanOpen(s, 7, FIRST_IDENT);
    assert Bound(s, 7, FIRST_IDENT);
  }
}
