/** What can still happen to the handler of an uninstalled hook: only threads that are inside it already execute it,
  * but threads on their way may jump through the procedure that the uninstall has cleared. */
module HandlerReach {
  import opened Words
  import opened HookLifecycle
  import opened HookRuns
  import opened HookSystem
  import B = Barrier

  /** The hook was handed out and is not armed: it is uninstalled or freed. */
  predicate Disarmed<K>(h: HookState<K>, ident: nat) {
    ident < h.counter && (ident in h.hooks ==> !h.hooks[ident].armed())
  }

  predicate IsInside(act: Activation, ident: nat) {
    act.ident == ident && act.phase.Admitted? && act.phase.inside()
  }

  /** A thread is inside the handler of the hook. */
  ghost predicate InHandler<K>(s: System<K>, ident: nat) {
    exists t, k :: 0 <= k < |Stack(s, t)| && IsInside(Stack(s, t)[k], ident)
  }

  lemma InvParts<K>(s: System<K>)
    requires Inv(s)
    ensures Shape(s.hooks) && B.TableOk(s.unit) && Numbered(s.hooks) && Stack(s, 0) == []
  {
    hide Shape, B.TableOk, Numbered, CountersOk, ThreadOk;
  }

  lemma ChangeDisarmed<K>(h: HookState<K>, op: Op<K>, ident: nat)
    requires Shape(h) && Numbered(h) && OpOk(h, op) && !op.WaitOp? && h.counter + 1 < TWO_32 && Disarmed(h, ident)
    ensures Disarmed(Apply(h, op), ident) && (ident in Apply(h, op).hooks ==> ident in h.hooks)
  {
    hide Shape, Apply;
    ChangeExtends(h, op);
    ApplyShape(h, op);
  }

  lemma DisarmedStays<K>(s: System<K>, step: Step<K>, ident: nat)
    requires Inv(s) && Shape(s.hooks) && B.TableOk(s.unit) && Enabled(s, step) && Disarmed(s.hooks, ident)
    ensures Disarmed(Next(s, step).hooks, ident)
    ensures ident in Next(s, step).hooks.hooks ==> ident in s.hooks.hooks
  {
    hide InRange, ListsShaped, LinksMatch, SlotsMatch, ThreadOk, CountersOk, Apply, B.TableOk, B.Open, B.Decide,
         B.Outro;
    if step.Change? {
      ChangeDisarmed(s.hooks, step.op, ident);
    }
  }

  // ---------- the handler ----------

  /** Whoever is inside the handler of a disarmed hook after a step was inside before. */
  lemma StepKeepsOut<K>(s: System<K>, step: Step<K>, ident: nat)
    requires Inv(s) && Shape(s.hooks) && B.TableOk(s.unit) && Enabled(s, step) && Disarmed(s.hooks, ident)
    requires !InHandler(s, ident)
    ensures !InHandler(Next(s, step), ident)
  {
    hide Inv, Shape, B.TableOk, B.Open, B.Decide, B.Outro, IsOpening, InHandler;
    var r := Next(s, step);
    forall t, k | 0 <= k < |Stack(r, t)| ensures !IsInside(Stack(r, t)[k], ident) {
      StepOfThread(s, step, t);
      if k < |Stack(s, t)| {
        NotInside(s, t, k, ident);
      }
    }
    NoneInside(r, ident);
  }

  lemma NotInside<K>(s: System<K>, t: nat, k: nat, ident: nat)
    requires !InHandler(s, ident) && k < |Stack(s, t)|
    ensures !IsInside(Stack(s, t)[k], ident)
  {
  }

  lemma NoneInside<K>(s: System<K>, ident: nat)
    requires forall t, k | 0 <= k < |Stack(s, t)| :: !IsInside(Stack(s, t)[k], ident)
    ensures !InHandler(s, ident)
  {
  }

  /** The steps that change no stack. */
  predicate StackFree<K>(step: Step<K>) {
    step.Change? || step.Configure? || step.ConfigureGlobal? || step.Pop? || step.Free? || step.Exit? || step.Detach?
  }

  lemma StacksStay<K>(s: System<K>, step: Step<K>)
    requires Shape(s.hooks) && B.TableOk(s.unit) && Enabled(s, step) && StackFree(step)
    ensures Next(s, step).stacks == s.stacks
  {
    hide Shape, B.TableOk, Apply, PopHook, Release, B.Detach;
  }

  /** What a step does to the stack of a thread: an activation comes on top, leaves, or gets on; it gets into the
    * handler only by the jump, and only of an armed hook. */
  lemma StepOfThread<K>(s: System<K>, step: Step<K>, t: nat)
    requires Shape(s.hooks) && B.TableOk(s.unit) && Enabled(s, step)
    ensures var (a, b) := (Stack(s, t), Stack(Next(s, step), t));
            || b == a
            || (step.Enter? && step.t == t && b == a + [Activation(step.ident, Counted)])
            || (a != [] && b == Rest(a))
            || (a != [] && |b| == |a| && b[..|a| - 1] == Rest(a) && Top(b).ident == Top(a).ident
                && (Top(b).phase.Admitted? && Top(b).phase.inside() ==>
                      && step.Jump? && step.t == t
                      && Top(a).ident in s.hooks.hooks && s.hooks.hooks[Top(a).ident].armed()))
  {
    hide Shape, B.TableOk, B.Open, B.Decide, B.Outro, IsOpening, B.HasEntries, B.Registered, B.OutroOk, Changed,
         PopHook, Release, View, Outbound, B.Detach, OpOk;
    if StackFree(step) {
      StacksStay(s, step);
    } else if step.t != t {
      OtherStacksStay(s, step, t);
    }
  }

  lemma OtherStacksStay<K>(s: System<K>, step: Step<K>, t: nat)
    requires Shape(s.hooks) && B.TableOk(s.unit) && Enabled(s, step) && !StackFree(step) && step.t != t
    ensures Stack(Next(s, step), t) == Stack(s, t)
  {
    hide Shape, B.TableOk, B.Open, B.Decide, B.Outro, IsOpening, B.HasEntries, B.Registered, B.OutroOk, View, Outbound;
  }

  lemma {:induction false} StaysOut<K>(s: System<K>, steps: seq<Step<K>>, ident: nat)
    requires Inv(s) && Runs(s, steps) && Disarmed(s.hooks, ident) && !InHandler(s, ident)
    ensures !InHandler(After(s, steps), ident)
    decreases |steps|
  {
    hide Inv, Enabled, Next, Disarmed, InHandler, Shape, B.TableOk;
    if steps != [] {
      StepKeeps(s, steps[0]);
      DisarmedStays(s, steps[0], ident);
      StepKeepsOut(s, steps[0], ident);
      StaysOut(Next(s, steps[0]), steps[1..], ident);
    }
  }

  /** The handler of an uninstalled hook is executed in some continuation if and only if a thread is inside it now: the
    * trampoline reads the hook procedure again when it jumps. */
  lemma HandlerReachableIff<K>(s: System<K>, ident: nat)
    requires Inv(s) && Disarmed(s.hooks, ident)
    ensures (exists steps :: Runs(s, steps) && InHandler(After(s, steps), ident)) <==> InHandler(s, ident)
  {
    hide Inv, Disarmed, InHandler, Runs, After;
    if InHandler(s, ident) {
      EmptyRun(s);
    }
    if exists steps :: Runs(s, steps) && InHandler(After(s, steps), ident) {
      var steps :| Runs(s, steps) && InHandler(After(s, steps), ident);
      if !InHandler(s, ident) {
        StaysOut(s, steps, ident);
      }
    }
  }

  lemma EmptyRun<K>(s: System<K>)
    ensures Runs(s, []) && After(s, []) == s
  {
  }
}
