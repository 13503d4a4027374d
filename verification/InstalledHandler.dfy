/** The two arguments of LhInstallHook that the barrier hands on: the procedure that a thread gets into, and the
  * callback that LhBarrierGetCallback gives it there. */
module InstalledHandler {
  import opened Words
  import opened RipRelocation
  import opened HookLifecycle
  import opened HookRuns
  import opened HookSystem
  import opened HookSafety
  import opened HandlerReach
  import B = Barrier

  /** The hook procedure is the given one or cleared, and the callback the given one. */
  predicate RecordOf<K>(h: HookState<K>, ident: nat, proc: nat, callback: nat) {
    ident in h.hooks ==> h.hooks[ident].proc in {proc, 0} && h.hooks[ident].callback == callback
  }

  /** An admitted call of the hook has the callback, and the handler it is in, if any, is the procedure. */
  predicate CallOf(act: Activation, ident: nat, proc: nat, callback: nat) {
    act.ident == ident && act.phase.Admitted? ==>
      act.phase.callback == callback && (act.phase.inside() ==> act.phase.handler == proc)
  }

  ghost predicate CallsOf<K>(s: System<K>, ident: nat, proc: nat, callback: nat) {
    forall t, k | 0 <= k < |Stack(s, t)| :: CallOf(Stack(s, t)[k], ident, proc, callback)
  }

  lemma ChangeKeepsRecord<K>(h: HookState<K>, op: Op<K>, ident: nat, proc: nat, callback: nat)
    requires Shape(h) && Numbered(h) && OpOk(h, op) && !op.WaitOp? && h.counter + 1 < TWO_32 && ident < h.counter
    requires RecordOf(h, ident, proc, callback)
    ensures RecordOf(Apply(h, op), ident, proc, callback) && ident < Apply(h, op).counter
  {
    hide InRange, ListsShaped, LinksMatch, SlotsMatch, FreeSlot, Successors, UninstallAll;
    ApplyShape(h, op);
    if op.UninstallAllOp? {
      UninstallAllEffect(h);
    }
  }

  lemma StepKeepsRecord<K>(s: System<K>, step: Step<K>, ident: nat, proc: nat, callback: nat)
    requires Inv(s) && Shape(s.hooks) && B.TableOk(s.unit) && Enabled(s, step) && ident < s.hooks.counter
    requires RecordOf(s.hooks, ident, proc, callback)
    ensures RecordOf(Next(s, step).hooks, ident, proc, callback) && ident < Next(s, step).hooks.counter
  {
    hide InRange, ListsShaped, LinksMatch, SlotsMatch, ThreadOk, CountersOk, Apply, B.TableOk, B.Open, B.Decide,
         B.Outro;
    if step.Change? {
      ChangeKeepsRecord(s.hooks, step.op, ident, proc, callback);
    }
  }

  /** What a step does to the phase on top of a stack. */
  lemma StepOfPhase<K>(s: System<K>, step: Step<K>, t: nat)
    requires Shape(s.hooks) && B.TableOk(s.unit) && Enabled(s, step)
    ensures var (a, b) := (Stack(s, t), Stack(Next(s, step), t));
            b != a && a != [] && |b| == |a| && Top(b).phase.Admitted? ==>
              && Top(a).ident in s.hooks.hooks
              && var h := s.hooks.hooks[Top(a).ident];
                 || (Top(a).phase.Admitted? && Top(b).phase == Top(a).phase.(handler := h.proc))
                 || (Top(b).phase.callback == h.callback && !Top(b).phase.inside())
  {
    hide Shape, B.TableOk, B.Open, B.Decide, B.Outro, IsOpening, B.HasEntries, B.Registered, B.OutroOk;
    if StackFree(step) {
      StacksStay(s, step);
    }
  }

  lemma StepKeepsCalls<K>(s: System<K>, step: Step<K>, ident: nat, proc: nat, callback: nat)
    requires Shape(s.hooks) && B.TableOk(s.unit) && Enabled(s, step)
    requires RecordOf(s.hooks, ident, proc, callback) && CallsOf(s, ident, proc, callback)
    ensures CallsOf(Next(s, step), ident, proc, callback)
  {
    hide Shape, B.TableOk, Next, Enabled;
    var r := Next(s, step);
    forall t, k | 0 <= k < |Stack(r, t)| ensures CallOf(Stack(r, t)[k], ident, proc, callback) {
      StepOfThread(s, step, t);
      StepOfPhase(s, step, t);
      if k < |Stack(s, t)| {
        assert CallOf(Stack(s, t)[k], ident, proc, callback);
      }
    }
  }

  lemma {:induction false} RunKeepsCalls<K>(s: System<K>, steps: seq<Step<K>>, ident: nat, proc: nat, callback: nat)
    requires Inv(s) && Runs(s, steps) && ident < s.hooks.counter
    requires RecordOf(s.hooks, ident, proc, callback) && CallsOf(s, ident, proc, callback)
    ensures CallsOf(After(s, steps), ident, proc, callback)
    decreases |steps|
  {
    hide Inv, Enabled, Next, RecordOf, CallsOf, Shape, B.TableOk;
    if steps != [] {
      StepKeeps(s, steps[0]);
      StepKeepsRecord(s, steps[0], ident, proc, callback);
      StepKeepsCalls(s, steps[0], ident, proc, callback);
      RunKeepsCalls(Next(s, steps[0]), steps[1..], ident, proc, callback);
    }
  }

  /** Nobody has called a hook before it is installed. */
  lemma FreshHook<K>(s: System<K>, handle: K, target: nat, p: Preparation)
    requires Inv(s) && Enabled(s, Change(InstallOp(handle, target, p)))
    requires p.Ready? && InstallStatus(s.hooks, handle, p) == STATUS_SUCCESS
    ensures var r := Next(s, Change(InstallOp(handle, target, p)));
            && s.hooks.counter < r.hooks.counter
            && RecordOf(r.hooks, s.hooks.counter, p.proc, p.callback)
            && CallsOf(r, s.hooks.counter, p.proc, p.callback)
  {
    hide InRange, ListsShaped, LinksMatch, SlotsMatch, CountersOk, FreeSlot, InfoOk, ProtectionOk, Frames, IsOpening;
    var r := Next(s, Change(InstallOp(handle, target, p)));
    InstallFields(s.hooks, handle, target, p);
    forall t, k | 0 <= k < |Stack(r, t)| ensures CallOf(Stack(r, t)[k], s.hooks.counter, p.proc, p.callback) {
      if t != 0 {
        assert ThreadOk(s.hooks, s.unit, Stack(s, t), t, t in s.current);
      }
    }
  }

  /** Whatever happens after an install, a thread that gets into the handler of the hook gets into the procedure that
    * was given to LhInstallHook, and while its frame is the newest one, and a callback is to be had,
    * LhBarrierGetCallback gives the callback that was given to it. */
  lemma HandlerIsInstalled<K>(s: System<K>, handle: K, target: nat, p: Preparation, steps: seq<Step<K>>, t: nat, k: nat)
    requires Inv(s) && Enabled(s, Change(InstallOp(handle, target, p)))
    requires p.Ready? && InstallStatus(s.hooks, handle, p) == STATUS_SUCCESS
    requires Runs(Next(s, Change(InstallOp(handle, target, p))), steps)
    requires var r := After(Next(s, Change(InstallOp(handle, target, p))), steps);
             t != 0 && k < |Stack(r, t)| && IsInside(Stack(r, t)[k], s.hooks.counter)
    ensures var r := After(Next(s, Change(InstallOp(handle, target, p))), steps);
            && Stack(r, t)[k].phase.handler == p.proc
            && |r.unit.infos| == |r.unit.ids|
            && (t in r.current && Frames(Stack(r, t)) != [] && Top(Frames(Stack(r, t))) == Stack(r, t)[k] ==>
                  B.CallbackOf(r.unit, t) == Some(p.callback))
  {
    hide Inv, Enabled, Next, RecordOf, Runs, After, Frames, ThreadSafe, Shape, B.TableOk, ThreadOk, B.CallbackOf;
    InvParts(s);
    var i := Next(s, Change(InstallOp(handle, target, p)));
    var ident := s.hooks.counter;
    StepKeeps(s, Change(InstallOp(handle, target, p)));
    FreshHook(s, handle, target, p);
    RunKeepsCalls(i, steps, ident, p.proc, p.callback);
    RunKeeps(i, steps);
    var r := After(i, steps);
    assert CallOf(Stack(r, t)[k], ident, p.proc, p.callback);
    SafeNow(r, t);
    SafeCallback(r, t);
  }

  lemma SafeNow<K>(s: System<K>, t: nat)
    requires Inv(s) && t != 0
    ensures B.TableOk(s.unit) && |s.unit.infos| == |s.unit.ids|
    ensures ThreadSafe(s.hooks, s.unit, Stack(s, t), t, t in s.current)
  {
    hide ThreadOk, ThreadSafe, Shape, Numbered, CountersOk;
    ThreadOkIsSafe(s.hooks, s.unit, Stack(s, t), t, t in s.current);
  }

  lemma SafeCallback<K>(s: System<K>, t: nat)
    requires |s.unit.infos| == |s.unit.ids| && ThreadSafe(s.hooks, s.unit, Stack(s, t), t, t in s.current)
    ensures t in s.current ==>
              && Frames(Stack(s, t)) != [] && Top(Frames(Stack(s, t))).phase.Admitted?
              && B.CallbackOf(s.unit, t) == Some(Top(Frames(Stack(s, t))).phase.callback)
  {
    hide Frames, FramesOk, HasFrame, IsOpening;
  }
}
