/** Hook life cycle and barrier together: threads run through trampolines while hooks come and go, and slots are used
  * again. The order of the steps of one activation is that of the trampoline (HookSpecific_x64.asm); an intro takes two
  * steps, between which the thread may call other hooked functions. The trampoline reads the hook procedure twice, for
  * its check and for its final jump, and gives up its count before it is done with the page it runs in. */
module HookSystem {
  import opened Limits
  import opened Words
  import opened HookLifecycle
  import opened HookRuns
  import B = Barrier

  /** How far a call of a hooked function has got: it has incremented the execution counter, it has found a hook
    * procedure, its intro holds the self protection (on a thread new to the table or not), or its intro has admitted
    * it with this return address and this callback; then it jumps into the handler at this address. */
  datatype Phase =
    | Counted | Checked | Opening(new_: bool)
    | Admitted(retAddress: nat, addrOfRetAddr: nat, callback: nat, handler: nat)
  {
    /** The thread has jumped through the hook procedure. */
    predicate inside() { Admitted? && handler != 0 }
  }
  datatype Activation = Activation(ident: nat, phase: Phase)

  /** A call that has decremented the execution counter but still runs in the page of its hook: through the end of the
    * trampoline and, if the handler was not called, the relocated entry point. `depth` activations are below it. */
  datatype Departure = Departure(ident: nat, depth: nat)

  /** `stacks` holds the activations of each thread, the newest last, and `leaving` its departures; `settings` the
    * callback and the local list of each hook; `counters` what IsExecutedPtr of each hook points to; `current` the
    * threads whose last intro or outro past the self protection was a successful intro. `fault` is the hook through
    * whose cleared procedure a thread has jumped, which ends the process. */
  datatype System<K(==)> = System(
    hooks: HookState<K>, unit: B.Unit, settings: map<nat, B.Acl>,
    stacks: map<nat, seq<Activation>>, leaving: map<nat, seq<Departure>>, counters: map<nat, int>, current: set<nat>,
    fault: Option<nat>)

  function Stack<K>(s: System<K>, t: nat): (a: seq<Activation>) {
    if t in s.stacks then s.stacks[t] else []
  }

  function Leaving<K>(s: System<K>, t: nat): (d: seq<Departure>) {
    if t in s.leaving then s.leaving[t] else []
  }

  /** The thread runs behind a decrement, and not in an activation. */
  predicate Outbound<K>(s: System<K>, t: nat) {
    Leaving(s, t) != [] && Leaving(s, t)[|Leaving(s, t)| - 1].depth >= |Stack(s, t)|
  }

  function Counter<K>(s: System<K>, ident: nat): (c: int) {
    if ident in s.counters then s.counters[ident] else 0
  }

  function View<K>(s: System<K>, ident: nat): (v: B.HookView)
    requires ident in s.hooks.hooks
  {
    var acl := if ident in s.settings then s.settings[ident] else B.Acl(false, []);
    B.HookView(s.hooks.hooks[ident].slot, ident, s.hooks.hooks[ident].callback, acl)
  }

  // ---------- steps ----------

  datatype Step<K> =
    | Change(op: Op<K>)                 // install, uninstall by handle, uninstall all
    | Configure(ident: nat, acl: B.Acl)
    | ConfigureGlobal(acl: B.Acl)
    | Pop                               // the wait pops a hook and restores its target
    | Free(ident: nat)                  // the wait finds the counter at zero
    | Enter(t: nat, ident: nat)         // a thread enters the trampoline
    | Check(t: nat)                     // and looks for a hook procedure
    | OpenIntro(t: nat, locked: bool)   // the intro up to the self protection
    | DecideIntro(t: nat, retAddress: nat, addrOfRetAddr: nat, granted: bool)
    | Jump(t: nat)                      // the trampoline jumps through the hook procedure
    | CallOutro(t: nat)
    | Exit(t: nat)                      // a thread gets out of the page
    | Detach(t: nat)                    // a thread ends outside all trampolines and handlers

  function Top(a: seq<Activation>): (r: Activation)
    requires a != []
  {
    a[|a| - 1]
  }

  function Rest(a: seq<Activation>): (r: seq<Activation>)
    requires a != []
  {
    a[..|a| - 1]
  }

  /** The newest activation is between the increment of the counter and its intro. */
  predicate Moving(a: seq<Activation>) {
    a != [] && (Top(a).phase.Counted? || Top(a).phase.Checked?)
  }

  /** The newest activation was admitted and has not jumped yet. */
  predicate Pending(a: seq<Activation>) {
    a != [] && Top(a).phase.Admitted? && !Top(a).phase.inside()
  }

  function Base(a: seq<Activation>): (b: seq<Activation>) {
    if Moving(a) then Rest(a) else a
  }

  /** An intro of the thread holds the self protection. */
  predicate IsOpening(a: seq<Activation>) {
    Base(a) != [] && Top(Base(a)).phase.Opening?
  }

  /** The handler frames of a stack: what is below the activations on their way. */
  function Frames(a: seq<Activation>): (f: seq<Activation>)
    ensures f <= a
  {
    if IsOpening(a) then Rest(Base(a)) else Base(a)
  }

  /** The top activation of the thread belongs to an allocated hook. */
  predicate At<K>(s: System<K>, t: nat) {
    t != 0 && Stack(s, t) != [] && Top(Stack(s, t)).ident in s.hooks.hooks
  }

  ghost predicate Enabled<K>(s: System<K>, step: Step<K>)
    requires Shape(s.hooks) && B.TableOk(s.unit)
  {
    && s.fault.None?
    && match step
       case Change(op) => !op.WaitOp? && OpOk(s.hooks, op) && s.hooks.counter + 1 < TWO_32
       case Configure(ident, _) => ident in s.hooks.hooks && s.hooks.hooks[ident].armed()
       case ConfigureGlobal(_) => true
       case Pop => s.hooks.removal != []
       case Free(ident) =>
         && ident in s.hooks.hooks && !s.hooks.hooks[ident].armed() && ident !in s.hooks.removal
         && Counter(s, ident) <= 0
       case Enter(t, ident) => t != 0 && ident in s.hooks.hooks && !Moving(Stack(s, t)) && !Pending(Stack(s, t))
       case Check(t) => At(s, t) && !Outbound(s, t) && Top(Stack(s, t)).phase.Counted?
       case OpenIntro(t, _) => At(s, t) && !Outbound(s, t) && Top(Stack(s, t)).phase.Checked?
       case DecideIntro(t, _, _, _) =>
         && At(s, t) && !Outbound(s, t) && Top(Stack(s, t)).phase.Opening? && B.Registered(s.unit, t)
         && (!Top(Stack(s, t)).phase.new_ ==> B.HasEntries(s.unit, t))
       case Jump(t) => At(s, t) && !Outbound(s, t) && Pending(Stack(s, t))
       case CallOutro(t) =>
         && At(s, t) && !Outbound(s, t) && Top(Stack(s, t)).phase.Admitted? && Top(Stack(s, t)).phase.inside()
         && B.OutroOk(s.unit, t, View(s, Top(Stack(s, t)).ident))
       case Exit(t) => t != 0 && Outbound(s, t)
       case Detach(t) => t != 0 && Stack(s, t) == [] && Leaving(s, t) == []
  }

  function SetStack<K>(s: System<K>, t: nat, a: seq<Activation>): (r: System<K>)
    ensures Stack(r, t) == a && forall other | other != t :: Stack(r, other) == Stack(s, other)
    ensures r == s.(stacks := r.stacks)
  {
    s.(stacks := s.stacks[t := a])
  }

  function Count<K>(s: System<K>, ident: nat, delta: int): (r: System<K>)
    ensures r == s.(counters := r.counters) && Counter(r, ident) == Counter(s, ident) + delta
    ensures forall other | other != ident :: Counter(r, other) == Counter(s, other)
  {
    s.(counters := s.counters[ident := Counter(s, ident) + delta])
  }

  /** The newest activation decrements the counter and starts to leave. */
  function Leave<K>(s: System<K>, t: nat): (r: System<K>)
    requires Stack(s, t) != []
  {
    var a := Stack(s, t);
    Count(SetStack(s, t, Rest(a)), Top(a).ident, -1).(
      leaving := s.leaving[t := Leaving(s, t) + [Departure(Top(a).ident, |a| - 1)]])
  }

  /** The newest activation gets on. */
  function Advance<K>(s: System<K>, t: nat, phase: Phase): (r: System<K>)
    requires Stack(s, t) != []
  {
    SetStack(s, t, Rest(Stack(s, t)) + [Top(Stack(s, t)).(phase := phase)])
  }

  /** The hook is popped; if its copy is still in place, the backup goes back. */
  function PopHook<K>(h: HookState<K>): (r: HookState<K>)
    requires Shape(h) && h.removal != []
  {
    var ident, popped := h.removal[0], h.(removal := h.removal[1..]);
    assert ident in h.removal;
    if Bytes(h.mem, h.hooks[ident].target) == h.hooks[ident].copy then Restore(popped, ident) else popped
  }

  /** A new hook starts with its counter at zero. */
  function Changed<K>(s: System<K>, op: Op<K>): (r: System<K>)
    requires Shape(s.hooks) && OpOk(s.hooks, op)
  {
    var after := Apply(s.hooks, op);
    s.(hooks := after,
       counters := if s.hooks.counter in after.hooks then s.counters[s.hooks.counter := 0] else s.counters)
  }

  function Next<K>(s: System<K>, step: Step<K>): (r: System<K>)
    requires Shape(s.hooks) && B.TableOk(s.unit) && Enabled(s, step)
  {
    match step
    case Change(op) => Changed(s, op)
    case Configure(ident, acl) => s.(settings := s.settings[ident := acl])
    case ConfigureGlobal(acl) => s.(unit := s.unit.(globalAcl := acl))
    case Pop => s.(hooks := PopHook(s.hooks))
    case Free(ident) => s.(hooks := Release(s.hooks, ident))
    case Enter(t, ident) => Count(SetStack(s, t, Stack(s, t) + [Activation(ident, Counted)]), ident, 1)
    case Check(t) => if s.hooks.hooks[Top(Stack(s, t)).ident].armed() then Advance(s, t, Checked) else Leave(s, t)
    case OpenIntro(t, locked) =>
      var (open, unit) := B.Open(s.unit, t, locked);
      (if open then Advance(s, t, Opening(!B.Registered(s.unit, t))) else Leave(s, t)).(unit := unit)
    case DecideIntro(t, retAddress, addrOfRetAddr, granted) =>
      var act := Top(Stack(s, t));
      var hook := View(s, act.ident);
      SlotBound(s.hooks, act.ident);
      var (ok, unit) := B.Decide(s.unit, t, act.phase.new_, hook, retAddress, addrOfRetAddr, granted);
      if ok then
        Advance(s, t, Admitted(retAddress, addrOfRetAddr, hook.callback, 0)).(
          unit := unit, current := s.current + {t})
      else Leave(s, t).(unit := unit, current := s.current - {t})
    case Jump(t) =>
      var act := Top(Stack(s, t));
      var proc := s.hooks.hooks[act.ident].proc;
      if proc != 0 then Advance(s, t, act.phase.(handler := proc)) else s.(fault := Some(act.ident))
    case CallOutro(t) =>
      Leave(s, t).(unit := B.Outro(s.unit, t, View(s, Top(Stack(s, t)).ident)).1, current := s.current - {t})
    case Exit(t) => s.(leaving := s.leaving[t := Leaving(s, t)[..|Leaving(s, t)| - 1]])
    case Detach(t) => s.(unit := B.Detach(s.unit, t), current := s.current - {t})
  }

  lemma SlotBound<K>(h: HookState<K>, ident: nat)
    requires Shape(h) && ident in h.hooks
    ensures h.hooks[ident].slot < MAX_HOOK_COUNT
  {
  }

  // ---------- invariant of one thread ----------

  /** Entry `i` belongs to a frame. */
  ghost predicate HasFrame<K>(h: HookState<K>, f: seq<Activation>, i: nat) {
    exists k | 0 <= k < |f| :: f[k].ident in h.hooks && h.hooks[f[k].ident].slot == i
  }

  /** The frames are admitted to handlers of different allocated hooks. */
  ghost predicate FramesShaped<K>(h: HookState<K>, f: seq<Activation>) {
    && (forall k | 0 <= k < |f| :: f[k].phase.Admitted? && f[k].ident in h.hooks)
    && (forall j, k | 0 <= j < k < |f| :: f[j].ident != f[k].ident)
  }

  /** Only the newest activation can be without having jumped. */
  predicate Settled(a: seq<Activation>) {
    forall k | 0 <= k < |a| - 1 && a[k].phase.Admitted? :: a[k].phase.inside()
  }

  ghost predicate StackOk<K>(h: HookState<K>, a: seq<Activation>) {
    FramesShaped(h, Frames(a)) && Settled(a) && forall k | 0 <= k < |a| :: a[k].ident in h.hooks
  }

  /** The entry of a frame holds its hook and its return address, and is marked as executing. */
  ghost predicate FramesOk<K>(h: HookState<K>, f: seq<Activation>, entries: seq<B.RuntimeInfo>) {
    forall k | 0 <= k < |f| ::
      && f[k].ident in h.hooks && h.hooks[f[k].ident].slot < |entries| && f[k].phase.Admitted?
      && entries[h.hooks[f[k].ident].slot] ==
           B.RuntimeInfo(true, f[k].ident, f[k].phase.retAddress, f[k].phase.addrOfRetAddr)
  }

  /** Exactly the entries of frames are marked as executing. */
  ghost predicate EntriesOk<K>(h: HookState<K>, f: seq<Activation>, entries: seq<B.RuntimeInfo>) {
    && |entries| == MAX_HOOK_COUNT && FramesOk(h, f, entries)
    && forall i | 0 <= i < |entries| && entries[i].isExecuting :: HasFrame(h, f, i)
  }

  /** Current and Callback are those of the newest frame. */
  ghost predicate CurrentOk<K>(h: HookState<K>, f: seq<Activation>, info: B.ThreadInfo) {
    && f != [] && Top(f).ident in h.hooks && Top(f).phase.Admitted?
    && info.current == Some(h.hooks[Top(f).ident].slot) && info.callback == Top(f).phase.callback
  }

  ghost predicate InfoOk<K>(h: HookState<K>, f: seq<Activation>, info: B.ThreadInfo, isCurrent: bool) {
    && (info.current.Some? <==> isCurrent) && (isCurrent ==> CurrentOk(h, f, info))
    && if info.entries.Some? then EntriesOk(h, f, info.entries.value) else f == []
  }

  /** The self protection is held exactly during an intro; a new thread has nothing else in its entry yet. */
  ghost predicate ProtectionOk(a: seq<Activation>, info: B.ThreadInfo) {
    && (info.isProtected <==> IsOpening(a))
    && (IsOpening(a) && Top(Base(a)).phase.new_ ==> info == B.NO_THREAD.(isProtected := true))
  }

  ghost predicate ThreadOk<K>(h: HookState<K>, u: B.Unit, a: seq<Activation>, t: nat, isCurrent: bool)
    requires |u.infos| == |u.ids|
  {
    && StackOk(h, a)
    && if B.Registered(u, t) then InfoOk(h, Frames(a), B.InfoOf(u, t), isCurrent) && ProtectionOk(a, B.InfoOf(u, t))
       else Frames(a) == [] && !IsOpening(a) && !isCurrent
  }

  // ---------- invariant of the execution counters ----------

  function CountIn(a: seq<Activation>, ident: nat): (n: nat) {
    if a == [] then 0 else CountIn(Rest(a), ident) + if Top(a).ident == ident then 1 else 0
  }

  /** Activations of a hook on the threads below `n`. */
  function Total<K>(s: System<K>, n: nat, ident: nat): (sum: nat) {
    if n == 0 then 0 else Total(s, n - 1, ident) + CountIn(Stack(s, n - 1), ident)
  }

  ghost predicate Quiet<K>(s: System<K>, n: nat) {
    forall t | t >= n :: Stack(s, t) == []
  }

  /** The counter of a hook is the number of its activations on all threads. */
  ghost predicate CountersOk<K>(s: System<K>) {
    forall ident, n | ident in s.hooks.hooks && Quiet(s, n) :: Counter(s, ident) == Total(s, n, ident)
  }

  /** There is no thread 0. */
  ghost predicate Inv<K>(s: System<K>) {
    && Stack(s, 0) == [] && Shape(s.hooks) && Numbered(s.hooks) && B.TableOk(s.unit) && CountersOk(s)
    && forall t | t != 0 :: ThreadOk(s.hooks, s.unit, Stack(s, t), t, t in s.current)
  }

  /** The library just loaded over some memory. */
  function Loaded<K>(mem: seq<byte>, auxUlib: bool): (s: System<K>) {
    System(Initial<K>(mem),
           B.Unit(B.Acl(true, []), auxUlib, seq(MAX_THREAD_COUNT, _ => 0), seq(MAX_THREAD_COUNT, _ => B.NO_THREAD)),
           map[], map[], map[], map[], {}, None)
  }

  lemma InitialInv<K>(mem: seq<byte>, auxUlib: bool)
    ensures Inv(Loaded<K>(mem, auxUlib))
  {
    InitialShape<K>(mem);
  }

  // ---------- counting activations ----------

  lemma CountPush(a: seq<Activation>, act: Activation, ident: nat)
    ensures CountIn(a + [act], ident) == CountIn(a, ident) + if act.ident == ident then 1 else 0
  {
    assert Rest(a + [act]) == a;
  }

  lemma {:induction false} CountZero(a: seq<Activation>, ident: nat, k: nat)
    requires CountIn(a, ident) == 0 && k < |a|
    ensures a[k].ident != ident
    decreases |a|
  {
    if k < |a| - 1 {
      CountZero(Rest(a), ident, k);
    }
  }

  lemma {:induction false} CountNone(a: seq<Activation>, ident: nat)
    requires forall k | 0 <= k < |a| :: a[k].ident != ident
    ensures CountIn(a, ident) == 0
    decreases |a|
  {
    if a != [] {
      CountNone(Rest(a), ident);
    }
  }

  /** One thread's stack makes the difference. */
  lemma {:induction false} TotalChange<K>(s: System<K>, r: System<K>, t: nat, n: nat, ident: nat)
    requires forall other | other != t :: Stack(r, other) == Stack(s, other)
    ensures Total(r, n, ident) - Total(s, n, ident) ==
              if t < n then CountIn(Stack(r, t), ident) - CountIn(Stack(s, t), ident) else 0
    decreases n
  {
    if n > 0 {
      TotalChange(s, r, t, n - 1, ident);
    }
  }

  lemma {:induction false} TotalQuiet<K>(s: System<K>, n: nat, m: nat, ident: nat)
    requires Quiet(s, n) && n <= m
    ensures Total(s, m, ident) == Total(s, n, ident)
    decreases m
  {
    if n < m {
      TotalQuiet(s, n, m - 1, ident);
    }
  }

  lemma {:induction false} TotalBounds<K>(s: System<K>, n: nat, t: nat, ident: nat)
    requires t < n
    ensures CountIn(Stack(s, t), ident) <= Total(s, n, ident)
    decreases n
  {
    if t < n - 1 {
      TotalBounds(s, n - 1, t, ident);
    }
  }

  lemma {:induction false} TotalNone<K>(s: System<K>, n: nat, ident: nat)
    requires forall t, k | 0 <= k < |Stack(s, t)| :: Stack(s, t)[k].ident != ident
    ensures Total(s, n, ident) == 0
    decreases n
  {
    if n > 0 {
      TotalNone(s, n - 1, ident);
      CountNone(Stack(s, n - 1), ident);
    }
  }

  lemma {:induction false} Above(keys: set<nat>) returns (n: nat)
    ensures forall x | x in keys :: x < n
    decreases |keys|
  {
    n := 0;
    if keys != {} {
      var x :| x in keys;
      n := Above(keys - {x});
      assert forall y | y in keys :: y == x || y in keys - {x};
      if n <= x {
        n := x + 1;
      }
    }
  }

  lemma QuietAbove<K>(s: System<K>) returns (n: nat)
    ensures Quiet(s, n)
  {
    n := Above(s.stacks.Keys);
  }

  /** The counter tells whether a thread is between its increment and its decrement. */
  lemma CounterTells<K>(s: System<K>, ident: nat)
    requires CountersOk(s) && ident in s.hooks.hooks
    ensures Counter(s, ident) >= 0
    ensures Counter(s, ident) == 0 <==> forall t, k | 0 <= k < |Stack(s, t)| :: Stack(s, t)[k].ident != ident
  {
    var n := QuietAbove(s);
    assert Counter(s, ident) == Total(s, n, ident);
    if Counter(s, ident) == 0 {
      forall t, k | 0 <= k < |Stack(s, t)| ensures Stack(s, t)[k].ident != ident {
        TotalBounds(s, n, t, ident);
        CountZero(Stack(s, t), ident, k);
      }
    }
    if forall t, k | 0 <= k < |Stack(s, t)| :: Stack(s, t)[k].ident != ident {
      TotalNone(s, n, ident);
    }
  }

  /** A step of one thread that counts what it does to its stack. */
  lemma CountersMove<K>(s: System<K>, r: System<K>, t: nat)
    requires CountersOk(s) && forall other | other != t :: Stack(r, other) == Stack(s, other)
    requires forall ident | ident in r.hooks.hooks ::
               && ident in s.hooks.hooks
               && Counter(r, ident) - Counter(s, ident) == CountIn(Stack(r, t), ident) - CountIn(Stack(s, t), ident)
    ensures CountersOk(r)
  {
    forall ident: nat, n: nat | ident in r.hooks.hooks && Quiet(r, n) ensures Counter(r, ident) == Total(r, n, ident) {
      var m := if n > t then n else t + 1;
      assert Quiet(s, m);
      TotalChange(s, r, t, m, ident);
      TotalQuiet(r, n, m, ident);
    }
  }

  lemma CountersSame<K>(s: System<K>, r: System<K>)
    requires CountersOk(s) && r.stacks == s.stacks
    requires forall ident | ident in r.hooks.hooks :: ident in s.hooks.hooks && Counter(r, ident) == Counter(s, ident)
    ensures CountersOk(r)
  {
    CountersMove(s, r, 0);
  }

  lemma LeaveCounts<K>(s: System<K>, t: nat)
    requires Stack(s, t) != []
    ensures var r := Leave(s, t);
            && Stack(r, t) == Rest(Stack(s, t))
            && r == s.(stacks := r.stacks, counters := r.counters, leaving := r.leaving)
            && (forall other | other != t :: Stack(r, other) == Stack(s, other))
            && forall ident ::
                 Counter(r, ident) - Counter(s, ident) == CountIn(Stack(r, t), ident) - CountIn(Stack(s, t), ident)
  {
  }

  lemma AdvanceCounts<K>(s: System<K>, t: nat, phase: Phase)
    requires Stack(s, t) != []
    ensures var r := Advance(s, t, phase);
            && Stack(r, t) == Rest(Stack(s, t)) + [Top(Stack(s, t)).(phase := phase)] && r == s.(stacks := r.stacks)
            && (forall other | other != t :: Stack(r, other) == Stack(s, other))
            && forall ident :: CountIn(Stack(r, t), ident) == CountIn(Stack(s, t), ident)
  {
    var a := Stack(s, t);
    forall ident ensures CountIn(Stack(Advance(s, t, phase), t), ident) == CountIn(a, ident) {
      CountPush(Rest(a), Top(a).(phase := phase), ident);
    }
  }

  // ---------- the slot tells the hook ----------

  /** Two allocated hooks with the same slot are the same hook. */
  lemma SlotIdentifies<K>(h: HookState<K>, a: nat, b: nat)
    requires Shape(h) && a in h.hooks && b in h.hooks && h.hooks[a].slot == h.hooks[b].slot
    ensures a == b
  {
  }

  lemma SlotsDiffer<K>(h: HookState<K>, a: nat, b: nat)
    requires Shape(h) && a in h.hooks && b in h.hooks && a != b
    ensures h.hooks[a].slot != h.hooks[b].slot
  {
  }

  /** An entry is executing with its hook's ident exactly if the hook has a frame; with another ident it is stale: no
    * frame belongs to it, so that resetting it disturbs nobody. */
  lemma EntryTells<K>(h: HookState<K>, f: seq<Activation>, entries: seq<B.RuntimeInfo>, ident: nat)
    requires Shape(h) && EntriesOk(h, f, entries) && ident in h.hooks
    ensures h.hooks[ident].slot < |entries|
    ensures var runtime := entries[h.hooks[ident].slot];
            && (runtime.hlsIdent != ident ==> !runtime.isExecuting)
            && (runtime.isExecuting <==> exists k | 0 <= k < |f| :: f[k].ident == ident)
  {
    hide InRange, ListsShaped, LinksMatch;
    SlotBound(h, ident);
    var i := h.hooks[ident].slot;
    if entries[i].isExecuting {
      var k :| 0 <= k < |f| && f[k].ident in h.hooks && h.hooks[f[k].ident].slot == i;
      SlotIdentifies(h, ident, f[k].ident);
    }
  }

  // ---------- steps of the hook life cycle ----------

  /** Every allocated hook stays allocated in the same slot. */
  ghost predicate Extends<K>(h: HookState<K>, r: HookState<K>) {
    forall ident | ident in h.hooks :: ident in r.hooks && r.hooks[ident].slot == h.hooks[ident].slot
  }

  /** Changes to other hooks do not matter for a thread. */
  lemma ThreadUnderHooks<K>(h: HookState<K>, r: HookState<K>, u: B.Unit, a: seq<Activation>, t: nat, isCurrent: bool)
    requires |u.infos| == |u.ids| && ThreadOk(h, u, a, t, isCurrent)
    requires forall k | 0 <= k < |a| :: a[k].ident in r.hooks && a[k].ident in h.hooks &&
               r.hooks[a[k].ident].slot == h.hooks[a[k].ident].slot
    ensures ThreadOk(r, u, a, t, isCurrent)
  {
    var f := Frames(a);
    assert forall k | 0 <= k < |f| :: f[k] == a[k];
    if B.Registered(u, t) && B.InfoOf(u, t).entries.Some? {
      var entries := B.InfoOf(u, t).entries.value;
      forall i | 0 <= i < |entries| && entries[i].isExecuting ensures HasFrame(r, f, i) {
        assert HasFrame(h, f, i);
      }
    }
  }

  /** What is in the hooks afterwards was there before, except for the hook with the next ident. */
  lemma ChangeExtends<K>(h: HookState<K>, op: Op<K>)
    requires Shape(h) && Numbered(h) && OpOk(h, op) && !op.WaitOp? && h.counter + 1 < TWO_32
    ensures Extends(h, Apply(h, op)) && Apply(h, op).hooks.Keys <= h.hooks.Keys + {h.counter}
    ensures forall ident | ident in h.hooks && ident in Apply(h, op).hooks && Apply(h, op).hooks[ident].armed() ::
              h.hooks[ident].armed()
  {
    hide InRange, ListsShaped, SlotsMatch, LinksMatch, FreeSlot;
    if op.UninstallAllOp? {
      UninstallAllEffect(h);
    }
  }

  lemma AllocatedIdents<K>(s: System<K>, t: nat)
    requires Inv(s) && t != 0
    ensures forall k | 0 <= k < |Stack(s, t)| :: Stack(s, t)[k].ident in s.hooks.hooks
  {
    assert ThreadOk(s.hooks, s.unit, Stack(s, t), t, t in s.current);
  }

  lemma ChangeKeeps<K>(s: System<K>, op: Op<K>)
    requires Inv(s) && Enabled(s, Change(op))
    ensures Inv(Next(s, Change(op)))
  {
    hide Apply, ThreadOk, InRange, ListsShaped, SlotsMatch, LinksMatch, Quiet, Total;
    var r := Next(s, Change(op));
    ApplyShape(s.hooks, op);
    ChangeExtends(s.hooks, op);
    forall t | t != 0 ensures ThreadOk(r.hooks, r.unit, Stack(r, t), t, t in r.current) {
      AllocatedIdents(s, t);
      ThreadUnderHooks(s.hooks, r.hooks, s.unit, Stack(s, t), t, t in s.current);
    }
    NewCounter(s, r);
  }

  /** No activation belongs to a hook that was not there. */
  lemma NewCounter<K>(s: System<K>, r: System<K>)
    requires Inv(s) && r.stacks == s.stacks
    requires r.hooks.hooks.Keys <= s.hooks.hooks.Keys + {s.hooks.counter}
    requires r.counters == if s.hooks.counter in r.hooks.hooks then s.counters[s.hooks.counter := 0] else s.counters
    ensures CountersOk(r)
  {
    hide Shape, ThreadOk;
    forall ident: nat, n: nat | ident in r.hooks.hooks && Quiet(r, n) ensures Counter(r, ident) == Total(r, n, ident) {
      assert forall t :: Stack(r, t) == Stack(s, t);
      TotalChange(s, r, 0, n, ident);
      if ident == s.hooks.counter {
        forall t, k | 0 <= k < |Stack(r, t)| ensures Stack(r, t)[k].ident != ident {
          AllocatedIdents(s, t);
        }
        TotalNone(r, n, ident);
      }
    }
  }

  lemma PopKeeps<K>(s: System<K>)
    requires Inv(s) && Enabled(s, Pop)
    ensures Inv(Next(s, Pop))
  {
    hide ThreadOk, ListsShaped, SlotsMatch, LinksMatch, CountersOk;
    PoppedShape(s.hooks);
    var popped := s.hooks.(removal := s.hooks.removal[1..]);
    RestoreShape(popped, s.hooks.removal[0]);
    var r := Next(s, Pop);
    CountersSame(s, r);
    forall t | t != 0 ensures ThreadOk(r.hooks, s.unit, Stack(s, t), t, t in s.current) {
      AllocatedIdents(s, t);
      ThreadUnderHooks(s.hooks, r.hooks, s.unit, Stack(s, t), t, t in s.current);
    }
  }

  /** A hook is freed, and its slot with it, when its counter is zero: then no thread is between increment and
    * decrement. */
  lemma FreeKeeps<K>(s: System<K>, ident: nat)
    requires Inv(s) && Enabled(s, Free(ident))
    ensures Inv(Next(s, Free(ident)))
    ensures forall t, k | 0 <= k < |Stack(s, t)| :: Stack(s, t)[k].ident != ident
  {
    hide ThreadOk, InRange, ListsShaped, LinksMatch, CountersOk;
    ReleaseShape(s.hooks, ident);
    CounterTells(s, ident);
    var r := Next(s, Free(ident));
    CountersSame(s, r);
    forall t | t != 0 ensures ThreadOk(r.hooks, s.unit, Stack(s, t), t, t in s.current) {
      AllocatedIdents(s, t);
      ThreadUnderHooks(s.hooks, r.hooks, s.unit, Stack(s, t), t, t in s.current);
    }
  }

  // ---------- steps of one thread ----------

  /** If only one thread's stack changes, and the table only there, the others stay in order. */
  lemma OneThread<K>(s: System<K>, r: System<K>, t: nat)
    requires Inv(s) && t != 0 && r.hooks == s.hooks && B.TableOk(r.unit) && B.OthersKept(s.unit, r.unit, t)
    requires forall other | other != t :: Stack(r, other) == Stack(s, other)
              && (other in r.current <==> other in s.current)
    requires ThreadOk(r.hooks, r.unit, Stack(r, t), t, t in r.current)
    requires forall ident ::
               Counter(r, ident) - Counter(s, ident) == CountIn(Stack(r, t), ident) - CountIn(Stack(s, t), ident)
    ensures Inv(r)
  {
    hide InRange, ListsShaped, SlotsMatch, LinksMatch, StackOk, InfoOk, ProtectionOk, Frames, IsOpening, CountIn;
    CountersMove(s, r, t);
    forall other | other != 0 ensures ThreadOk(r.hooks, r.unit, Stack(r, other), other, other in r.current) {
      if other != t {
        assert ThreadOk(s.hooks, s.unit, Stack(s, other), other, other in s.current);
      }
    }
  }

  /** Below the top there are frames and at most one activation that holds the self protection. */
  lemma StackForms<K>(h: HookState<K>, a: seq<Activation>)
    requires StackOk(h, a) && a != []
    ensures !Moving(Rest(a)) && !Pending(Rest(a)) && Settled(Rest(a))
    ensures Moving(a) ==> Base(Rest(a)) == Rest(a) && IsOpening(Rest(a)) == IsOpening(a) && Frames(Rest(a)) == Frames(a)
    ensures Top(a).phase.Opening? ==> IsOpening(a) && Frames(a) == Rest(a)
    ensures Top(a).phase.Admitted? ==> !IsOpening(a) && Frames(a) == a
    ensures Top(a).phase.Admitted? || Top(a).phase.Opening? ==> Frames(Rest(a)) == Rest(a) && !IsOpening(Rest(a))
  {
    var f := Frames(a);
    assert forall k | 0 <= k < |f| :: f[k] == a[k];
    if Moving(a) && |a| > 1 && !IsOpening(a) {
      assert f[|f| - 1] == Top(Rest(a));
    }
    if |a| > 1 && !Moving(a) {
      assert Rest(a)[|a| - 2] == a[|a| - 2] == f[|a| - 2];
    }
  }

  /** An activation that comes on top, or gets on, without entering the handler. */
  lemma OnTop(b: seq<Activation>, act: Activation)
    requires !Moving(b)
    ensures Settled(b) && !Pending(b) ==> Settled(b + [act])
    ensures Base(b) == b
    ensures act.phase.Counted? || act.phase.Checked? ==>
              Base(b + [act]) == b && Frames(b + [act]) == Frames(b) && IsOpening(b + [act]) == IsOpening(b)
    ensures act.phase.Opening? ==>
              Base(b + [act]) == b + [act] && Frames(b + [act]) == b && IsOpening(b + [act])
    ensures act.phase.Admitted? ==>
              Base(b + [act]) == b + [act] && Frames(b + [act]) == b + [act] && !IsOpening(b + [act])
  {
    assert Rest(b + [act]) == b && Top(b + [act]) == act;
  }

  lemma EnterThread<K>(h: HookState<K>, u: B.Unit, a: seq<Activation>, t: nat, isCurrent: bool, act: Activation)
    requires |u.infos| == |u.ids| && ThreadOk(h, u, a, t, isCurrent) && !Moving(a) && !Pending(a)
    requires act.phase.Counted? && act.ident in h.hooks
    ensures ThreadOk(h, u, a + [act], t, isCurrent)
  {
    hide InfoOk, FramesShaped, Frames, IsOpening, Base;
    OnTop(a, act);
  }

  lemma EnterKeeps<K>(s: System<K>, t: nat, ident: nat)
    requires Inv(s) && Enabled(s, Enter(t, ident))
    ensures Inv(Next(s, Enter(t, ident)))
  {
    hide InRange, ListsShaped, SlotsMatch, LinksMatch, CountersOk, ThreadOk, CountIn;
    var a := Stack(s, t);
    var act := Activation(ident, Counted);
    assert ThreadOk(s.hooks, s.unit, a, t, t in s.current);
    EnterThread(s.hooks, s.unit, a, t, t in s.current, act);
    var r := Next(s, Enter(t, ident));
    forall x ensures Counter(r, x) - Counter(s, x) == CountIn(Stack(r, t), x) - CountIn(Stack(s, t), x) {
      CountPush(a, act, x);
    }
    OneThread(s, r, t);
  }

  /** Moving on below the intro, or off the stack again, changes nothing for the barrier. */
  lemma MovingKeeps<K>(h: HookState<K>, u: B.Unit, a: seq<Activation>, t: nat, isCurrent: bool, phase: Phase)
    requires |u.infos| == |u.ids| && ThreadOk(h, u, a, t, isCurrent) && Moving(a)
    ensures ThreadOk(h, u, Rest(a), t, isCurrent)
    ensures phase.Checked? ==> ThreadOk(h, u, Rest(a) + [Top(a).(phase := phase)], t, isCurrent)
  {
    hide InfoOk, FramesShaped, Frames, IsOpening, Base;
    StackForms(h, a);
    OnTop(Rest(a), Top(a).(phase := phase));
    MovingBase(a);
  }

  lemma MovingBase(a: seq<Activation>)
    requires Moving(a)
    ensures Base(a) == Rest(a)
  {
  }

  lemma CheckKeeps<K>(s: System<K>, t: nat)
    requires Inv(s) && Enabled(s, Check(t))
    ensures Inv(Next(s, Check(t)))
  {
    hide InRange, ListsShaped, SlotsMatch, LinksMatch, ThreadOk, CountersOk, CountIn;
    assert ThreadOk(s.hooks, s.unit, Stack(s, t), t, t in s.current);
    MovingKeeps(s.hooks, s.unit, Stack(s, t), t, t in s.current, Checked);
    LeaveCounts(s, t);
    AdvanceCounts(s, t, Checked);
    OneThread(s, Next(s, Check(t)), t);
  }

  lemma DetachKeeps<K>(s: System<K>, t: nat)
    requires Inv(s) && Enabled(s, Detach(t))
    ensures Inv(Next(s, Detach(t)))
  {
    hide InRange, ListsShaped, SlotsMatch, LinksMatch, CountersOk;
    B.RemoveThreadKeeps(s.unit, t);
    assert ThreadOk(s.hooks, s.unit, Stack(s, t), t, t in s.current);
    OneThread(s, Next(s, Detach(t)), t);
  }

  lemma ConfigureKeeps<K>(s: System<K>, step: Step<K>)
    requires Inv(s) && Enabled(s, step) && (step.Configure? || step.ConfigureGlobal?)
    ensures Inv(Next(s, step))
  {
    hide InRange, ListsShaped, SlotsMatch, LinksMatch, StackOk, InfoOk, ProtectionOk, Frames, IsOpening, CountersOk;
    var r := Next(s, step);
    CountersSame(s, r);
    forall t | t != 0 ensures ThreadOk(r.hooks, r.unit, Stack(r, t), t, t in r.current) {
      assert ThreadOk(s.hooks, s.unit, Stack(s, t), t, t in s.current);
    }
  }

  // ---------- the intro ----------

  /** When the intro gets the self protection. */
  predicate Opens<K>(s: System<K>, t: nat, locked: bool)
    requires |s.unit.infos| == |s.unit.ids|
  {
    !locked && s.unit.isInitialized && (if B.Registered(s.unit, t) then !IsOpening(Stack(s, t)) else 0 in s.unit.ids)
  }

  /** The thread and the table after the first part of the intro. */
  lemma OpenThread<K>(s: System<K>, t: nat, locked: bool)
    requires Inv(s) && Enabled(s, OpenIntro(t, locked))
    ensures var ((open, u), a) := (B.Open(s.unit, t, locked), Stack(s, t));
            && (open <==> Opens(s, t, locked)) && (!open ==> u == s.unit)
            && B.TableOk(u) && B.OthersKept(s.unit, u, t)
            && var b := if open then Rest(a) + [Top(a).(phase := Opening(!B.Registered(s.unit, t)))] else Rest(a);
               ThreadOk(s.hooks, u, b, t, t in s.current)
  {
    hide InRange, ListsShaped, SlotsMatch, LinksMatch, CountersOk, B.AddThread, FramesShaped, Frames, IsOpening, Base,
         EntriesOk;
    var a, u := Stack(s, t), s.unit;
    assert ThreadOk(s.hooks, u, a, t, t in s.current);
    MovingKeeps(s.hooks, u, a, t, t in s.current, Counted);
    StackForms(s.hooks, a);
    OnTop(Rest(a), Top(a).(phase := Opening(!B.Registered(u, t))));
    MovingBase(a);
    NotOpening(Rest(a));
    if B.Registered(u, t) {
      B.SetInfoKeeps(u, t, B.InfoOf(u, t).(isProtected := true));
    } else {
      FreeCell(u, t);
      if B.AddThread(u, t).Some? {
        B.AddThreadKeeps(u, t);
        B.SetInfoKeeps(B.AddThread(u, t).value, t, B.NO_THREAD.(isProtected := true));
      }
    }
  }

  lemma NotOpening(b: seq<Activation>)
    ensures !Moving(b) && !IsOpening(b) ==> Frames(b) == b
  {
  }

  lemma FreeCell(u: B.Unit, t: nat)
    requires |u.infos| == |u.ids|
    ensures B.AddThread(u, t).Some? <==> 0 in u.ids
  {
  }

  lemma OpenKeeps<K>(s: System<K>, t: nat, locked: bool)
    requires Inv(s) && Enabled(s, OpenIntro(t, locked))
    ensures Inv(Next(s, OpenIntro(t, locked)))
  {
    hide InRange, ListsShaped, SlotsMatch, LinksMatch, ThreadOk, CountersOk, CountIn, B.Open;
    OpenThread(s, t, locked);
    LeaveCounts(s, t);
    AdvanceCounts(s, t, Opening(!B.Registered(s.unit, t)));
    OneThread(s, Next(s, OpenIntro(t, locked)), t);
  }

  /** The entry with the hook's ident in it, stale contents gone. */
  function Refreshed(runtime: B.RuntimeInfo, ident: nat): (r: B.RuntimeInfo) {
    if runtime.hlsIdent != ident then runtime.(hlsIdent := ident, isExecuting := false) else runtime
  }

  lemma RefreshKeeps<K>(h: HookState<K>, f: seq<Activation>, entries: seq<B.RuntimeInfo>, ident: nat)
    requires Shape(h) && EntriesOk(h, f, entries) && ident in h.hooks
    ensures h.hooks[ident].slot < |entries|
    ensures EntriesOk(h, f, entries[h.hooks[ident].slot := Refreshed(entries[h.hooks[ident].slot], ident)])
  {
    EntryTells(h, f, entries, ident);
    var i := h.hooks[ident].slot;
    var next := entries[i := Refreshed(entries[i], ident)];
    forall j | 0 <= j < |next| && next[j].isExecuting ensures HasFrame(h, f, j) {
      assert entries[j].isExecuting;
    }
  }

  /** A hook whose entry is not executing has no frame yet, so that one more keeps frames and entries in step. */
  lemma PushFrame<K>(h: HookState<K>, f: seq<Activation>, entries: seq<B.RuntimeInfo>, ident: nat, ret: nat, addr: nat,
                    callback: nat)
    requires Shape(h) && FramesShaped(h, f) && EntriesOk(h, f, entries) && ident in h.hooks
    requires h.hooks[ident].slot < |entries| && !entries[h.hooks[ident].slot].isExecuting
    ensures var b := f + [Activation(ident, Admitted(ret, addr, callback, 0))];
            FramesShaped(h, b) && EntriesOk(h, b, entries[h.hooks[ident].slot := B.RuntimeInfo(true, ident, ret, addr)])
  {
    hide InRange, ListsShaped, LinksMatch;
    var i := h.hooks[ident].slot;
    var b := f + [Activation(ident, Admitted(ret, addr, callback, 0))];
    var next := entries[i := B.RuntimeInfo(true, ident, ret, addr)];
    forall k | 0 <= k < |f| ensures h.hooks[f[k].ident].slot != i && f[k].ident != ident && b[k] == f[k] {
      assert entries[h.hooks[f[k].ident].slot].isExecuting;
    }
    forall j | 0 <= j < |next| && next[j].isExecuting ensures HasFrame(h, b, j) {
      if j == i {
        assert h.hooks[b[|f|].ident].slot == i;
      } else {
        var k :| 0 <= k < |f| && f[k].ident in h.hooks && h.hooks[f[k].ident].slot == j;
        assert b[k] == f[k];
      }
    }
  }

  lemma PopFrame<K>(h: HookState<K>, f: seq<Activation>, entries: seq<B.RuntimeInfo>)
    requires Shape(h) && FramesShaped(h, f) && EntriesOk(h, f, entries) && f != []
    ensures Top(f).ident in h.hooks && h.hooks[Top(f).ident].slot < |entries|
    ensures var i := h.hooks[Top(f).ident].slot;
            FramesShaped(h, Rest(f)) && EntriesOk(h, Rest(f), entries[i := entries[i].(isExecuting := false)])
  {
    hide InRange, ListsShaped, LinksMatch;
    var b, last := Rest(f), |f| - 1;
    assert f[last] == Top(f);
    var i := h.hooks[Top(f).ident].slot;
    var next := entries[i := entries[i].(isExecuting := false)];
    forall k | 0 <= k < |b| ensures b[k] == f[k] && h.hooks[b[k].ident].slot != i {
      SlotsDiffer(h, f[k].ident, f[last].ident);
    }
    forall j | 0 <= j < |next| && next[j].isExecuting ensures HasFrame(h, b, j) {
      var k :| 0 <= k < |f| && f[k].ident in h.hooks && h.hooks[f[k].ident].slot == j;
      assert k != last && b[k] == f[k];
    }
  }

  /** The hook has no frame among these. */
  ghost predicate NoFrameOf(f: seq<Activation>, ident: nat) {
    forall k | 0 <= k < |f| :: f[k].ident != ident
  }

  /** The negotiation admits a thread exactly if the hook has no frame on it and both lists admit it. */
  lemma NegotiateKeeps<K>(h: HookState<K>, f: seq<Activation>, info: B.ThreadInfo, global: B.Acl, t: nat,
                          hook: B.HookView, ret: nat, addr: nat)
    requires Shape(h) && FramesShaped(h, f) && info.entries.Some? && EntriesOk(h, f, info.entries.value)
    requires hook.ident in h.hooks && hook.slot == h.hooks[hook.ident].slot && hook.slot < |info.entries.value|
    ensures var (ok, next) := B.Negotiate(global, info, t, hook, ret, addr);
            && (ok <==> NoFrameOf(f, hook.ident) && B.Admits(global, t) && B.Admits(hook.acl, t))
            && var b := if ok then f + [Activation(hook.ident, Admitted(ret, addr, hook.callback, 0))] else f;
               FramesShaped(h, b) && InfoOk(h, b, next, ok) && !next.isProtected
  {
    hide InRange, ListsShaped, SlotsMatch, LinksMatch, FramesShaped, EntriesOk, HasFrame;
    var entries := info.entries.value;
    EntryTells(h, f, entries, hook.ident);
    RefreshKeeps(h, f, entries, hook.ident);
    var next := entries[hook.slot := Refreshed(entries[hook.slot], hook.ident)];
    if !next[hook.slot].isExecuting {
      PushFrame(h, f, next, hook.ident, ret, addr, hook.callback);
      assert next[hook.slot := B.RuntimeInfo(true, hook.ident, ret, addr)] ==
               entries[hook.slot := B.RuntimeInfo(true, hook.ident, ret, addr)];
    }
    B.InterceptedIff(global, hook.acl, t);
  }

  /** With blank entries all is in order for a thread without frames. */
  lemma BlankOk<K>(h: HookState<K>)
    ensures EntriesOk(h, [], B.BlankEntries())
  {
  }

  /** When the second part of an intro lets the thread into the handler. */
  ghost predicate Enters<K>(s: System<K>, t: nat, granted: bool)
    requires At(s, t) && Top(Stack(s, t)).phase.Opening?
  {
    var (a, hook) := (Stack(s, t), View(s, Top(Stack(s, t)).ident));
    && (Top(a).phase.new_ ==> granted) && NoFrameOf(Frames(a), hook.ident)
    && B.Admits(s.unit.globalAcl, t) && B.Admits(hook.acl, t)
  }

  lemma DecideThread<K>(s: System<K>, t: nat, ret: nat, addr: nat, granted: bool)
    requires Inv(s) && Enabled(s, DecideIntro(t, ret, addr, granted))
    ensures View(s, Top(Stack(s, t)).ident).slot < MAX_HOOK_COUNT
    ensures var (a, hook) := (Stack(s, t), View(s, Top(Stack(s, t)).ident));
            var (ok, u) := B.Decide(s.unit, t, Top(a).phase.new_, hook, ret, addr, granted);
            && (ok <==> Enters(s, t, granted)) && B.TableOk(u) && B.OthersKept(s.unit, u, t)
            && var b := if ok then Rest(a) + [Top(a).(phase := Admitted(ret, addr, hook.callback, 0))] else Rest(a);
               ThreadOk(s.hooks, u, b, t, ok)
  {
    hide InRange, ListsShaped, SlotsMatch, LinksMatch, CountersOk, FramesShaped, EntriesOk, B.Negotiate, Frames,
         IsOpening, Base, NoFrameOf, B.Admits, B.BlankEntries;
    var a, u := Stack(s, t), s.unit;
    var act, hook := Top(a), View(s, Top(a).ident);
    SlotBound(s.hooks, act.ident);
    assert ThreadOk(s.hooks, u, a, t, t in s.current);
    StackForms(s.hooks, a);
    OpeningBase(a);
    OnTop(Rest(a), act.(phase := Admitted(ret, addr, hook.callback, 0)));
    var info := B.InfoOf(u, t);
    var ready := if act.phase.new_ then info.(entries := Some(B.BlankEntries())) else info;
    if act.phase.new_ && !granted {
      NoFramesShaped(s.hooks);
      B.SetInfoKeeps(u, t, B.Declined(info));
    } else {
      BlankOk(s.hooks);
      NegotiateKeeps(s.hooks, Rest(a), ready, u.globalAcl, t, hook, ret, addr);
      B.SetInfoKeeps(u, t, B.Negotiate(u.globalAcl, ready, t, hook, ret, addr).1);
    }
  }

  lemma OpeningBase(a: seq<Activation>)
    requires a != [] && Top(a).phase.Opening?
    ensures Base(a) == a
  {
  }

  lemma NoFramesShaped<K>(h: HookState<K>)
    ensures FramesShaped(h, [])
  {
  }

  lemma DecideKeeps<K>(s: System<K>, t: nat, ret: nat, addr: nat, granted: bool)
    requires Inv(s) && Enabled(s, DecideIntro(t, ret, addr, granted))
    ensures Inv(Next(s, DecideIntro(t, ret, addr, granted)))
  {
    hide InRange, ListsShaped, SlotsMatch, LinksMatch, ThreadOk, CountersOk, CountIn, B.Decide, Enters;
    DecideThread(s, t, ret, addr, granted);
    LeaveCounts(s, t);
    AdvanceCounts(s, t, Admitted(ret, addr, View(s, Top(Stack(s, t)).ident).callback, 0));
    OneThread(s, Next(s, DecideIntro(t, ret, addr, granted)), t);
  }

  // ---------- the jump ----------

  /** Having jumped makes no difference for the barrier. */
  lemma JumpThread<K>(h: HookState<K>, u: B.Unit, a: seq<Activation>, t: nat, isCurrent: bool, proc: nat)
    requires proc != 0 && |u.infos| == |u.ids| && ThreadOk(h, u, a, t, isCurrent) && Pending(a)
    ensures ThreadOk(h, u, Rest(a) + [Top(a).(phase := Top(a).phase.(handler := proc))], t, isCurrent)
  {
    hide Frames, IsOpening, Base, EntriesOk, FramesShaped, CurrentOk;
    var act := Top(a).(phase := Top(a).phase.(handler := proc));
    var b := Rest(a) + [act];
    StackForms(h, a);
    OnTop(Rest(a), act);
    JumpFrames(h, a, b, proc);
    if B.Registered(u, t) && B.InfoOf(u, t).entries.Some? {
      JumpEntries(h, a, b, B.InfoOf(u, t).entries.value, proc);
    }
    if isCurrent {
      JumpCurrent(h, a, b, B.InfoOf(u, t), proc);
    }
  }

  /** The stacks differ in whether the newest activation has jumped. */
  predicate Jumped(a: seq<Activation>, b: seq<Activation>, proc: nat) {
    && |b| == |a| > 0 && Top(a).phase.Admitted?
    && b == Rest(a) + [Top(a).(phase := Top(a).phase.(handler := proc))]
  }

  lemma JumpFrames<K>(h: HookState<K>, a: seq<Activation>, b: seq<Activation>, proc: nat)
    requires Jumped(a, b, proc) && FramesShaped(h, a)
    ensures FramesShaped(h, b)
  {
    assert forall k | 0 <= k < |a| :: b[k].ident == a[k].ident && (a[k].phase.Admitted? ==> b[k].phase.Admitted?);
  }

  lemma JumpEntries<K>(h: HookState<K>, a: seq<Activation>, b: seq<Activation>, entries: seq<B.RuntimeInfo>,
                       proc: nat)
    requires Jumped(a, b, proc) && FramesShaped(h, a) && EntriesOk(h, a, entries)
    ensures EntriesOk(h, b, entries)
  {
    forall k | 0 <= k < |a|
      ensures b[k].ident == a[k].ident && b[k].phase.Admitted? && b[k].phase.retAddress == a[k].phase.retAddress
      ensures b[k].phase.addrOfRetAddr == a[k].phase.addrOfRetAddr
    {
    }
    forall i | 0 <= i < |entries| && entries[i].isExecuting ensures HasFrame(h, b, i) {
      var k :| 0 <= k < |a| && a[k].ident in h.hooks && h.hooks[a[k].ident].slot == i;
      assert b[k].ident == a[k].ident;
    }
  }

  lemma JumpCurrent<K>(h: HookState<K>, a: seq<Activation>, b: seq<Activation>, info: B.ThreadInfo, proc: nat)
    requires Jumped(a, b, proc) && CurrentOk(h, a, info)
    ensures CurrentOk(h, b, info)
  {
  }

  lemma JumpKeeps<K>(s: System<K>, t: nat)
    requires Inv(s) && Enabled(s, Jump(t))
    ensures Inv(Next(s, Jump(t)))
  {
    hide InRange, ListsShaped, SlotsMatch, LinksMatch, ThreadOk, CountersOk, CountIn;
    var a := Stack(s, t);
    if s.hooks.hooks[Top(a).ident].armed() {
      assert ThreadOk(s.hooks, s.unit, a, t, t in s.current);
      var proc := s.hooks.hooks[Top(a).ident].proc;
      JumpThread(s.hooks, s.unit, a, t, t in s.current, proc);
      AdvanceCounts(s, t, Top(a).phase.(handler := proc));
      OneThread(s, Next(s, Jump(t)), t);
    } else {
      SameKeeps(s, Next(s, Jump(t)));
    }
  }

  /** The invariant does not speak of faults and departures. */
  lemma SameKeeps<K>(s: System<K>, r: System<K>)
    requires Inv(s) && r == s.(leaving := r.leaving, fault := r.fault)
    ensures Inv(r)
  {
    hide InRange, ListsShaped, SlotsMatch, LinksMatch, StackOk, InfoOk, ProtectionOk, Frames, IsOpening, CountersOk;
    CountersSame(s, r);
    forall t | t != 0 ensures ThreadOk(r.hooks, r.unit, Stack(r, t), t, t in r.current) {
      assert ThreadOk(s.hooks, s.unit, Stack(s, t), t, t in s.current);
    }
  }

  lemma ExitKeeps<K>(s: System<K>, t: nat)
    requires Inv(s) && Enabled(s, Exit(t))
    ensures Inv(Next(s, Exit(t)))
  {
    hide InRange, ListsShaped, SlotsMatch, LinksMatch, ThreadOk, CountersOk;
    SameKeeps(s, Next(s, Exit(t)));
  }

  // ---------- the outro ----------

  lemma OutroThread<K>(s: System<K>, t: nat)
    requires Inv(s) && Enabled(s, CallOutro(t))
    ensures var (a, hook) := (Stack(s, t), View(s, Top(Stack(s, t)).ident));
            var (address, u) := B.Outro(s.unit, t, hook);
            && address == Top(a).phase.retAddress && B.TableOk(u) && B.OthersKept(s.unit, u, t)
            && ThreadOk(s.hooks, u, Rest(a), t, false)
  {
    hide InRange, ListsShaped, SlotsMatch, LinksMatch, CountersOk, Frames, IsOpening, Base;
    var a := Stack(s, t);
    assert ThreadOk(s.hooks, s.unit, a, t, t in s.current);
    StackForms(s.hooks, a);
    var info := B.InfoOf(s.unit, t);
    var entries := info.entries.value;
    PopFrame(s.hooks, a, entries);
    assert a[|a| - 1] == Top(a);
    var i := s.hooks.hooks[Top(a).ident].slot;
    var next := Some(entries[i := entries[i].(isExecuting := false)]);
    B.SetInfoKeeps(s.unit, t, info.(current := None, callback := 0, entries := next));
  }

  lemma OutroKeeps<K>(s: System<K>, t: nat)
    requires Inv(s) && Enabled(s, CallOutro(t))
    ensures Inv(Next(s, CallOutro(t)))
    ensures B.Outro(s.unit, t, View(s, Top(Stack(s, t)).ident)).0 == Top(Stack(s, t)).phase.retAddress
  {
    hide InRange, ListsShaped, SlotsMatch, LinksMatch, ThreadOk, CountersOk, CountIn, B.Outro;
    OutroThread(s, t);
    LeaveCounts(s, t);
    OneThread(s, Next(s, CallOutro(t)), t);
  }

  // ---------- reachable states ----------

  lemma StepKeeps<K>(s: System<K>, step: Step<K>)
    requires Inv(s) && Enabled(s, step)
    ensures Inv(Next(s, step))
  {
    hide Inv, Enabled, Next;
    match step
    case Change(op) => ChangeKeeps(s, op);
    case Configure(_, _) => ConfigureKeeps(s, step);
    case ConfigureGlobal(_) => ConfigureKeeps(s, step);
    case Pop => PopKeeps(s);
    case Free(ident) => FreeKeeps(s, ident);
    case Enter(t, ident) => EnterKeeps(s, t, ident);
    case Check(t) => CheckKeeps(s, t);
    case OpenIntro(t, locked) => OpenKeeps(s, t, locked);
    case DecideIntro(t, ret, addr, granted) => DecideKeeps(s, t, ret, addr, granted);
    case Jump(t) => JumpKeeps(s, t);
    case CallOutro(t) => OutroKeeps(s, t);
    case Exit(t) => ExitKeeps(s, t);
    case Detach(t) => DetachKeeps(s, t);
  }

  /** Every step is enabled when its turn comes. */
  ghost predicate Runs<K>(s: System<K>, steps: seq<Step<K>>)
    decreases |steps|
  {
    steps == [] ||
    (Shape(s.hooks) && B.TableOk(s.unit) && Enabled(s, steps[0]) && Runs(Next(s, steps[0]), steps[1..]))
  }

  ghost function After<K>(s: System<K>, steps: seq<Step<K>>): (r: System<K>)
    requires Runs(s, steps)
    decreases |steps|
  {
    if steps == [] then s else After(Next(s, steps[0]), steps[1..])
  }

  lemma {:induction false} RunKeeps<K>(s: System<K>, steps: seq<Step<K>>)
    requires Inv(s) && Runs(s, steps)
    ensures Inv(After(s, steps))
    decreases |steps|
  {
    hide Inv, Enabled, Next;
    if steps != [] {
      StepKeeps(s, steps[0]);
      RunKeeps(Next(s, steps[0]), steps[1..]);
    }
  }
}
