/** The stretch behind the decrement of the execution counter: a thread that still runs in the page of a hook there is
  * not counted, so that the page can be freed under it. */
module PageReuse {
  import opened Words
  import opened HookLifecycle
  import opened HookRuns
  import opened HookSystem
  import opened HookSafety
  import opened FaultRuns
  import B = Barrier

  /** A thread runs in the page of the hook behind the decrement. */
  ghost predicate Lingers<K>(s: System<K>, ident: nat) {
    exists t, k :: 0 <= k < |Leaving(s, t)| && Leaving(s, t)[k].ident == ident
  }

  /** Every page that a thread runs in is allocated, counted or not. */
  ghost predicate PagesKept<K>(s: System<K>) {
    && (forall t, k | 0 <= k < |Stack(s, t)| :: Stack(s, t)[k].ident in s.hooks.hooks)
    && (forall t, k | 0 <= k < |Leaving(s, t)| :: Leaving(s, t)[k].ident in s.hooks.hooks)
  }

  // ---------- what a step does to the pages ----------

  /** Departures come from activations; hooks disappear only when they are freed. */
  lemma StepOnPages<K>(s: System<K>, step: Step<K>, t: nat)
    requires Shape(s.hooks) && B.TableOk(s.unit) && Enabled(s, step)
    ensures var (d, e) := (Leaving(s, t), Leaving(Next(s, step), t));
            || e == d || (d != [] && e == d[..|d| - 1])
            || (Stack(s, t) != [] && e == d + [Departure(Top(Stack(s, t)).ident, |Stack(s, t)| - 1)])
  {
    hide Shape, B.TableOk, B.Open, B.Decide, B.Outro, Apply, PopHook, Release, IsOpening, View, B.Registered,
         B.HasEntries, B.OutroOk, OpOk;
  }

  lemma HooksStay<K>(s: System<K>, step: Step<K>, ident: nat)
    requires Inv(s) && Shape(s.hooks) && B.TableOk(s.unit) && Enabled(s, step) && ident in s.hooks.hooks
    ensures ident in Next(s, step).hooks.hooks <==> step != Free(ident)
  {
    hide InRange, ListsShaped, LinksMatch, SlotsMatch, ThreadOk, CountersOk, Apply, B.Open, B.Decide, B.Outro;
    if step.Change? {
      ChangeExtends(s.hooks, step.op);
    }
  }

  lemma StackAllocated<K>(s: System<K>, t: nat, k: nat)
    requires Inv(s) && k < |Stack(s, t)|
    ensures Stack(s, t)[k].ident in s.hooks.hooks
  {
    hide Shape, CountersOk;
    AllocatedIdents(s, t);
  }

  /** A step keeps all pages in use unless it frees one in which a thread lingers. */
  lemma StepKeepsPages<K>(s: System<K>, step: Step<K>)
    requires Inv(s) && Shape(s.hooks) && B.TableOk(s.unit) && Enabled(s, step) && PagesKept(s)
    ensures PagesKept(Next(s, step)) <==> !(step.Free? && Lingers(s, step.ident))
  {
    hide Inv, Shape, B.TableOk, Enabled, Next;
    var r := Next(s, step);
    StepKeeps(s, step);
    forall t, k | 0 <= k < |Stack(r, t)| ensures Stack(r, t)[k].ident in r.hooks.hooks {
      StackAllocated(r, t, k);
    }
    if step.Free? && Lingers(s, step.ident) {
      var t, k :| 0 <= k < |Leaving(s, t)| && Leaving(s, t)[k].ident == step.ident;
      FreeStays(s, step, t);
      HooksStay(s, step, step.ident);
      assert Leaving(r, t)[k].ident == step.ident;
    } else {
      forall t, k | 0 <= k < |Leaving(r, t)| ensures Leaving(r, t)[k].ident in r.hooks.hooks {
        StepOnPages(s, step, t);
        var ident := Leaving(r, t)[k].ident;
        if k < |Leaving(s, t)| {
          assert Leaving(s, t)[k].ident == ident;
        } else {
          assert Top(Stack(s, t)) == Stack(s, t)[|Stack(s, t)| - 1];
          StackAllocated(s, t, |Stack(s, t)| - 1);
          NotFreed(s, step, t, |Stack(s, t)| - 1);
        }
        HooksStay(s, step, ident);
      }
    }
  }

  lemma FreeStays<K>(s: System<K>, step: Step<K>, t: nat)
    requires Shape(s.hooks) && B.TableOk(s.unit) && Enabled(s, step) && step.Free?
    ensures Leaving(Next(s, step), t) == Leaving(s, t)
  {
    hide Shape, B.TableOk, Release;
  }

  /** A hook with an activation is not freed. */
  lemma NotFreed<K>(s: System<K>, step: Step<K>, t: nat, k: nat)
    requires Inv(s) && Shape(s.hooks) && B.TableOk(s.unit) && Enabled(s, step) && k < |Stack(s, t)|
    ensures step != Free(Stack(s, t)[k].ident)
  {
    hide Shape, B.TableOk, ThreadOk, CountersOk;
    if step == Free(Stack(s, t)[k].ident) {
      CounterTells(s, Stack(s, t)[k].ident);
    }
  }

  // ---------- runs ----------

  /** In every state of the run all pages in use are allocated. */
  ghost predicate PagesKeptThroughout<K>(s: System<K>, steps: seq<Step<K>>)
    requires Runs(s, steps)
    decreases |steps|
  {
    PagesKept(s) && (steps == [] || PagesKeptThroughout(Next(s, steps[0]), steps[1..]))
  }

  /** No step of the run frees a page in which a thread lingers. */
  ghost predicate NoFreeHits<K>(s: System<K>, steps: seq<Step<K>>)
    requires Runs(s, steps)
    decreases |steps|
  {
    steps == [] ||
    (!(steps[0].Free? && Lingers(s, steps[0].ident)) && NoFreeHits(Next(s, steps[0]), steps[1..]))
  }

  /** Over a run, no thread ever runs in a freed page if and only if no page is freed while a thread lingers in it. */
  lemma {:induction false} PagesKeptIff<K>(s: System<K>, steps: seq<Step<K>>)
    requires Inv(s) && Runs(s, steps) && PagesKept(s)
    ensures PagesKeptThroughout(s, steps) <==> NoFreeHits(s, steps)
    decreases |steps|
  {
    hide Inv, Next, Enabled, PagesKept, Lingers, Shape, B.TableOk;
    if steps != [] {
      StepKeeps(s, steps[0]);
      StepKeepsPages(s, steps[0]);
      if PagesKept(Next(s, steps[0])) {
        PagesKeptIff(Next(s, steps[0]), steps[1..]);
      } else {
        NotKept(Next(s, steps[0]), steps[1..]);
      }
    }
  }

  lemma NotKept<K>(s: System<K>, steps: seq<Step<K>>)
    requires Runs(s, steps) && !PagesKept(s)
    ensures !PagesKeptThroughout(s, steps)
  {
    hide PagesKept, Next, Enabled;
  }

  /** From the start the pages are kept. */
  lemma LoadedKeepsPages<K>(mem: seq<byte>, auxUlib: bool, steps: seq<Step<K>>)
    requires Runs(Loaded<K>(mem, auxUlib), steps)
    ensures PagesKeptThroughout(Loaded<K>(mem, auxUlib), steps) <==> NoFreeHits(Loaded<K>(mem, auxUlib), steps)
  {
    hide Runs, PagesKeptThroughout, NoFreeHits, Inv;
    InitialInv<K>(mem, auxUlib);
    PagesKeptIff(Loaded<K>(mem, auxUlib), steps);
  }

  // ---------- a run that frees a page in use ----------

  /** A thread finds the hook uninstalled, gives up its count, and is in the page yet when the wait frees it. */
  ghost function FreedUnder(jumper: seq<byte>): (steps: seq<Step<nat>>) {
    [Change(InstallOp(1, 0, Ready(jumper, 1, 0))), Enter(7, FIRST_IDENT), Change(UninstallOp(1)), Check(7), Pop,
     Free(FIRST_IDENT)]
  }

  lemma PageFreedUnderThread(jumper: seq<byte>)
    requires |jumper| == 5
    ensures var start := Loaded<nat>(seq(16, _ => 0), true);
            && Runs(start, FreedUnder(jumper)) && !NoFreeHits(start, FreedUnder(jumper))
            && var s := After(start, FreedUnder(jumper));
               s.hooks.hooks == map[] && Leaving(s, 7) == [Departure(FIRST_IDENT, 0)] && !PagesKept(s)
  {
    hide Runs, After, NoFreeHits, FreedUnder, Loaded, PagesKeptThroughout, Inv;
    var start := Loaded<nat>(seq(16, _ => 0), true);
    var s := FreedUnderRuns(jumper);
    assert !PagesKept(s) by {
      assert Leaving(s, 7)[0].ident == FIRST_IDENT;
    }
    LoadedKeepsPages<nat>(seq(16, _ => 0), true, FreedUnder(jumper));
    LastKept(start, FreedUnder(jumper));
  }

  lemma {:induction false} LastKept<K>(s: System<K>, steps: seq<Step<K>>)
    requires Runs(s, steps)
    ensures PagesKeptThroughout(s, steps) ==> PagesKept(After(s, steps))
    decreases |steps|
  {
    hide PagesKept, Next, Enabled, Shape, B.TableOk;
    if steps != [] {
      LastKept(Next(s, steps[0]), steps[1..]);
    }
  }

  lemma FreedUnderRuns(jumper: seq<byte>) returns (s: System<nat>)
    requires |jumper| == 5
    ensures var start := Loaded<nat>(seq(16, _ => 0), true);
            && Runs(start, FreedUnder(jumper)) && s == After(start, FreedUnder(jumper))
            && s.hooks.hooks == map[] && Leaving(s, 7) == [Departure(FIRST_IDENT, 0)]
  {
    hide Inv, Equipped, Shape, B.TableOk, Install, Uninstall, Leads;
    OneHook(jumper);
    var steps := FreedUnder(jumper);
    var a := Installed(jumper, steps);
    var start := Loaded<nat>(seq(16, _ => 0), true);
    EnterNext(a);
    var b := Extend(start, steps, 1, a);
    var c := Extend(start, steps, 2, b);
    var d := TurnedAway(start, steps, c);
    s := ThenFreed(start, steps, d);
    LeadsRuns(start, steps, s);
  }

  lemma TurnedAway(start: System<nat>, steps: seq<Step<nat>>, c: System<nat>) returns (d: System<nat>)
    requires |steps| >= 4 && Leads(start, steps[..3], c) && steps[3] == Check(7) && c.fault.None?
    requires Stack(c, 7) == [Activation(FIRST_IDENT, Counted)] && Leaving(c, 7) == [] && Counter(c, FIRST_IDENT) == 1
    requires FIRST_IDENT in c.hooks.hooks && !c.hooks.hooks[FIRST_IDENT].armed()
    ensures Leads(start, steps[..4], d) && d.hooks == c.hooks && d.fault.None? && Counter(d, FIRST_IDENT) == 0
    ensures Leaving(d, 7) == [Departure(FIRST_IDENT, 0)]
  {
    hide Inv, Equipped, Shape, B.TableOk, Leads, Enabled, Next, Granted;
    CheckNext(c);
    d := Extend(start, steps, 3, c);
  }

  lemma ThenFreed(start: System<nat>, steps: seq<Step<nat>>, d: System<nat>) returns (s: System<nat>)
    requires |steps| == 6 && Leads(start, steps[..4], d) && steps[4] == Pop && steps[5] == Free(FIRST_IDENT)
    requires d.hooks.removal == [FIRST_IDENT] && d.hooks.hooks.Keys == {FIRST_IDENT}
    requires !d.hooks.hooks[FIRST_IDENT].armed() && d.fault.None? && Counter(d, FIRST_IDENT) == 0
    ensures Leads(start, steps, s) && s.hooks.hooks == map[] && s.leaving == d.leaving
  {
    hide Inv, Equipped, Shape, B.TableOk, Leads, Release, PopHook;
    assert steps[..6] == steps;
    var e := Extend(start, steps, 4, d);
    PoppedHooks(d.hooks);
    s := Extend(start, steps, 5, e);
    ReleasedHooks(e.hooks, FIRST_IDENT);
  }

  lemma LeadsRuns<K>(s: System<K>, steps: seq<Step<K>>, r: System<K>)
    requires Leads(s, steps, r)
    ensures Runs(s, steps) && r == After(s, steps)
  {
  }

  lemma PoppedHooks<K>(h: HookState<K>)
    requires Shape(h) && h.removal == [FIRST_IDENT] && h.hooks.Keys == {FIRST_IDENT} && !h.hooks[FIRST_IDENT].armed()
    ensures PopHook(h).hooks.Keys == {FIRST_IDENT} && PopHook(h).removal == [] && !PopHook(h).hooks[FIRST_IDENT].armed()
  {
  }

  lemma ReleasedHooks<K>(h: HookState<K>, ident: nat)
    requires Shape(h) && h.hooks.Keys == {ident}
    ensures Release(h, ident).hooks == map[]
  {
  }
}
