/** The thread table under concurrency (barrier.c): adding and removing threads take the lock, looking up does not.
  * Every step reads or writes one cell of IdList, in any order of threads. */
module ThreadLookup {
  import opened Limits
  import opened Words
  import B = Barrier

  /** Where a thread is: in TlsAddCurrentThread with the free cell found so far (-1 for none), in
    * TlsRemoveCurrentThread, in TlsGetCurrentValue, or back from it with the answer. */
  datatype Place =
    | Elsewhere | Adding(i: nat, index: int) | Removing(i: nat) | Looking(i: nat) | Answered(cell: Option<nat>)

  /** `holder` is the thread that owns the lock, 0 for none. */
  datatype Table = Table(ids: seq<nat>, holder: nat, places: map<nat, Place>)

  function At(s: Table, t: nat): (p: Place) {
    if t in s.places then s.places[t] else Elsewhere
  }

  function Go(s: Table, t: nat, p: Place): (r: Table)
    ensures At(r, t) == p && forall other | other != t :: At(r, other) == At(s, other)
    ensures r.ids == s.ids && r.holder == s.holder
  {
    s.(places := s.places[t := p])
  }

  datatype Call = Add | Remove | Get

  /** A thread begins a call, or makes one step in the call it is in. */
  datatype Step = Begin(t: nat, call: Call) | Advance(t: nat)

  /** A call that takes the lock waits for it; the scan of an addition asserts that the thread is not in the table. */
  predicate Enabled(s: Table, step: Step) {
    match step
    case Begin(t, call) =>
      t != 0 && (At(s, t).Elsewhere? || At(s, t).Answered?) && (call != Get ==> s.holder == 0)
    case Advance(t) =>
      && t != 0
      && match At(s, t)
         case Elsewhere => false
         case Answered(_) => false
         case Adding(i, index) => i < |s.ids| ==> s.ids[i] != t
         case Removing(_) => true
         case Looking(_) => true
  }

  /** The end of an addition: nothing free, or the free cell is taken. */
  function Finish(s: Table, t: nat, index: int): (r: Table) {
    Go(s, t, Elsewhere).(holder := 0, ids := if 0 <= index < |s.ids| then s.ids[index := t] else s.ids)
  }

  function Next(s: Table, step: Step): (r: Table)
    requires Enabled(s, step)
  {
    match step
    case Begin(t, Add) => Go(s, t, Adding(0, -1)).(holder := t)
    case Begin(t, Remove) => Go(s, t, Removing(0)).(holder := t)
    case Begin(t, Get) => Go(s, t, Looking(0))
    case Advance(t) =>
      match At(s, t)
      case Adding(i, index) =>
        if i >= |s.ids| then Finish(s, t, index)
        else Go(s, t, Adding(i + 1, if s.ids[i] == 0 && index == -1 then i else index))
      case Removing(i) =>
        if i >= |s.ids| then Go(s, t, Elsewhere).(holder := 0)
        else Go(s, t, Removing(i + 1)).(ids := if s.ids[i] == t then s.ids[i := 0] else s.ids)
      case Looking(i) =>
        if i >= |s.ids| then Go(s, t, Answered(None))
        else if s.ids[i] == t then Go(s, t, Answered(Some(i))) else Go(s, t, Looking(i + 1))
      case _ => s
  }

  // ---------- invariant ----------

  ghost predicate Unique(ids: seq<nat>) {
    forall i, j | 0 <= i < j < |ids| && ids[i] != 0 :: ids[i] != ids[j]
  }

  /** The first `i` cells do not hold the thread. */
  ghost predicate NotAmong(ids: seq<nat>, i: nat, t: nat) {
    forall j | 0 <= j < i && j < |ids| :: ids[j] != t
  }

  /** What a thread may rely on where it is. */
  ghost predicate PlaceOk(ids: seq<nat>, holder: nat, t: nat, p: Place) {
    match p
    case Elsewhere => holder != t
    case Adding(i, index) =>
      && holder == t && i <= |ids| && NotAmong(ids, i, t)
      && if index == -1 then NotAmong(ids, i, 0) else 0 <= index < i && ids[index] == 0 && NotAmong(ids, index, 0)
    case Removing(i) => holder == t && i <= |ids| && NotAmong(ids, i, t)
    case Looking(i) => holder != t && i <= |ids| && NotAmong(ids, i, t)
    case Answered(cell) =>
      && holder != t
      && if cell.Some? then cell.value < |ids| && ids[cell.value] == t else t !in ids
  }

  ghost predicate Inv(s: Table) {
    && |s.ids| == MAX_THREAD_COUNT && Unique(s.ids)
    && forall t | t != 0 :: PlaceOk(s.ids, s.holder, t, At(s, t))
  }

  /** A step of another thread does not change which cells hold a thread, nor that a free cell remembered under the
    * lock is free. */
  lemma OtherPlace(ids: seq<nat>, next: seq<nat>, holder: nat, holder': nat, t: nat, p: Place)
    requires PlaceOk(ids, holder, t, p) && t != 0 && |next| == |ids| && (holder == t <==> holder' == t)
    requires forall j | 0 <= j < |ids| :: next[j] == t <==> ids[j] == t
    requires holder == t ==> next == ids
    ensures PlaceOk(next, holder', t, p)
  {
  }

  /** Every step of every thread keeps the table unique and all threads in order. */
  lemma StepKeeps(s: Table, step: Step)
    requires Inv(s) && Enabled(s, step)
    ensures Inv(Next(s, step))
  {
    var r := Next(s, step);
    var t := step.t;
    assert PlaceOk(s.ids, s.holder, t, At(s, t));
    OwnStep(s, step);
    forall other | other != 0 ensures PlaceOk(r.ids, r.holder, other, At(r, other)) {
      if other != t {
        assert PlaceOk(s.ids, s.holder, other, At(s, other)) && Undisturbed(s, r, other);
        OtherPlace(s.ids, r.ids, s.holder, r.holder, other, At(s, other));
      }
    }
  }

  /** The cells of a thread, and its hold on the lock, are as before; with the lock in its hand nothing changes. */
  ghost predicate Undisturbed(s: Table, r: Table, t: nat) {
    && |r.ids| == |s.ids| && (s.holder == t <==> r.holder == t) && (s.holder == t ==> r.ids == s.ids)
    && forall j | 0 <= j < |s.ids| :: r.ids[j] == t <==> s.ids[j] == t
  }

  lemma OwnStep(s: Table, step: Step)
    requires |s.ids| == MAX_THREAD_COUNT && Unique(s.ids) && Enabled(s, step)
    requires PlaceOk(s.ids, s.holder, step.t, At(s, step.t))
    ensures var r := Next(s, step);
            && |r.ids| == MAX_THREAD_COUNT && Unique(r.ids) && PlaceOk(r.ids, r.holder, step.t, At(r, step.t))
            && (forall other | other != step.t && other != 0 :: Undisturbed(s, r, other))
  {
  }

  // ---------- runs ----------

  ghost predicate Runs(s: Table, steps: seq<Step>)
    decreases |steps|
  {
    steps == [] || (Enabled(s, steps[0]) && Runs(Next(s, steps[0]), steps[1..]))
  }

  ghost function After(s: Table, steps: seq<Step>): (r: Table)
    requires Runs(s, steps)
    decreases |steps|
  {
    if steps == [] then s else After(Next(s, steps[0]), steps[1..])
  }

  const EMPTY: Table := Table(seq(MAX_THREAD_COUNT, _ => 0), 0, map[])

  lemma {:induction false} RunKeeps(s: Table, steps: seq<Step>)
    requires Inv(s) && Runs(s, steps)
    ensures Inv(After(s, steps))
    decreases |steps|
  {
    if steps != [] {
      StepKeeps(s, steps[0]);
      RunKeeps(Next(s, steps[0]), steps[1..]);
    }
  }

  /** Under any interleaving ids are unique, and a lookup without the lock that has its answer found the thread's own
    * cell if and only if the thread is in the table. */
  lemma LookupIsExact(steps: seq<Step>, t: nat)
    requires Runs(EMPTY, steps) && t != 0
    ensures var s := After(EMPTY, steps);
            && Unique(s.ids)
            && (At(s, t).Answered? ==>
                  && (At(s, t).cell.Some? <==> t in s.ids)
                  && (At(s, t).cell.Some? ==> At(s, t).cell.value < |s.ids| && s.ids[At(s, t).cell.value] == t))
  {
    assert Inv(EMPTY);
    RunKeeps(EMPTY, steps);
    assert PlaceOk(After(EMPTY, steps).ids, After(EMPTY, steps).holder, t, At(After(EMPTY, steps), t));
  }

  /** While a thread looks itself up, nobody else registers or removes it. */
  lemma OthersDoNotMatter(s: Table, step: Step, t: nat)
    requires Inv(s) && Enabled(s, step) && t != 0 && step.t != t
    ensures t in s.ids <==> t in Next(s, step).ids
  {
    assert PlaceOk(s.ids, s.holder, step.t, At(s, step.t));
    OwnStep(s, step);
    var r := Next(s, step);
    assert Undisturbed(s, r, t);
    if t in s.ids {
      var j :| 0 <= j < |s.ids| && s.ids[j] == t;
      assert r.ids[j] == t;
    }
  }

  // ---------- what additions and removals leave behind ----------

  /** From `s` on the thread stays in the call that holds the lock, until the last step ends it. */
  ghost predicate Ends(s: Table, steps: seq<Step>, t: nat)
    requires Runs(s, steps)
    decreases |steps|
  {
    if steps == [] then At(s, t).Elsewhere?
    else (At(s, t).Adding? || At(s, t).Removing?) && Ends(Next(s, steps[0]), steps[1..], t)
  }

  /** The other threads leave the lock, and so all cells, alone. */
  lemma OthersWait(s: Table, step: Step, t: nat)
    requires Inv(s) && Enabled(s, step) && t != 0 && step.t != t && s.holder == t
    ensures Next(s, step).ids == s.ids && Next(s, step).holder == t && At(Next(s, step), t) == At(s, t)
  {
    assert PlaceOk(s.ids, s.holder, step.t, At(s, step.t));
    OwnStep(s, step);
    assert Undisturbed(s, Next(s, step), t);
  }

  /** Under any interleaving, an addition that has begun ends with the thread in the first cell that was free then and
    * all other cells as they were, or with the table unchanged if none was free: as if it had been one step. */
  lemma {:induction false} AddIsAtomic(s: Table, steps: seq<Step>, u: B.Unit, t: nat)
    requires Inv(s) && t != 0 && At(s, t).Adding? && Runs(s, steps) && Ends(s, steps, t)
    requires u.ids == s.ids && |u.infos| == |u.ids|
    ensures var ids := After(s, steps).ids;
            && (t in ids <==> 0 in s.ids)
            && ids == match B.AddThread(u, t) { case None => s.ids case Some(v) => v.ids }
    decreases |steps|
  {
    hide Inv, Next, B.AddThread;
    var step, rest := steps[0], steps[1..];
    StepKeeps(s, step);
    InvHolds(s, t);
    if step.t != t {
      OthersWait(s, step, t);
      AddIsAtomic(Next(s, step), rest, u, t);
    } else if At(Next(s, step), t).Adding? {
      ScanLeaves(s, step);
      AddIsAtomic(Next(s, step), rest, u, t);
    } else {
      LastStep(s, step, rest, u);
    }
  }

  lemma InvHolds(s: Table, t: nat)
    requires Inv(s) && t != 0
    ensures |s.ids| == MAX_THREAD_COUNT && Unique(s.ids) && PlaceOk(s.ids, s.holder, t, At(s, t))
  {
  }

  lemma ScanLeaves(s: Table, step: Step)
    requires Enabled(s, step) && At(s, step.t).Adding? && At(Next(s, step), step.t).Adding?
    ensures Next(s, step).ids == s.ids
  {
  }

  lemma LastStep(s: Table, step: Step, rest: seq<Step>, u: B.Unit)
    requires Enabled(s, step) && At(s, step.t).Adding? && !At(Next(s, step), step.t).Adding? && step.t != 0
    requires PlaceOk(s.ids, s.holder, step.t, At(s, step.t)) && Runs(Next(s, step), rest)
    requires Ends(Next(s, step), rest, step.t)
    requires u.ids == s.ids && |u.infos| == |u.ids|
    ensures rest == []
    ensures var ids := Next(s, step).ids;
            && (step.t in ids <==> 0 in s.ids)
            && ids == match B.AddThread(u, step.t) { case None => s.ids case Some(v) => v.ids }
  {
    var index := At(s, step.t).index;
    FirstFree(s.ids, index);
    if index >= 0 {
      assert Next(s, step).ids[index] == step.t;
    }
  }

  lemma FirstFree(ids: seq<nat>, index: int)
    requires if index == -1 then NotAmong(ids, |ids|, 0) else 0 <= index < |ids| && ids[index] == 0
    requires index >= 0 ==> NotAmong(ids, index, 0)
    ensures 0 in ids <==> index >= 0
    ensures B.Find(ids, 0) == if index >= 0 then index else |ids|
  {
  }

  /** Likewise a removal ends with the thread out of the table and all other cells as they were. */
  lemma {:induction false} RemoveIsAtomic(s: Table, steps: seq<Step>, t: nat)
    requires Inv(s) && t != 0 && At(s, t).Removing? && Runs(s, steps) && Ends(s, steps, t)
    ensures var ids := After(s, steps).ids;
            t !in ids && |ids| == |s.ids| && forall j | 0 <= j < |ids| && s.ids[j] != t :: ids[j] == s.ids[j]
    decreases |steps|
  {
    hide Inv;
    var step, rest := steps[0], steps[1..];
    StepKeeps(s, step);
    InvHolds(s, t);
    if step.t != t {
      OthersWait(s, step, t);
      RemoveIsAtomic(Next(s, step), rest, t);
    } else if At(Next(s, step), t).Removing? {
      RemoveIsAtomic(Next(s, step), rest, t);
    }
  }

  // ---------- a thread on its own ----------

  function Alone(t: nat, n: nat): (steps: seq<Step>)
    ensures |steps| == n && forall k | 0 <= k < n :: steps[k] == Advance(t)
  {
    seq(n, _ => Advance(t))
  }

  lemma AloneUnfolds(s: Table, t: nat, n: nat)
    requires n > 0 && Enabled(s, Advance(t))
    ensures Runs(s, Alone(t, n)) <==> Runs(Next(s, Advance(t)), Alone(t, n - 1))
    ensures Runs(s, Alone(t, n)) ==> After(s, Alone(t, n)) == After(Next(s, Advance(t)), Alone(t, n - 1))
  {
    assert Alone(t, n)[1..] == Alone(t, n - 1);
  }

  /** Undisturbed, an addition ends after it has looked at every cell. */
  lemma {:induction false} AddEnds(s: Table, t: nat)
    requires Inv(s) && t != 0 && At(s, t).Adding? && t !in s.ids
    ensures var steps := Alone(t, |s.ids| + 1 - At(s, t).i);
            Runs(s, steps) && Ends(s, steps, t) && After(s, steps).holder == 0
    decreases |s.ids| - At(s, t).i
  {
    InvHolds(s, t);
    var n: nat := |s.ids| + 1 - At(s, t).i;
    var r := Next(s, Advance(t));
    StepKeeps(s, Advance(t));
    if At(s, t).i < |s.ids| {
      AddEnds(r, t);
    } else {
      assert Alone(t, 0) == [];
    }
    AloneUnfolds(s, t, n);
    assert Alone(t, n)[1..] == Alone(t, n - 1);
  }

  /** Undisturbed, a lookup of a registered thread finds its cell. */
  lemma {:induction false} LookupFinds(s: Table, t: nat, cell: nat)
    requires t != 0 && At(s, t).Looking? && cell < |s.ids| && s.ids[cell] == t && At(s, t).i <= cell
    requires NotAmong(s.ids, cell, t)
    ensures var steps := Alone(t, cell + 1 - At(s, t).i);
            Runs(s, steps) && At(After(s, steps), t) == Answered(Some(cell))
    decreases cell - At(s, t).i
  {
    var n: nat := cell + 1 - At(s, t).i;
    if At(s, t).i < cell {
      LookupFinds(Next(s, Advance(t)), t, cell);
    } else {
      assert Alone(t, 0) == [];
    }
    AloneUnfolds(s, t, n);
  }

  /** A thread that adds itself to a table with a free cell and then looks itself up gets that cell. */
  lemma AddedIsFound(s: Table, t: nat)
    requires Inv(s) && t != 0 && (At(s, t).Elsewhere? || At(s, t).Answered?) && s.holder == 0 && t !in s.ids
    requires 0 in s.ids
    ensures var cell := B.Find(s.ids, 0);
            var add, get := [Begin(t, Add)] + Alone(t, |s.ids| + 1), [Begin(t, Get)] + Alone(t, cell + 1);
            && Runs(s, add) && After(s, add).ids == s.ids[cell := t]
            && Runs(After(s, add), get) && At(After(After(s, add), get), t) == Answered(Some(cell))
  {
    hide Inv;
    var cell := B.Find(s.ids, 0);
    var alone, look := Alone(t, |s.ids| + 1), Alone(t, cell + 1);
    var add, get := [Begin(t, Add)] + alone, [Begin(t, Get)] + look;
    assert add[1..] == alone && get[1..] == look;
    StepKeeps(s, Begin(t, Add));
    var b := Next(s, Begin(t, Add));
    AddEnds(b, t);
    AddIsAtomic(b, alone, B.Unit(B.Acl(true, []), true, s.ids, seq(|s.ids|, _ => B.NO_THREAD)), t);
    var r := After(s, add);
    EndsElsewhere(b, alone, t);
    assert forall j | 0 <= j < cell :: r.ids[j] != t;
    LookupFinds(Next(r, Begin(t, Get)), t, cell);
  }

  lemma {:induction false} EndsElsewhere(s: Table, steps: seq<Step>, t: nat)
    requires Runs(s, steps) && Ends(s, steps, t)
    ensures At(After(s, steps), t).Elsewhere?
    decreases |steps|
  {
    if steps != [] {
      EndsElsewhere(Next(s, steps[0]), steps[1..], t);
    }
  }
}
