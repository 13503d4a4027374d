/** The bookkeeping of LhWaitForPendingRemovals (uninstall.c): how long it sleeps, which hooks it gives up and what it
  * releases. */
module RemovalWait {
  import opened HookLifecycle
  import opened HookRuns

  /** Timeout and sleeps add up. */
  predicate Accounted<K>(w: Waiting<K>) {
    w.timeout >= 0 && w.timeout + 25 * w.sleeps == 1000
  }

  lemma {:induction false} WaitForAccounted<K>(w: Waiting<K>, ident: nat, executing: Executing)
    requires ident in w.s.hooks && w.s.hooks[ident].slot < |w.s.slots| && Accounted(w)
    ensures Accounted(WaitFor(w, ident, executing))
    decreases w.timeout
  {
    if executing(ident, w.sleeps) && w.timeout > 0 {
      assert w.timeout % SLEEP == 0;
      WaitForAccounted(w.(timeout := w.timeout - SLEEP, sleeps := w.sleeps + 1), ident, executing);
    }
  }

  lemma {:induction false} WaitAccounted<K>(w: Waiting<K>, executing: Executing)
    requires Shape(w.s) && Accounted(w)
    ensures Accounted(WaitForRemovals(w, executing))
    decreases |w.s.removal|
  {
    hide InRange, ListsShaped, LinksMatch, SlotsMatch, Accounted, Restore;
    if w.s.removal != [] {
      RemoveOneShape(w, executing);
      RemoveOneAccounted(w, executing);
      WaitAccounted(RemoveOne(w, executing), executing);
    }
  }

  lemma RemoveOneAccounted<K>(w: Waiting<K>, executing: Executing)
    requires Shape(w.s) && w.s.removal != [] && Accounted(w)
    ensures Accounted(RemoveOne(w, executing))
  {
    hide LinksMatch;
    var ident := w.s.removal[0];
    assert ident in w.s.removal;
    var popped := w.(s := w.s.(removal := w.s.removal[1..]));
    if Bytes(w.s.mem, w.s.hooks[ident].target) == w.s.hooks[ident].copy {
      WaitForAccounted(popped.(s := Restore(popped.s, ident)), ident, executing);
    }
  }

  /** All hooks together wait for at most forty sleeps of 25 ms, of the 1000 ms that the wait starts with. */
  lemma WaitBounded<K>(s: HookState<K>, executing: Executing)
    requires Shape(s)
    ensures var r := WaitForRemovals(StartWait(s), executing); r.sleeps <= 40 && r.timeout == 1000 - 25 * r.sleeps
  {
    hide InRange, ListsShaped, LinksMatch, SlotsMatch;
    WaitAccounted(StartWait(s), executing);
  }

  /** The popped hooks with whether their copy was still in place. */
  ghost function PopLog<K>(w: Waiting<K>, executing: Executing): (log: seq<(nat, bool)>)
    requires Shape(w.s)
    ensures |log| == |w.s.removal| && forall k | 0 <= k < |log| :: log[k].0 == w.s.removal[k]
    decreases |w.s.removal|
  {
    if w.s.removal == [] then []
    else
      RemoveOneShape(w, executing);
      OnRemovalList(w.s);
      var h := w.s.hooks[w.s.removal[0]];
      [(w.s.removal[0], Bytes(w.s.mem, h.target) == h.copy)] + PopLog(RemoveOne(w, executing), executing)
  }

  /** Without a timeout exactly the hooks found in place are released; a timeout means one of them was leaked. */
  lemma {:induction false} WaitReleases<K>(w: Waiting<K>, executing: Executing)
    requires Shape(w.s)
    ensures var (r, log) := (WaitForRemovals(w, executing), PopLog(w, executing));
            && (forall k | 0 <= k < |log| && !log[k].1 :: log[k].0 in r.s.hooks)
            && (!r.timedOut ==> forall k | 0 <= k < |log| && log[k].1 :: log[k].0 !in r.s.hooks)
            && (r.timedOut && !w.timedOut ==> exists k | 0 <= k < |log| :: log[k].1 && log[k].0 in r.s.hooks)
            && (w.timedOut ==> r.timedOut)
            && r.s.hooks.Keys <= w.s.hooks.Keys
            && (forall ident | ident in w.s.hooks && ident !in w.s.removal :: ident in r.s.hooks)
    decreases |w.s.removal|
  {
    hide InRange, SlotsMatch, LinksMatch, RemoveOne;
    if w.s.removal != [] {
      RemoveOneShape(w, executing);
      RemoveOneFrame(w, executing);
      RemoveOneReleases(w, executing);
      var next := RemoveOne(w, executing);
      WaitReleases(next, executing);
      var r, log, rest := WaitForRemovals(w, executing), PopLog(w, executing), PopLog(next, executing);
      assert log[1..] == rest;
      assert forall k | 0 < k < |log| :: log[k] == rest[k - 1];
      assert w.s.removal[0] !in next.s.removal;
      if r.timedOut && !w.timedOut {
        if next.timedOut {
          assert log[0].1 && log[0].0 in r.s.hooks;
        } else {
          var k :| 0 <= k < |rest| && rest[k].1 && rest[k].0 in r.s.hooks;
          assert log[k + 1].1 && log[k + 1].0 in r.s.hooks;
        }
      }
    }
  }

  lemma RemoveOneReleases<K>(w: Waiting<K>, executing: Executing)
    requires Shape(w.s) && w.s.removal != []
    ensures var (ident, r) := (w.s.removal[0], RemoveOne(w, executing));
            r.timedOut && !w.timedOut ==>
              ident in r.s.hooks && Bytes(w.s.mem, w.s.hooks[ident].target) == w.s.hooks[ident].copy
  {
    hide LinksMatch;
    var ident := w.s.removal[0];
    assert ident in w.s.removal;
    var popped := w.(s := w.s.(removal := w.s.removal[1..]));
    if Bytes(w.s.mem, w.s.hooks[ident].target) == w.s.hooks[ident].copy {
      WaitForLeaks(popped.(s := Restore(popped.s, ident)), ident, executing);
    }
  }

  lemma {:induction false} WaitForLeaks<K>(w: Waiting<K>, ident: nat, executing: Executing)
    requires ident in w.s.hooks && w.s.hooks[ident].slot < |w.s.slots|
    ensures var r := WaitFor(w, ident, executing); r.timedOut && !w.timedOut ==> ident in r.s.hooks
    decreases w.timeout
  {
    if executing(ident, w.sleeps) && w.timeout > 0 {
      WaitForLeaks(w.(timeout := w.timeout - SLEEP, sleeps := w.sleeps + 1), ident, executing);
    }
  }

  // ---------- exactly how long ----------

  /** A thread is inside the handler at every check from the one after `from` sleeps to the one after forty. */
  ghost predicate Stuck(executing: Executing, ident: nat, from: nat) {
    forall k: nat | from <= k <= 40 :: executing(ident, k)
  }

  /** The check after `k` sleeps, the first one after `from` sleeps or more, finds nobody inside. */
  ghost predicate FreeAt(executing: Executing, ident: nat, from: nat, k: nat) {
    from <= k <= 40 && !executing(ident, k) && forall j: nat | from <= j < k :: executing(ident, j)
  }

  /** The inner loop gives up after forty sleeps in all if the hook stays in use, and otherwise releases it at the
    * first check that finds nobody inside. */
  lemma {:induction false} WaitForExactly<K>(w: Waiting<K>, ident: nat, executing: Executing)
    requires ident in w.s.hooks && w.s.hooks[ident].slot < |w.s.slots| && Accounted(w)
    ensures var r := WaitFor(w, ident, executing);
            if Stuck(executing, ident, w.sleeps) then r.s == w.s && r.timedOut && r.sleeps == 40
            else
              && FreeAt(executing, ident, w.sleeps, r.sleeps)
              && r.s == Release(w.s, ident) && r.timedOut == w.timedOut
    decreases w.timeout
  {
    if executing(ident, w.sleeps) && w.timeout > 0 {
      var next := w.(timeout := w.timeout - SLEEP, sleeps := w.sleeps + 1);
      assert w.timeout % SLEEP == 0;
      assert next.sleeps <= 40;
      WaitForExactly(next, ident, executing);
      assert Stuck(executing, ident, w.sleeps) <==> Stuck(executing, ident, next.sleeps);
    } else if executing(ident, w.sleeps) {
      assert w.sleeps == 40;
    }
  }

  /** Some hook of the log whose copy was in place is in use from the time on that the wait gets to it. */
  ghost predicate SomeStuck(log: seq<(nat, bool)>, executing: Executing, from: nat)
    decreases |log|
  {
    log != [] &&
    if !log[0].1 then SomeStuck(log[1..], executing, from)
    else
      || Stuck(executing, log[0].0, from)
      || exists k :: FreeAt(executing, log[0].0, from, k) && SomeStuck(log[1..], executing, k)
  }

  /** What one hook does to the clock. */
  lemma RemoveOneClock<K>(w: Waiting<K>, executing: Executing)
    requires Shape(w.s) && w.s.removal != [] && Accounted(w)
    ensures var (ident, r) := (w.s.removal[0], RemoveOne(w, executing));
            var inPlace := Bytes(w.s.mem, w.s.hooks[ident].target) == w.s.hooks[ident].copy;
            && (!inPlace ==> r.sleeps == w.sleeps && r.timedOut == w.timedOut)
            && (inPlace && Stuck(executing, ident, w.sleeps) ==> r.timedOut && r.sleeps == 40)
            && (inPlace && !Stuck(executing, ident, w.sleeps) ==>
                  FreeAt(executing, ident, w.sleeps, r.sleeps) && r.timedOut == w.timedOut)
            && (w.sleeps == 40 ==> r.sleeps == 40)
  {
    hide LinksMatch, Stuck, FreeAt;
    var ident := w.s.removal[0];
    assert ident in w.s.removal;
    var popped := w.(s := w.s.(removal := w.s.removal[1..]));
    if Bytes(w.s.mem, w.s.hooks[ident].target) == w.s.hooks[ident].copy {
      WaitForExactly(popped.(s := Restore(popped.s, ident)), ident, executing);
      FreeNow(executing, ident, w.sleeps, RemoveOne(w, executing).sleeps);
    }
  }

  lemma FreeNow(executing: Executing, ident: nat, from: nat, k: nat)
    ensures FreeAt(executing, ident, from, k) ==> from <= k <= 40
    ensures forall j: nat :: FreeAt(executing, ident, from, k) && FreeAt(executing, ident, from, j) ==> j == k
  {
  }

  lemma NotBoth(executing: Executing, ident: nat, from: nat, k: nat)
    ensures !(Stuck(executing, ident, from) && FreeAt(executing, ident, from, k))
  {
  }

  /** The wait reports a timeout if and only if one of the hooks whose copy is in place stays in use until forty sleeps
    * have passed in all; then all forty were slept, and otherwise the time is that of the checks that found nobody. */
  lemma {:induction false} WaitTimesOutIff<K>(w: Waiting<K>, executing: Executing)
    requires Shape(w.s) && Accounted(w)
    ensures var r := WaitForRemovals(w, executing);
            && (r.timedOut <==> w.timedOut || SomeStuck(PopLog(w, executing), executing, w.sleeps))
            && (r.timedOut && !w.timedOut ==> r.sleeps == 40) && (w.sleeps == 40 ==> r.sleeps == 40)
    decreases |w.s.removal|
  {
    hide InRange, ListsShaped, LinksMatch, SlotsMatch, RemoveOne, Stuck, FreeAt;
    if w.s.removal != [] {
      RemoveOneShape(w, executing);
      RemoveOneAccounted(w, executing);
      RemoveOneClock(w, executing);
      OnRemovalList(w.s);
      var next := RemoveOne(w, executing);
      WaitTimesOutIff(next, executing);
      var log, rest := PopLog(w, executing), PopLog(next, executing);
      assert log[1..] == rest;
      LogUnfolds(log, executing, w.sleeps, next.sleeps);
    }
  }

  lemma LogUnfolds(log: seq<(nat, bool)>, executing: Executing, from: nat, k: nat)
    requires log != []
    ensures !log[0].1 ==> (SomeStuck(log, executing, from) <==> SomeStuck(log[1..], executing, from))
    ensures log[0].1 && Stuck(executing, log[0].0, from) ==> SomeStuck(log, executing, from)
    ensures log[0].1 && FreeAt(executing, log[0].0, from, k) ==>
              (SomeStuck(log, executing, from) <==> SomeStuck(log[1..], executing, k))
  {
    hide Stuck, FreeAt;
    FreeNow(executing, log[0].0, from, k);
    assert Stuck(executing, log[0].0, from) && FreeAt(executing, log[0].0, from, k) ==> false by {
      NotBoth(executing, log[0].0, from, k);
    }
  }

  /** A single pending hook whose copy is in place: a timeout if and only if a thread is inside at all of the checks
    * after 0 to 40 sleeps, and then record and slot stay; otherwise both are free after as many sleeps as it took
    * until a check found nobody. */
  lemma SingleWait<K>(s: HookState<K>, ident: nat, executing: Executing)
    requires Shape(s) && s.removal == [ident] && ident in s.hooks
    requires s.hooks[ident].slot < |s.slots| && s.hooks[ident].target + PATCH <= |s.mem|
    requires Bytes(s.mem, s.hooks[ident].target) == s.hooks[ident].copy
    ensures var (r, slot) := (WaitForRemovals(StartWait(s), executing), s.hooks[ident].slot);
            && (r.timedOut <==> forall k: nat | k <= 40 :: executing(ident, k))
            && |r.s.slots| == |s.slots|
            && (r.timedOut ==> r.sleeps == 40 && ident in r.s.hooks && r.s.slots[slot] == ident)
            && (!r.timedOut ==>
                  && r.sleeps <= 40 && !executing(ident, r.sleeps)
                  && (forall k: nat | k < r.sleeps :: executing(ident, k))
                  && ident !in r.s.hooks && r.s.slots[slot] == 0)
  {
    hide LinksMatch;
    var w := StartWait(s);
    var next := RemoveOne(w, executing);
    assert ident in s.removal && s.slots[s.hooks[ident].slot] == ident;
    var popped := w.(s := Restore(s.(removal := s.removal[1..]), ident));
    assert popped.s.removal == [];
    WaitForExactly(popped, ident, executing);
    RemoveOneShape(w, executing);
    assert WaitForRemovals(w, executing) == next;
    assert Stuck(executing, ident, 0) <==> forall k: nat | k <= 40 :: executing(ident, k);
  }
}
