/** Scanner threads racing to store the lowest match of each pattern, without locks. */
module ScanThreads {
  /** A match found for one pattern, which the thread wants to store. */
  datatype Commit = Commit(slot: nat, value: nat)

  /** Where a thread is: about to load the result, or between loading it and the compare-exchange. */
  datatype Thread = Idle(todo: seq<Commit>) | Loaded(todo: seq<Commit>, seen: nat, next: nat)

  /** The shared results, the threads, and what was stored so far, in order. */
  datatype State = State(results: seq<nat>, threads: seq<Thread>, log: seq<Commit>)

  /** One step of one thread; a compare-exchange may fail for no reason. */
  datatype Choice = Choice(thread: nat, spurious: bool)

  function Pick(seen: nat, value: nat): nat {
    if seen != 0 && seen < value then seen else value
  }

  function Step(s: State, c: Choice): State {
    if c.thread >= |s.threads| || s.threads[c.thread].todo == [] then s
    else
      var t := s.threads[c.thread];
      var commit := t.todo[0];
      if commit.slot >= |s.results| then s
      else
        var current := s.results[commit.slot];
        match t
        case Idle(todo) =>
          s.(threads := s.threads[c.thread := Loaded(todo, current, Pick(current, commit.value))])
        case Loaded(todo, seen, next) =>
          if current == seen && !c.spurious then
            State(s.results[commit.slot := next], s.threads[c.thread := Idle(todo[1..])], s.log + [commit])
          else
            s.(threads := s.threads[c.thread := Loaded(todo, current, Pick(current, commit.value))])
  }

  function Run(s: State, schedule: seq<Choice>): State {
    if schedule == [] then s else Step(Run(s, schedule[..|schedule| - 1]), schedule[|schedule| - 1])
  }

  function Start(patterns: nat, work: seq<seq<Commit>>): State {
    State(seq(patterns, _ => 0), seq(|work|, i requires 0 <= i < |work| => Idle(work[i])), [])
  }

  predicate Finished(s: State) {
    forall t | 0 <= t < |s.threads| :: s.threads[t].todo == []
  }

  // ---- safety of every step -----------------------------------------------------------------

  ghost predicate ValidWork(patterns: nat, work: seq<Commit>) {
    forall c | c in work :: c.slot < patterns && c.value > 0
  }

  /** `r` is 0 when nothing was stored for a slot, else the least of what was stored. */
  ghost predicate IsLeastOf(r: nat, slot: nat, log: seq<Commit>) {
    && (r == 0 <==> forall c | c in log :: c.slot != slot)
    && (r != 0 ==> Commit(slot, r) in log && forall c | c in log :: c.slot == slot ==> r <= c.value)
  }

  ghost predicate Invariant(s: State) {
    && ValidWork(|s.results|, s.log)
    && (forall t | 0 <= t < |s.threads| ::
          && ValidWork(|s.results|, s.threads[t].todo)
          && (s.threads[t].Loaded? ==> s.threads[t].todo != []
                                       && s.threads[t].next == Pick(s.threads[t].seen, s.threads[t].todo[0].value)))
    && (forall k | 0 <= k < |s.results| :: IsLeastOf(s.results[k], k, s.log))
  }

  /** In every interleaving, each result is the least of what was stored so far: no store is lost. */
  lemma StepKeepsInvariant(s: State, c: Choice)
    requires Invariant(s)
    ensures Invariant(Step(s, c)) && |Step(s, c).results| == |s.results| && |Step(s, c).threads| == |s.threads|
  {
  }

  /** A result never grows once it is set, and never becomes unset. */
  lemma StepNeverGrows(s: State, c: Choice, k: nat)
    requires Invariant(s) && k < |s.results| && s.results[k] != 0
    ensures 0 < Step(s, c).results[k] <= s.results[k]
  {
  }

  /** ... and so over whole runs. */
  lemma {:induction false} RunNeverGrows(s: State, schedule: seq<Choice>, k: nat)
    requires Invariant(s) && k < |s.results| && s.results[k] != 0
    ensures var after := Run(s, schedule);
      Invariant(after) && |after.results| == |s.results| && 0 < after.results[k] <= s.results[k]
    decreases |schedule|
  {
    if schedule != [] {
      var last := |schedule| - 1;
      RunNeverGrows(s, schedule[..last], k);
      StepKeepsInvariant(Run(s, schedule[..last]), schedule[last]);
      StepNeverGrows(Run(s, schedule[..last]), schedule[last], k);
    }
  }

  lemma {:induction false} RunKeepsInvariant(patterns: nat, work: seq<seq<Commit>>, schedule: seq<Choice>)
    requires forall t | 0 <= t < |work| :: ValidWork(patterns, work[t])
    ensures var s := Run(Start(patterns, work), schedule);
      Invariant(s) && |s.results| == patterns && |s.threads| == |work|
    decreases |schedule|
  {
    if schedule != [] {
      RunKeepsInvariant(patterns, work, schedule[..|schedule| - 1]);
      StepKeepsInvariant(Run(Start(patterns, work), schedule[..|schedule| - 1]), schedule[|schedule| - 1]);
    }
  }

  // ---- nothing is lost, nothing is stored twice ---------------------------------------------

  function Pending(threads: seq<Thread>): multiset<Commit> {
    if threads == [] then multiset{} else Pending(threads[..|threads| - 1]) + multiset(threads[|threads| - 1].todo)
  }

  function AllWork(work: seq<seq<Commit>>): multiset<Commit> {
    if work == [] then multiset{} else AllWork(work[..|work| - 1]) + multiset(work[|work| - 1])
  }

  lemma AddToBoth(a: multiset<Commit>, x: multiset<Commit>, b: multiset<Commit>, y: multiset<Commit>,
                  l: multiset<Commit>)
    requires a + x == b + y
    ensures (a + l) + x == (b + l) + y
  {
    forall c: Commit ensures ((a + l) + x)[c] == ((b + l) + y)[c] {
      assert (a + x)[c] == (b + y)[c];
    }
  }

  lemma {:induction false} PendingUpdate(threads: seq<Thread>, i: nat, t: Thread)
    requires i < |threads|
    ensures Pending(threads[i := t]) + multiset(threads[i].todo) == Pending(threads) + multiset(t.todo)
    decreases |threads|
  {
    var last := |threads| - 1;
    if i < last {
      PendingUpdate(threads[..last], i, t);
      assert threads[i := t][..last] == threads[..last][i := t];
      assert threads[..last][i] == threads[i] && threads[i := t][last] == threads[last];
      AddToBoth(Pending(threads[..last][i := t]), multiset(threads[i].todo),
                Pending(threads[..last]), multiset(t.todo), multiset(threads[last].todo));
    } else {
      assert threads[i := t][..last] == threads[..last];
    }
  }

  lemma StoredMoves(log: seq<Commit>, todo: seq<Commit>, before: multiset<Commit>, after: multiset<Commit>)
    requires todo != [] && after + multiset(todo) == before + multiset(todo[1..])
    ensures multiset(log + [todo[0]]) + after == multiset(log) + before
  {
    assert todo == [todo[0]] + todo[1..];
    forall c: Commit ensures (multiset(log + [todo[0]]) + after)[c] == (multiset(log) + before)[c] {
      assert (after + multiset(todo))[c] == (before + multiset(todo[1..]))[c];
    }
  }

  lemma Cancel(a: multiset<Commit>, b: multiset<Commit>, x: multiset<Commit>)
    requires a + x == b + x
    ensures a == b
  {
    forall c: Commit ensures a[c] == b[c] {
      assert (a + x)[c] == (b + x)[c];
    }
  }

  /** What was stored and what is still to be stored is always exactly the work found. */
  lemma StepConserves(s: State, c: Choice)
    ensures multiset(Step(s, c).log) + Pending(Step(s, c).threads) == multiset(s.log) + Pending(s.threads)
  {
    if c.thread < |s.threads| && s.threads[c.thread].todo != [] {
      var t := s.threads[c.thread];
      var after := Step(s, c).threads[c.thread];
      assert Step(s, c).threads == s.threads[c.thread := after];
      PendingUpdate(s.threads, c.thread, after);
      if after.todo != t.todo {
        StoredMoves(s.log, t.todo, Pending(s.threads), Pending(Step(s, c).threads));
      } else {
        Cancel(Pending(Step(s, c).threads), Pending(s.threads), multiset(t.todo));
      }
    }
  }

  lemma {:induction false} StartPending(patterns: nat, work: seq<seq<Commit>>)
    ensures Pending(Start(patterns, work).threads) == AllWork(work)
    decreases |work|
  {
    if work != [] {
      StartPending(patterns, work[..|work| - 1]);
      assert Start(patterns, work).threads[..|work| - 1] == Start(patterns, work[..|work| - 1]).threads;
    }
  }

  lemma {:induction false} RunConserves(patterns: nat, work: seq<seq<Commit>>, schedule: seq<Choice>)
    ensures var s := Run(Start(patterns, work), schedule); multiset(s.log) + Pending(s.threads) == AllWork(work)
    decreases |schedule|
  {
    if schedule == [] {
      StartPending(patterns, work);
    } else {
      RunConserves(patterns, work, schedule[..|schedule| - 1]);
      StepConserves(Run(Start(patterns, work), schedule[..|schedule| - 1]), schedule[|schedule| - 1]);
    }
  }

  lemma {:induction false} FinishedPending(threads: seq<Thread>)
    requires forall t | 0 <= t < |threads| :: threads[t].todo == []
    ensures Pending(threads) == multiset{}
    decreases |threads|
  {
    if threads != [] { FinishedPending(threads[..|threads| - 1]); }
  }

  lemma {:induction false} InAllWork(work: seq<seq<Commit>>, c: Commit)
    ensures c in AllWork(work) <==> exists t | 0 <= t < |work| :: c in work[t]
    decreases |work|
  {
    if work != [] {
      var last := |work| - 1;
      InAllWork(work[..last], c);
      if c in AllWork(work[..last]) {
        var t :| 0 <= t < last && c in work[..last][t];
        assert c in work[t];
      }
      if t :| 0 <= t < |work| && c in work[t] && t != last {
        assert c in work[..last][t];
      }
    }
  }

  /** However the threads were scheduled, once they all finished each result is the least match any
      of them found for its pattern, or 0 when none did. */
  lemma JoinedResult(patterns: nat, work: seq<seq<Commit>>, schedule: seq<Choice>, k: nat)
    requires forall t | 0 <= t < |work| :: ValidWork(patterns, work[t])
    requires k < patterns && Finished(Run(Start(patterns, work), schedule))
    ensures |Run(Start(patterns, work), schedule).results| == patterns
    ensures var r := Run(Start(patterns, work), schedule).results[k];
      && (r == 0 <==> forall t, c | 0 <= t < |work| && c in work[t] :: c.slot != k)
      && (r != 0 ==> (exists t | 0 <= t < |work| :: Commit(k, r) in work[t])
                     && forall t, c | 0 <= t < |work| && c in work[t] :: c.slot == k ==> r <= c.value)
  {
    var s := Run(Start(patterns, work), schedule);
    RunKeepsInvariant(patterns, work, schedule);
    RunConserves(patterns, work, schedule);
    FinishedPending(s.threads);
    assert multiset(s.log) == AllWork(work);
    forall c: Commit ensures c in s.log <==> exists t | 0 <= t < |work| :: c in work[t] {
      InAllWork(work, c);
      assert c in s.log <==> c in multiset(s.log);
    }
    assert IsLeastOf(s.results[k], k, s.log);
  }

  // ---- progress -----------------------------------------------------------------------------

  /** A compare-exchange which fails for a reason does so because another thread stored in between:
      some thread always gets on. */
  lemma FailureMeansProgress(s: State, mid: seq<Choice>, c: Choice)
    requires Invariant(s) && c.thread < |s.threads| && s.threads[c.thread].Loaded? && !c.spurious
    requires s.results[s.threads[c.thread].todo[0].slot] == s.threads[c.thread].seen
    requires forall i | 0 <= i < |mid| :: mid[i].thread != c.thread
    ensures var before := Run(s, mid);
      |Step(before, c).log| == |before.log| ==> |before.log| > |s.log|
  {
    OthersRun(s, mid, c.thread);
  }

  lemma {:induction false} OthersRun(s: State, mid: seq<Choice>, t: nat)
    requires Invariant(s) && t < |s.threads| && forall i | 0 <= i < |mid| :: mid[i].thread != t
    ensures var after := Run(s, mid);
      && Invariant(after) && |after.threads| == |s.threads| && |after.results| == |s.results|
      && after.threads[t] == s.threads[t] && |after.log| >= |s.log|
      && (|after.log| == |s.log| ==> after.results == s.results)
    decreases |mid|
  {
    if mid != [] {
      var last := |mid| - 1;
      OthersRun(s, mid[..last], t);
      StepKeepsInvariant(Run(s, mid[..last]), mid[last]);
    }
  }

  /** Two steps in a row by a thread which has something to store do store it. */
  lemma TwoStepsStore(s: State, t: nat)
    requires Invariant(s) && t < |s.threads| && s.threads[t].Idle? && s.threads[t].todo != []
    ensures var (todo, after) := (s.threads[t].todo, Run(s, [Choice(t, false), Choice(t, false)]));
      after.log == s.log + [todo[0]] && after.threads == s.threads[t := Idle(todo[1..])]
  {
    var c := Choice(t, false);
    assert [c, c][..1] == [c] && [c][..0] == [];
    assert Run(s, [c]) == Step(s, c);
    assert Run(s, [c, c]) == Step(Step(s, c), c);
  }

  /** The step is by a thread which has something to store, and does not fail for no reason. */
  predicate Works(s: State, c: Choice) {
    c.thread < |s.threads| && s.threads[c.thread].todo != [] && !c.spurious
  }

  /** How many steps of a schedule are. */
  function Effort(s: State, schedule: seq<Choice>): nat {
    if schedule == [] then 0
    else
      var init := schedule[..|schedule| - 1];
      Effort(s, init) + if Works(Run(s, init), schedule[|schedule| - 1]) then 1 else 0
  }

  function Left(threads: seq<Thread>): nat {
    if threads == [] then 0 else Left(threads[..|threads| - 1]) + |threads[|threads| - 1].todo|
  }

  /** A thread which would fail now, or has not loaded yet, is one step away from storing. */
  function Away(results: seq<nat>, t: Thread): nat {
    if t.todo == [] || (t.Loaded? && t.todo[0].slot < |results| && results[t.todo[0].slot] == t.seen) then 0 else 1
  }

  function AllAway(results: seq<nat>, threads: seq<Thread>): (n: nat)
    ensures n <= |threads|
  {
    if threads == [] then 0
    else AllAway(results, threads[..|threads| - 1]) + Away(results, threads[|threads| - 1])
  }

  /** The steps which are left at most: every store makes each thread fail at most once. */
  function Potential(s: State): nat {
    Left(s.threads) * (|s.threads| + 1) + AllAway(s.results, s.threads)
  }

  lemma {:induction false} LeftUpdate(threads: seq<Thread>, i: nat, t: Thread)
    requires i < |threads|
    ensures Left(threads[i := t]) + |threads[i].todo| == Left(threads) + |t.todo|
    decreases |threads|
  {
    var last := |threads| - 1;
    if i < last {
      LeftUpdate(threads[..last], i, t);
      assert threads[i := t][..last] == threads[..last][i := t];
    } else {
      assert threads[i := t][..last] == threads[..last];
    }
  }

  lemma {:induction false} AwayUpdate(results: seq<nat>, threads: seq<Thread>, i: nat, t: Thread)
    requires i < |threads|
    ensures AllAway(results, threads[i := t]) + Away(results, threads[i]) ==
      AllAway(results, threads) + Away(results, t)
    decreases |threads|
  {
    hide Away;
    var last := |threads| - 1;
    if i < last {
      AwayUpdate(results, threads[..last], i, t);
      assert threads[i := t][..last] == threads[..last][i := t];
    } else {
      assert threads[i := t][..last] == threads[..last];
    }
  }

  lemma OneLess(left: nat, threads: nat)
    requires left > 0
    ensures (left - 1) * (threads + 1) + threads + 1 == left * (threads + 1)
  {
  }

  /** Each step which works uses up some of the potential, whatever it does; no step adds any. */
  lemma StepUses(s: State, c: Choice)
    requires Invariant(s)
    ensures Potential(Step(s, c)) + (if Works(s, c) then 1 else 0) <= Potential(s)
  {
    if c.thread < |s.threads| && s.threads[c.thread].todo != [] {
      var t, after := s.threads[c.thread], Step(s, c);
      assert after.threads == s.threads[c.thread := after.threads[c.thread]];
      LeftUpdate(s.threads, c.thread, after.threads[c.thread]);
      if after.log == s.log {
        AwayUpdate(s.results, s.threads, c.thread, after.threads[c.thread]);
      } else {
        OneLess(Left(s.threads), |s.threads|);
      }
    }
  }

  /** Every schedule whatsoever has only so many steps which work, so the threads cannot keep each other
      from finishing. */
  lemma {:induction false} EveryScheduleEnds(s: State, schedule: seq<Choice>)
    requires Invariant(s)
    ensures Invariant(Run(s, schedule))
    ensures Effort(s, schedule) + Potential(Run(s, schedule)) <= Potential(s)
    decreases |schedule|
  {
    hide Potential, Works, Step, Invariant;
    if schedule != [] {
      var last := |schedule| - 1;
      EveryScheduleEnds(s, schedule[..last]);
      StepKeepsInvariant(Run(s, schedule[..last]), schedule[last]);
      StepUses(Run(s, schedule[..last]), schedule[last]);
    }
  }

  lemma RunFirst(s: State, c: Choice, schedule: seq<Choice>)
    ensures Run(s, [c] + schedule) == Run(Step(s, c), schedule)
  {
    hide Step;
    assert [c][..0] == [];
    assert Run(s, [c]) == Step(s, c);
    RunConcat(s, [c], schedule);
  }

  lemma {:induction false} PendingSize(threads: seq<Thread>)
    ensures |Pending(threads)| == Left(threads)
  {
    if threads != [] { PendingSize(threads[..|threads| - 1]); }
  }

  /** The whole scan takes no more such steps than this, in any schedule. */
  lemma StepsAtMost(patterns: nat, work: seq<seq<Commit>>, schedule: seq<Choice>)
    requires forall t | 0 <= t < |work| :: ValidWork(patterns, work[t])
    ensures Effort(Start(patterns, work), schedule) <= |AllWork(work)| * (|work| + 1) + |work|
  {
    var s := Start(patterns, work);
    RunKeepsInvariant(patterns, work, []);
    assert Invariant(s) by { assert Run(s, []) == s; }
    hide Invariant;
    EveryScheduleEnds(s, schedule);
    StartPending(patterns, work);
    PendingSize(s.threads);
  }

  lemma {:induction false} RunConcat(s: State, first: seq<Choice>, rest: seq<Choice>)
    ensures Run(s, first + rest) == Run(Run(s, first), rest)
    decreases |rest|
  {
    hide Step;
    if rest == [] {
      assert first + rest == first;
    } else {
      RunConcat(s, first, rest[..|rest| - 1]);
      assert (first + rest)[..|first + rest| - 1] == first + rest[..|rest| - 1];
    }
  }

  /** Wherever the threads are, they can finish, in no more steps than the potential. */
  lemma {:induction false} CanFinish(s: State) returns (schedule: seq<Choice>)
    requires Invariant(s)
    ensures Finished(Run(s, schedule)) && |schedule| <= Potential(s)
    decreases Potential(s)
  {
    if t :| 0 <= t < |s.threads| && s.threads[t].todo != [] {
      var c := Choice(t, false);
      StepKeepsInvariant(s, c);
      StepUses(s, c);
      hide Potential, Step, Invariant;
      var rest := CanFinish(Step(s, c));
      RunFirst(s, c, rest);
      schedule := [c] + rest;
    } else {
      schedule := [];
    }
  }
}
