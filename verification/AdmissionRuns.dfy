/** Runs of the admission to the enclave: how far the counter is from the keys, which slots leak, and what jams
    (src/app/ecalls/ECalls.cpp). */
module AdmissionRuns {
  import opened EnclaveAdmission

  // ----- The counter against the keys -----

  /** The end of a round in which the call gives up. */
  predicate TimesOut(g: Gate, step: Step) {
    && (step.MeetBlocker? || step.Refuse?) && step.call < |g.calls|
    && (var c := g.calls[step.call];
        && (step.MeetBlocker? ==> c.phase.Waiting? && SomeBlocker(g, c.name))
        && (step.Refuse? ==> c.phase.Ready?)
        && Priority(c.name) > TIMEOUT_THRESHOLD && c.phase.timeout + 1 >= TASK_TIMEOUT)
  }

  predicate Frees(g: Gate, step: Step) {
    step.Free? && step.call < |g.calls| && g.calls[step.call].phase.Inside?
  }

  predicate Admits(g: Gate, step: Step)
    requires |g.waiting| == PRIORITIES
  {
    step.Admit? && step.call < |g.calls| && g.calls[step.call].phase.Ready? && Admissible(g, g.calls[step.call].name)
  }

  /** A timeout that drops a key leaves the counter one too high; a free that finds no key leaves it one too low. */
  function Drift(g: Gate, step: Step): int {
    if TimesOut(g, step) && g.calls[step.call].thread in g.keys then 1
    else if Frees(g, step) && g.calls[step.call].thread !in g.keys then -1
    else 0
  }

  function DriftSum(g: Gate, steps: seq<Step>): int
    requires |g.waiting| == PRIORITIES
    decreases |steps|
  {
    if steps == [] then 0 else Drift(g, steps[0]) + DriftSum(Next(g, steps[0]), steps[1..])
  }

  lemma KeysOfStep(g: Gate, step: Step)
    requires |g.waiting| == PRIORITIES
    ensures var r := Next(g, step);
            && r.keys == (if Admits(g, step) then g.keys + {g.calls[step.call].thread}
                          else if Frees(g, step) || TimesOut(g, step) then g.keys - {g.calls[step.call].thread}
                          else g.keys)
            && r.running == g.running + (if Admits(g, step) && g.calls[step.call].thread !in g.keys then 1
                                         else if Frees(g, step) then -1 else 0)
  {
    hide Priority, SomeBlocker, HigherWaiting;
  }

  lemma StepDrifts(g: Gate, step: Step)
    requires |g.waiting| == PRIORITIES
    ensures var r := Next(g, step);
            && r.running - |r.keys| == g.running - |g.keys| + Drift(g, step)
            && (g.running <= MAX_THREADS ==> r.running <= MAX_THREADS)
  {
    KeysOfStep(g, step);
    hide Priority, SomeBlocker, HigherWaiting, Next;
    if Admits(g, step) && g.calls[step.call].thread in g.keys {
      assert g.keys + {g.calls[step.call].thread} == g.keys;
    }
    if (Frees(g, step) || TimesOut(g, step)) && g.calls[step.call].thread !in g.keys {
      assert g.keys - {g.calls[step.call].thread} == g.keys;
    }
  }

  lemma {:induction false} RunDrifts(g: Gate, steps: seq<Step>)
    requires |g.waiting| == PRIORITIES && g.running <= MAX_THREADS
    ensures var r := Run(g, steps);
            && r.running - |r.keys| == g.running - |g.keys| + DriftSum(g, steps)
            && r.running <= MAX_THREADS
    decreases |steps|
  {
    hide Next, Drift;
    if steps != [] {
      StepDrifts(g, steps[0]);
      RunDrifts(Next(g, steps[0]), steps[1..]);
    }
  }

  /** In every run, re-entrant ones too, the counter is at most the number of enclave threads, and it exceeds the
      number of keys by exactly the drift: so the keys stay within the counter exactly when the drift is not negative. */
  lemma CounterIsKeysPlusDrift(steps: seq<Step>)
    ensures var g := Run(START, steps);
            && g.running <= MAX_THREADS
            && g.running == |g.keys| + DriftSum(START, steps)
            && (|g.keys| <= g.running <==> DriftSum(START, steps) >= 0)
  {
    hide Run, DriftSum;
    RunDrifts(START, steps);
  }

  /** Without re-entry, whoever is inside has a key and the keys are within the counter, busy returns and timeouts
      included; the counter is within the number of enclave threads in every run. */
  lemma AdmissionIsBounded(steps: seq<Step>)
    ensures var g := Run(START, steps);
            && g.running <= MAX_THREADS
            && (NoReentry(START, steps) ==>
                  |g.keys| <= g.running
                  && forall i :: 0 <= i < |g.calls| && g.calls[i].phase.Inside? ==> g.calls[i].thread in g.keys)
  {
    hide Run, NoReentry;
    CounterIsKeysPlusDrift(steps);
    if NoReentry(START, steps) {
      assert Slots(START);
      SlotsKeptInRuns(START, steps);
    }
  }

  // ----- Who last touched the key of a thread -----

  datatype Touch = Untouched | Took | Dropped

  function TouchOf(g: Gate, step: Step, t: nat): Touch
    requires |g.waiting| == PRIORITIES
  {
    if Admits(g, step) && g.calls[step.call].thread == t then Took
    else if (Frees(g, step) || TimesOut(g, step)) && g.calls[step.call].thread == t then Dropped
    else Untouched
  }

  /** The touch of step k of a run. */
  function TouchAt(g: Gate, steps: seq<Step>, k: nat, t: nat): Touch
    requires |g.waiting| == PRIORITIES && k < |steps|
  {
    TouchOf(Run(g, steps[..k]), steps[k], t)
  }

  /** Step k touches the key so, and no step after it touches it. */
  ghost predicate LastTouch(g: Gate, steps: seq<Step>, k: nat, t: nat, touch: Touch)
    requires |g.waiting| == PRIORITIES
  {
    && k < |steps| && TouchAt(g, steps, k, t) == touch
    && forall m :: k < m < |steps| ==> TouchAt(g, steps, m, t) == Untouched
  }

  lemma {:induction false} RunConcat(g: Gate, a: seq<Step>, b: seq<Step>)
    requires |g.waiting| == PRIORITIES
    ensures Run(g, a + b) == Run(Run(g, a), b)
    decreases |a|
  {
    hide Next;
    if a == [] {
      assert a + b == b;
    } else {
      RunConcat(Next(g, a[0]), a[1..], b);
      assert (a + b)[1..] == a[1..] + b;
    }
  }

  lemma OneStep(g: Gate, a: Step)
    requires |g.waiting| == PRIORITIES
    ensures Run(g, [a]) == Next(g, a)
  {
    hide Next;
    assert [a][1..] == [];
  }

  lemma RunTo(g: Gate, steps: seq<Step>, k: nat)
    requires |g.waiting| == PRIORITIES && k < |steps|
    ensures Run(g, steps[..k + 1]) == Next(Run(g, steps[..k]), steps[k])
  {
    hide Next, Run;
    assert steps[..k + 1] == steps[..k] + [steps[k]];
    RunConcat(g, steps[..k], [steps[k]]);
    OneStep(Run(g, steps[..k]), steps[k]);
  }

  lemma StepTouches(g: Gate, step: Step, t: nat)
    requires |g.waiting| == PRIORITIES
    ensures t in Next(g, step).keys <==>
            match TouchOf(g, step, t) case Untouched => t in g.keys case Took => true case Dropped => false
  {
    KeysOfStep(g, step);
    hide Priority, SomeBlocker, HigherWaiting, Next;
  }

  /** A thread has a key after a run exactly when the last step that touched its key took it, or none touched it
      and it had one before. */
  lemma {:induction false} KeyTells(g: Gate, steps: seq<Step>, t: nat)
    requires |g.waiting| == PRIORITIES
    ensures t in Run(g, steps).keys <==>
            || (exists k: nat :: LastTouch(g, steps, k, t, Took))
            || (t in g.keys && forall k :: 0 <= k < |steps| ==> TouchAt(g, steps, k, t) == Untouched)
    ensures (exists k: nat :: k < |steps| && TouchAt(g, steps, k, t) != Untouched) ==>
              exists k: nat :: LastTouch(g, steps, k, t, Took) || LastTouch(g, steps, k, t, Dropped)
    decreases |steps|
  {
    hide Run, TouchOf;
    if steps == [] {
      NoRun(g);
    } else {
      var n := |steps| - 1;
      var before := steps[..n];
      KeyTells(g, before, t);
      RunTo(g, steps, n);
      assert steps[..n + 1] == steps;
      StepTouches(Run(g, before), steps[n], t);
      forall k: nat | k < n ensures TouchAt(g, before, k, t) == TouchAt(g, steps, k, t) {
        assert before[..k] == steps[..k];
      }
      if TouchAt(g, steps, n, t) != Untouched {
        assert LastTouch(g, steps, n, t, TouchAt(g, steps, n, t));
      } else {
        forall k: nat, x ensures LastTouch(g, before, k, t, x) && x != Untouched ==> LastTouch(g, steps, k, t, x) {
        }
        forall k: nat, x ensures LastTouch(g, steps, k, t, x) && x != Untouched ==> LastTouch(g, before, k, t, x) {
        }
      }
    }
  }

  lemma NoRun(g: Gate)
    requires |g.waiting| == PRIORITIES
    ensures Run(g, []) == g
  {
  }

  lemma LastTouchOnce(g: Gate, steps: seq<Step>, j: nat, k: nat, t: nat)
    requires |g.waiting| == PRIORITIES && LastTouch(g, steps, j, t, Took)
    ensures !LastTouch(g, steps, k, t, Dropped)
  {
    hide Run, TouchOf;
  }

  // ----- What a call has behind it -----

  /** How far a call has come; no step takes it back. */
  function Rank(p: Phase): nat {
    match p
    case Queued => 0
    case Waiting(_, _) => 1
    case Ready(_, _) => 1
    case Admitted(_) => 2
    case TimedOut => 2
    case Inside => 3
    case Failing => 3
    case Freed => 4
    case Done(_) => 5
  }

  lemma StepAdvances(g: Gate, step: Step, i: nat)
    requires |g.waiting| == PRIORITIES && i < |g.calls|
    ensures var r := Next(g, step);
            && i < |r.calls| && Rank(r.calls[i].phase) >= Rank(g.calls[i].phase)
            && r.calls[i].thread == g.calls[i].thread && r.calls[i].name == g.calls[i].name
  {
    hide Priority, SomeBlocker, HigherWaiting;
  }

  lemma {:induction false} RunAdvances(g: Gate, steps: seq<Step>, i: nat)
    requires |g.waiting| == PRIORITIES && i < |g.calls|
    ensures var r := Run(g, steps);
            && i < |r.calls| && Rank(r.calls[i].phase) >= Rank(g.calls[i].phase)
            && r.calls[i].thread == g.calls[i].thread && r.calls[i].name == g.calls[i].name
    decreases |steps|
  {
    hide Next, Rank;
    if steps != [] {
      StepAdvances(g, steps[0], i);
      RunAdvances(Next(g, steps[0]), steps[1..], i);
    }
  }

  lemma DroppingAdvances(g: Gate, step: Step)
    requires |g.waiting| == PRIORITIES && (Frees(g, step) || TimesOut(g, step))
    ensures var r := Next(g, step);
            step.call < |r.calls| && (Rank(g.calls[step.call].phase) == 1 || Rank(r.calls[step.call].phase) == 4)
  {
    hide Priority, SomeBlocker, HigherWaiting;
  }

  /** From its admission until it is about to be freed, a call drops no key itself. */
  lemma OthersDrop(g: Gate, i: nat, steps: seq<Step>, k: nat)
    requires |g.waiting| == PRIORITIES && i < |g.calls| && g.calls[i].phase == Admitted(false)
    requires i < |Run(g, steps).calls| && Run(g, steps).calls[i].phase.Inside?
    requires k < |steps| && TouchAt(g, steps, k, g.calls[i].thread) == Dropped
    ensures steps[k].call != i
  {
    hide Next, Run, Priority, SomeBlocker, HigherWaiting;
    var m := Run(g, steps[..k]);
    RunAdvances(g, steps[..k], i);
    RunTo(g, steps, k);
    DroppingAdvances(m, steps[k]);
    if steps[k].call == i {
      var rest := steps[k + 1..];
      assert steps == steps[..k + 1] + rest;
      RunConcat(g, steps[..k + 1], rest);
      RunAdvances(Next(m, steps[k]), rest, i);
    }
  }

  /** A call about to be freed finds the key of its thread gone exactly when, since its admission, another call of
      the same thread was freed or timed out and none was admitted after that. */
  lemma FreeMissesKey(g: Gate, i: nat, steps: seq<Step>)
    requires |g.waiting| == PRIORITIES && i < |g.calls| && g.calls[i].phase == Admitted(false) && g.calls[i].thread in g.keys
    requires i < |Run(g, steps).calls| && Run(g, steps).calls[i].phase.Inside?
    ensures var t := g.calls[i].thread;
            && (t !in Run(g, steps).keys <==> exists k: nat :: LastTouch(g, steps, k, t, Dropped))
            && (forall k: nat :: LastTouch(g, steps, k, t, Dropped) ==> steps[k].call != i)
            && Drift(Run(g, steps), Free(i)) == if t !in Run(g, steps).keys then -1 else 0
  {
    RunAdvances(g, steps, i);
    hide Run, TouchOf;
    var t := g.calls[i].thread;
    KeyTells(g, steps, t);
    forall k: nat | LastTouch(g, steps, k, t, Dropped) ensures steps[k].call != i {
      OthersDrop(g, i, steps, k);
    }
    forall j: nat, k: nat | LastTouch(g, steps, j, t, Took) ensures !LastTouch(g, steps, k, t, Dropped) {
      LastTouchOnce(g, steps, j, k, t);
    }
  }

  // ----- Leaked slots -----

  predicate GetsOut(p: Phase) {
    p.Inside? || p == Admitted(false)
  }

  lemma {:induction false} StaysIn(g: Gate, steps: seq<Step>, i: nat)
    requires |g.waiting| == PRIORITIES && i < |g.calls| && GetsOut(g.calls[i].phase)
    requires forall k :: 0 <= k < |steps| ==> TouchAt(g, steps, k, g.calls[i].thread) == Untouched
    ensures i < |Run(g, steps).calls| && GetsOut(Run(g, steps).calls[i].phase)
    decreases |steps|
  {
    hide Run, TouchOf;
    if steps == [] {
      NoRun(g);
    } else {
      var n := |steps| - 1;
      var before, t := steps[..n], g.calls[i].thread;
      forall k | 0 <= k < n ensures TouchAt(g, before, k, t) == Untouched {
        assert before[..k] == steps[..k] && before[k] == steps[k];
        assert TouchAt(g, steps, k, t) == Untouched;
      }
      StaysIn(g, before, i);
      RunAdvances(g, before, i);
      RunTo(g, steps, n);
      assert steps[..n + 1] == steps;
      assert TouchAt(g, steps, n, t) == Untouched;
      UntouchedStaysIn(Run(g, before), steps[n], i);
    }
  }

  lemma UntouchedStaysIn(g: Gate, step: Step, i: nat)
    requires |g.waiting| == PRIORITIES && i < |g.calls| && GetsOut(g.calls[i].phase)
    requires TouchOf(g, step, g.calls[i].thread) == Untouched
    ensures i < |Next(g, step).calls| && GetsOut(Next(g, step).calls[i].phase)
  {
    hide Priority, SomeBlocker, HigherWaiting;
  }

  /** Step k admits a call of the thread whose status is busy, and nothing touches the key afterwards. */
  ghost predicate LeftBusy(g: Gate, steps: seq<Step>, k: nat, t: nat)
    requires |g.waiting| == PRIORITIES
  {
    && LastTouch(g, steps, k, t, Took)
    && var p := Run(g, steps[..k]).calls[steps[k].call].phase; p.Ready? && p.busy
  }

  /** A thread all of whose calls have returned still holds a key exactly when the last of them that was admitted,
      freed or timed out was an admission with the busy status. */
  lemma LeakedExactly(steps: seq<Step>, t: nat)
    requires ThreadIdle(Run(START, steps), t)
    ensures t in Run(START, steps).keys <==> exists k: nat :: LeftBusy(START, steps, k, t)
  {
    hide Run, TouchOf, Admits;
    KeyTells(START, steps, t);
    forall k: nat | LastTouch(START, steps, k, t, Took) ensures LeftBusy(START, steps, k, t) {
      AdmittedBusy(steps, k, t);
    }
  }

  lemma AdmittedBusy(steps: seq<Step>, k: nat, t: nat)
    requires ThreadIdle(Run(START, steps), t) && LastTouch(START, steps, k, t, Took)
    ensures LeftBusy(START, steps, k, t)
  {
    hide Run;
    var m, i := Run(START, steps[..k]), steps[k].call;
    var rest := steps[k + 1..];
    RunTo(START, steps, k);
    assert steps == steps[..k + 1] + rest;
    RunConcat(START, steps[..k + 1], rest);
    var after := Next(m, steps[k]);
    Admitting(m, steps[k]);
    if !m.calls[i].phase.busy {
      forall j | 0 <= j < |rest| ensures TouchAt(after, rest, j, t) == Untouched {
        RestTouch(steps, k, j, t);
      }
      StaysIn(after, rest, i);
      RunAdvances(after, rest, i);
    }
  }

  lemma Admitting(g: Gate, step: Step)
    requires |g.waiting| == PRIORITIES && Admits(g, step)
    ensures var c := g.calls[step.call];
            Next(g, step).calls == g.calls[step.call := c.(phase := Admitted(c.phase.busy))]
  {
    hide Priority, SomeBlocker, HigherWaiting;
  }

  lemma RestTouch(steps: seq<Step>, k: nat, j: nat, t: nat)
    requires k + 1 + j < |steps|
    ensures TouchAt(Next(Run(START, steps[..k]), steps[k]), steps[k + 1..], j, t) == TouchAt(START, steps, k + 1 + j, t)
  {
    hide Run, TouchOf, Next;
    RunTo(START, steps, k);
    assert steps[..k + 1 + j] == steps[..k + 1] + steps[k + 1..][..j];
    RunConcat(START, steps[..k + 1], steps[k + 1..][..j]);
  }

  // ----- Single steps of a call on its own -----

  lemma TwoSteps(g: Gate, a: Step, b: Step)
    requires |g.waiting| == PRIORITIES
    ensures Run(g, [a, b]) == Next(Next(g, a), b)
  {
    hide Next;
    assert [a, b][1..] == [b] && [b][1..] == [];
    assert Run(g, [a, b]) == Run(Next(g, a), [b]) == Run(Next(Next(g, a), b), []);
  }

  /** The steps of a call, with the given position, from its entry to the inside. */
  function Through(thread: nat, call: nat, name: string): seq<Step> {
    [Enter(thread, name), Announce(call)] + [Pass(call), Admit(call)] + [Leave(call)]
  }

  /** What the mutex checks of the others. */
  predicate RoomFor(g: Gate, name: string)
    requires |g.waiting| == PRIORITIES
  {
    && g.running < MAX_THREADS
    && (Priority(name) > 0 ==> g.running + RESERVED_THREADS < MAX_THREADS && HigherWaiting(g, Priority(name)) <= PERMANENT_TASKS)
  }

  /** A call that nothing blocks gets in when there is room. */
  lemma GetsThrough(g: Gate, thread: nat, name: string)
    requires |g.waiting| == PRIORITIES && RoomFor(g, name) && BlockTasks(name) == {}
    ensures var r := Run(g, Through(thread, |g.calls|, name));
            && r.calls == g.calls + [Call(thread, name, Inside)] && r.keys == g.keys + {thread}
            && r.running == (if thread in g.keys then g.running else g.running + 1)
            && r.waiting == g.waiting && Invoked(r, name) == Invoked(g, name) + 1
  {
    hide Priority, BlockTasks, Run, Next;
    var i := |g.calls|;
    RunConcat(g, [Enter(thread, name), Announce(i)] + [Pass(i), Admit(i)], [Leave(i)]);
    RunConcat(g, [Enter(thread, name), Announce(i)], [Pass(i), Admit(i)]);
    TwoSteps(g, Enter(thread, name), Announce(i));
    var g2 := Run(g, [Enter(thread, name), Announce(i)]);
    TwoSteps(g2, Pass(i), Admit(i));
    var g4 := Run(g2, [Pass(i), Admit(i)]);
    OneStep(g4, Leave(i));
    EnterAnnounce(g, thread, name, g2);
    HigherSame(g, g2, Priority(name));
    PassAdmit(g2, i, g4);
    LeaveInside(g4, i);
  }

  lemma {:induction false} HigherSame(g: Gate, g': Gate, p: nat)
    requires p <= |g.waiting| == |g'.waiting| && forall q :: 0 <= q < p ==> g'.waiting[q] == g.waiting[q]
    ensures HigherWaiting(g', p) == HigherWaiting(g, p)
  {
    if p > 0 {
      HigherSame(g, g', p - 1);
    }
  }

  lemma EnterAnnounce(g: Gate, thread: nat, name: string, g': Gate)
    requires |g.waiting| == PRIORITIES && g' == Next(Next(g, Enter(thread, name)), Announce(|g.calls|))
    ensures g'.calls == g.calls + [Call(thread, name, Waiting(false, 0))] && g'.keys == g.keys && g'.running == g.running
    ensures g'.waiting == g.waiting[Priority(name) := g.waiting[Priority(name)] + 1]
    ensures Invoked(g', name) == Invoked(g, name) + 1
    ensures forall other :: other != name ==> Invoked(g', other) == Invoked(g, other)
  {
    hide Priority;
  }

  lemma PassAdmit(g: Gate, i: nat, g': Gate)
    requires |g.waiting| == PRIORITIES && i < |g.calls| && g' == Next(Next(g, Pass(i)), Admit(i))
    requires g.calls[i].phase.Waiting? && RoomFor(g, g.calls[i].name) && !SomeBlocker(g, g.calls[i].name)
    ensures var t := g.calls[i].thread;
            g' == At(g, i, Admitted(g.calls[i].phase.busy)).(keys := g.keys + {t}, running := if t in g.keys then g.running else g.running + 1)
  {
    hide Priority, BlockTasks, SomeBlocker;
    HigherSame(g, Next(g, Pass(i)), Priority(g.calls[i].name));
    assert HigherWaiting(g, 0) == 0;
  }

  lemma LeaveInside(g: Gate, i: nat)
    requires |g.waiting| == PRIORITIES && i < |g.calls| && g.calls[i].phase == Admitted(false)
    ensures var r, name := Next(g, Leave(i)), g.calls[i].name;
            && r.calls == g.calls[i := g.calls[i].(phase := Inside)] && r.keys == g.keys && r.running == g.running
            && r.waiting == g.waiting[Priority(name) := g.waiting[Priority(name)] - 1]
            && forall n :: Invoked(r, n) == Invoked(g, n)
  {
    hide Priority;
  }

  lemma FreeFinish(g: Gate, i: nat, g': Gate)
    requires |g.waiting| == PRIORITIES && i < |g.calls| && g.calls[i].phase.Inside?
    requires g' == Next(Next(g, Free(i)), Finish(i))
    ensures g'.calls == g.calls[i := g.calls[i].(phase := Done(true))] && g'.keys == g.keys - {g.calls[i].thread}
    ensures g'.running == g.running - 1 && g'.waiting == g.waiting
    ensures Invoked(g', g.calls[i].name) == Invoked(g, g.calls[i].name) - 1
  {
  }

  // ----- Calls from inside a call -----

  /** A call made from inside a call of the same thread: when the inner one is freed the outer one is inside
      without a key, and freeing that one too takes the counter below zero. */
  lemma NestedFreeCountsTwice(outer: string, inner: string)
    requires BlockTasks(outer) == BlockTasks(inner) == {}
    ensures var steps := Through(0, 0, outer) + Through(0, 1, inner) + [Free(1), Finish(1)];
            && (var g := Run(START, steps); |g.calls| == 2 && g.calls[0] == Call(0, outer, Inside) && g.keys == {} && g.running == 0)
            && Run(START, steps + [Free(0), Finish(0)]).running == -1
  {
    hide Run, Next, Priority, BlockTasks, At, AddInvoked, AddWaiting, Through, Invoked;
    var a, b, c, d := Through(0, 0, outer), Through(0, 1, inner), [Free(1), Finish(1)], [Free(0), Finish(0)];
    RunConcat(START, a + b + c, d);
    RunConcat(START, a + b, c);
    RunConcat(START, a, b);
    NobodyWaits(START, outer);
    GetsThrough(START, 0, outer);
    var g := Run(START, a);
    NobodyWaits(g, inner);
    GetsThrough(g, 0, inner);
    var h := Run(g, b);
    TwoSteps(h, Free(1), Finish(1));
    FreeFinish(h, 1, Run(h, c));
    TwoSteps(Run(h, c), Free(0), Finish(0));
    FreeFinish(Run(h, c), 0, Run(Run(h, c), d));
  }

  lemma NobodyWaits(g: Gate, name: string)
    requires g.waiting == START.waiting && g.running <= 1
    ensures RoomFor(g, name)
  {
    hide Priority;
    assert HigherWaiting(g, 0) == HigherWaiting(g, 1) == HigherWaiting(g, 2) == HigherWaiting(g, 3) == 0;
  }

  /** The calls that do so: the restore from an upgrade asks for a quote, and the main loop changes space. */
  lemma NestedCallsOfTheWorker()
    ensures var nested := [("Ecall_restore_from_upgrade", "Ecall_get_quote_report"), ("Ecall_main_loop", "Ecall_srd_set_change"),
                           ("Ecall_main_loop", "Ecall_srd_decrease")];
            forall k :: 0 <= k < |nested| ==>
                          var steps := Through(0, 0, nested[k].0) + Through(0, 1, nested[k].1) + [Free(1), Finish(1)];
                          && |Run(START, steps).calls| == 2 && Run(START, steps).calls[0].phase.Inside? && Run(START, steps).keys == {}
                          && Run(START, steps + [Free(0), Finish(0)]).running == -1
                          && DriftSum(START, steps + [Free(0), Finish(0)]) == -1
  {
    hide Run, Through, DriftSum;
    var nested := [("Ecall_restore_from_upgrade", "Ecall_get_quote_report"), ("Ecall_main_loop", "Ecall_srd_set_change"),
                   ("Ecall_main_loop", "Ecall_srd_decrease")];
    forall k | 0 <= k < |nested|
      ensures var steps := Through(0, 0, nested[k].0) + Through(0, 1, nested[k].1) + [Free(1), Finish(1)];
              && |Run(START, steps).calls| == 2 && Run(START, steps).calls[0].phase.Inside? && Run(START, steps).keys == {}
              && Run(START, steps + [Free(0), Finish(0)]).running == -1
              && DriftSum(START, steps + [Free(0), Finish(0)]) == -1
    {
      NestedFreeCountsTwice(nested[k].0, nested[k].1);
      NestedKeys(nested[k].0, nested[k].1);
      CounterIsKeysPlusDrift(Through(0, 0, nested[k].0) + Through(0, 1, nested[k].1) + [Free(1), Finish(1)] + [Free(0), Finish(0)]);
    }
  }

  lemma NestedKeys(outer: string, inner: string)
    requires BlockTasks(outer) == BlockTasks(inner) == {}
    ensures Run(START, Through(0, 0, outer) + Through(0, 1, inner) + [Free(1), Finish(1)] + [Free(0), Finish(0)]).keys == {}
  {
    hide Run, Next, Through;
    var steps := Through(0, 0, outer) + Through(0, 1, inner) + [Free(1), Finish(1)];
    NestedFreeCountsTwice(outer, inner);
    var g := Run(START, steps);
    RunConcat(START, steps, [Free(0), Finish(0)]);
    TwoSteps(g, Free(0), Finish(0));
    FreeFinish(g, 0, Run(g, [Free(0), Finish(0)]));
  }

  /** A call between its two increments is not counted: nothing is seen although it is queued. */
  lemma QueuedIsNotSeen(names: seq<string>)
    ensures var g := Run(START, [Enter(0, "Ecall_seal_file")]);
            && g.calls == [Call(0, "Ecall_seal_file", Queued)] && g.waiting == [0, 1, 0, 0] && UpgradeNumber(g, names) == 0
  {
    OneStep(START, Enter(0, "Ecall_seal_file"));
    var g := Next(START, Enter(0, "Ecall_seal_file"));
    hide Run;
    assert forall n :: Invoked(g, n) == 0;
    NumberZero(g, names);
  }

  // ----- Busy returns -----

  const REPORT := "Ecall_gen_and_upload_work_report"
  const DELETE := "Ecall_delete_file"

  lemma TableRows()
    ensures Priority(DELETE) == Priority(REPORT) == Priority("Ecall_main_loop") == 0
    ensures BlockTasks(DELETE) == {REPORT} && BlockTasks(REPORT) == BlockTasks("Ecall_main_loop") == {}
  {
  }

  /** The steps of a deletion that first meets a report and then, the report gone, is admitted and still returns busy. */
  function BusyReturn(thread: nat, call: nat, report: nat): seq<Step> {
    [Enter(thread, DELETE), Announce(call)] + ([MeetBlocker(call)] + [Free(report), Finish(report)])
    + ([Pass(call), Admit(call)] + [Leave(call), Fail(call)])
  }

  /** The status BUSY is never reset: such a call fails, yet its key and its place in the counter stay. */
  lemma BusyReturnLeaks(g: Gate, t: nat, report: nat)
    requires |g.waiting| == PRIORITIES && g.running <= MAX_THREADS
    requires report < |g.calls| && g.calls[report] == Call(g.calls[report].thread, REPORT, Inside) && Invoked(g, REPORT) == 1
    requires t !in g.keys && g.calls[report].thread in g.keys
    ensures var r := Run(g, BusyReturn(t, |g.calls|, report));
            && r.calls == g.calls[report := g.calls[report].(phase := Done(true))] + [Call(t, DELETE, Done(false))]
            && r.keys == g.keys - {g.calls[report].thread} + {t} && r.running == g.running && Invoked(r, REPORT) == 0
  {
    hide Run, Next, Priority, BlockTasks, SomeBlocker, HigherWaiting;
    var i := |g.calls|;
    TableRows();
    var a, b, c, d, e := [Enter(t, DELETE), Announce(i)], [MeetBlocker(i)], [Free(report), Finish(report)], [Pass(i), Admit(i)], [Leave(i), Fail(i)];
    RunConcat(g, a + (b + c), d + e);
    RunConcat(g, a, b + c);
    TwoSteps(g, Enter(t, DELETE), Announce(i));
    var g1 := Run(g, a);
    EnterAnnounce(g, t, DELETE, g1);
    RunConcat(g1, b, c);
    OneStep(g1, MeetBlocker(i));
    var g2 := Run(g1, b);
    Meets(g1, i, g2);
    TwoSteps(g2, Free(report), Finish(report));
    var g3 := Run(g2, c);
    FreeFinish(g2, report, g3);
    RunConcat(g3, d, e);
    TwoSteps(g3, Pass(i), Admit(i));
    var g4 := Run(g3, d);
    NothingBlocks(g3);
    PassAdmit(g3, i, g4);
    TwoSteps(g4, Leave(i), Fail(i));
    LeaveFail(g4, i, Run(g4, e));
  }

  lemma Meets(g: Gate, i: nat, g': Gate)
    requires |g.waiting| == PRIORITIES && i < |g.calls| && g' == Next(g, MeetBlocker(i)) && g.calls[i].phase == Waiting(false, 0)
    requires g.calls[i].name == DELETE && Invoked(g, REPORT) > 0
    ensures g' == At(g, i, Waiting(true, 0))
  {
    TableRows();
    hide Priority, BlockTasks;
    assert REPORT in BlockTasks(DELETE);
  }

  lemma NothingBlocks(g: Gate)
    requires Invoked(g, REPORT) == 0
    ensures !SomeBlocker(g, DELETE)
  {
    TableRows();
    hide Priority, BlockTasks;
  }

  lemma LeaveFail(g: Gate, i: nat, g': Gate)
    requires |g.waiting| == PRIORITIES && i < |g.calls| && g.calls[i].phase == Admitted(true)
    requires g' == Next(Next(g, Leave(i)), Fail(i))
    ensures g'.calls == g.calls[i := g.calls[i].(phase := Done(false))] && g'.keys == g.keys && g'.running == g.running
    ensures forall n :: n != g.calls[i].name ==> Invoked(g', n) == Invoked(g, n)
  {
    hide Priority;
  }

  /** A report and a deletion on two threads: both return, and the key of the deletion stays in the counter. */
  lemma BusyReturnKeepsTheSlot()
    ensures var steps := Through(0, 0, REPORT) + BusyReturn(1, 1, 0);
            var g := Run(START, steps);
            && NoReentry(START, steps) && (forall t :: ThreadIdle(g, t))
            && g.calls == [Call(0, REPORT, Done(true)), Call(1, DELETE, Done(false))] && g.keys == {1} && g.running == 1
  {
    hide Run, NoReentry, Priority, BlockTasks, Through, BusyReturn, HigherWaiting;
    TableRows();
    NobodyWaits(START, REPORT);
    GetsThrough(START, 0, REPORT);
    var g := Run(START, Through(0, 0, REPORT));
    BusyReturnLeaks(g, 1, 0);
    RunConcat(START, Through(0, 0, REPORT), BusyReturn(1, 1, 0));
    assert ThreadIdle(START, 0) && ThreadIdle(g, 1);
    ThroughEnters(START, 0, 0, REPORT);
    BusyEnters(g, 1, 1, 0);
    NoReentryConcat(START, Through(0, 0, REPORT), BusyReturn(1, 1, 0));
  }

  // ----- Runs without re-entry -----

  lemma {:induction false} NoReentryConcat(g: Gate, a: seq<Step>, b: seq<Step>)
    requires |g.waiting| == PRIORITIES && NoReentry(g, a) && NoReentry(Run(g, a), b)
    ensures NoReentry(g, a + b)
    decreases |a|
  {
    hide Next, ThreadIdle;
    if a == [] {
      assert a + b == b;
    } else {
      NoReentryConcat(Next(g, a[0]), a[1..], b);
      assert (a + b)[1..] == a[1..] + b;
    }
  }

  lemma {:induction false} NobodyEnters(g: Gate, steps: seq<Step>)
    requires |g.waiting| == PRIORITIES && forall s <- steps :: !s.Enter?
    ensures NoReentry(g, steps)
    decreases |steps|
  {
    hide Next, ThreadIdle;
    if steps != [] {
      NobodyEnters(Next(g, steps[0]), steps[1..]);
    }
  }

  lemma OneEnters(g: Gate, t: nat, name: string, rest: seq<Step>)
    requires |g.waiting| == PRIORITIES && ThreadIdle(g, t) && forall s <- rest :: !s.Enter?
    ensures NoReentry(g, [Enter(t, name)] + rest)
  {
    hide Next, ThreadIdle;
    NobodyEnters(Next(g, Enter(t, name)), rest);
    assert ([Enter(t, name)] + rest)[1..] == rest;
  }

  lemma ThroughEnters(g: Gate, t: nat, call: nat, name: string)
    requires |g.waiting| == PRIORITIES && ThreadIdle(g, t)
    ensures NoReentry(g, Through(t, call, name))
  {
    hide Next, ThreadIdle, NoReentry;
    var rest := [Announce(call), Pass(call), Admit(call), Leave(call)];
    OneEnters(g, t, name, rest);
    assert Through(t, call, name) == [Enter(t, name)] + rest;
  }

  lemma BusyEnters(g: Gate, t: nat, call: nat, report: nat)
    requires |g.waiting| == PRIORITIES && ThreadIdle(g, t)
    ensures NoReentry(g, BusyReturn(t, call, report))
  {
    hide Next, ThreadIdle, NoReentry;
    var rest := [Announce(call), MeetBlocker(call), Free(report), Finish(report), Pass(call), Admit(call), Leave(call), Fail(call)];
    OneEnters(g, t, DELETE, rest);
    assert BusyReturn(t, call, report) == [Enter(t, DELETE)] + rest;
  }

  // ----- The jam -----

  /** With the counter at its limit and nobody freed who was on the way out, the counter stays, and only who was
      inside or already admitted is ever inside. */
  lemma {:induction false} JammedForever(g: Gate, steps: seq<Step>)
    requires |g.waiting| == PRIORITIES && g.running >= MAX_THREADS
    requires forall s <- steps :: s.Free? && s.call < |g.calls| ==> !GetsOut(g.calls[s.call].phase)
    ensures var r := Run(g, steps);
            && r.running == g.running
            && forall i :: 0 <= i < |r.calls| && GetsOut(r.calls[i].phase) ==> i < |g.calls| && GetsOut(g.calls[i].phase)
    decreases |steps|
  {
    hide Next, GetsOut;
    if steps != [] {
      var m := Next(g, steps[0]);
      JammedStep(g, steps[0]);
      forall s <- steps[1..] ensures s.Free? && s.call < |m.calls| ==> !GetsOut(m.calls[s.call].phase) {
        assert s in steps;
      }
      JammedForever(m, steps[1..]);
    }
  }

  lemma JammedStep(g: Gate, step: Step)
    requires |g.waiting| == PRIORITIES && g.running >= MAX_THREADS
    requires step.Free? && step.call < |g.calls| ==> !GetsOut(g.calls[step.call].phase)
    ensures var r := Next(g, step);
            && r.running == g.running
            && forall i :: 0 <= i < |r.calls| && GetsOut(r.calls[i].phase) ==> i < |g.calls| && GetsOut(g.calls[i].phase)
  {
    hide Priority, SomeBlocker, HigherWaiting;
  }

  /** The main loop inside, and n deletions that returned busy, each on a thread of its own. */
  ghost predicate Leaked(g: Gate, n: nat) {
    && |g.waiting| == PRIORITIES && |g.calls| == 1 + 2 * n && g.calls[0] == Call(0, "Ecall_main_loop", Inside)
    && (forall i :: 0 < i < |g.calls| ==> g.calls[i].phase.Done?)
    && g.running == 1 + n && (forall t: nat :: t in g.keys <==> t == 0 || 2 <= t < n + 2)
    && Invoked(g, REPORT) == 0
  }

  /** The main loop enters on thread 0; n times a report on thread 1 keeps a deletion on a new thread busy. */
  function LeakSteps(n: nat): seq<Step> {
    if n == 0 then Through(0, 0, "Ecall_main_loop")
    else LeakSteps(n - 1) + (Through(1, 2 * n - 1, REPORT) + BusyReturn(n + 1, 2 * n, 2 * n - 1))
  }

  lemma LeakOne(g: Gate, n: nat)
    requires Leaked(g, n) && n + 1 < MAX_THREADS
    ensures var steps := Through(1, 2 * n + 1, REPORT) + BusyReturn(n + 2, 2 * n + 2, 2 * n + 1);
            NoReentry(g, steps) && Leaked(Run(g, steps), n + 1)
  {
    hide Run, NoReentry, Priority, BlockTasks, Through, BusyReturn, HigherWaiting, Invoked;
    TableRows();
    var i, a, b := 2 * n + 1, Through(1, 2 * n + 1, REPORT), BusyReturn(n + 2, 2 * n + 2, 2 * n + 1);
    GetsThrough(g, 1, REPORT);
    var h := Run(g, a);
    assert Invoked(h, REPORT) == 1;
    BusyReturnLeaks(h, n + 2, i);
    RunConcat(g, a, b);
    ThroughEnters(g, 1, i, REPORT);
    BusyEnters(h, n + 2, i + 1, i);
    NoReentryConcat(g, a, b);
  }

  lemma {:induction false} Leaks(n: nat)
    requires n < MAX_THREADS
    ensures NoReentry(START, LeakSteps(n)) && Leaked(Run(START, LeakSteps(n)), n)
  {
    hide Run, NoReentry, Priority, BlockTasks, Through, BusyReturn, HigherWaiting, Leaked;
    if n == 0 {
      MainLoopEnters();
    } else {
      Leaks(n - 1);
      var g := Run(START, LeakSteps(n - 1));
      LeakOne(g, n - 1);
      var steps := Through(1, 2 * n - 1, REPORT) + BusyReturn(n + 1, 2 * n, 2 * n - 1);
      RunConcat(START, LeakSteps(n - 1), steps);
      NoReentryConcat(START, LeakSteps(n - 1), steps);
    }
  }

  lemma MainLoopEnters()
    ensures NoReentry(START, Through(0, 0, "Ecall_main_loop")) && Leaked(Run(START, Through(0, 0, "Ecall_main_loop")), 0)
  {
    hide Run, NoReentry, Priority, BlockTasks, Through, HigherWaiting, Next;
    TableRows();
    NobodyWaits(START, "Ecall_main_loop");
    GetsThrough(START, 0, "Ecall_main_loop");
    ThroughEnters(START, 0, 0, "Ecall_main_loop");
    CountersAreExact(Through(0, 0, "Ecall_main_loop"));
    var g := Run(START, Through(0, 0, "Ecall_main_loop"));
    assert Count(g.calls, AnnouncedAs(REPORT)) == 0 by { CountZero(g.calls, AnnouncedAs(REPORT)); }
  }

  /** Fourteen busy returns beside the main loop, without re-entry, fill the counter while every other call has
      returned; as the main loop is never freed, no call gets inside any more. */
  lemma JamIsReachable(more: seq<Step>)
    requires Free(0) !in more
    ensures var g := Run(START, LeakSteps(MAX_THREADS - 1));
            && NoReentry(START, LeakSteps(MAX_THREADS - 1)) && g.running == MAX_THREADS
            && (forall i :: 0 < i < |g.calls| ==> g.calls[i].phase.Done?)
            && (var r := Run(g, more); r.running == MAX_THREADS && forall i :: 0 <= i < |r.calls| && GetsOut(r.calls[i].phase) ==> i == 0)
  {
    hide Run, LeakSteps, NoReentry;
    Leaks(MAX_THREADS - 1);
    var g := Run(START, LeakSteps(MAX_THREADS - 1));
    JammedForever(g, more);
  }

  // ----- The upgrade number, read counter by counter -----

  /** One counter is read, after some steps. */
  datatype Read = Read(before: seq<Step>, name: string)

  /** The gate when counter k is read. */
  function GateAt(g: Gate, scan: seq<Read>, k: nat): (r: Gate)
    requires |g.waiting| == PRIORITIES && k < |scan|
    ensures |r.waiting| == PRIORITIES
  {
    if k == 0 then Run(g, scan[0].before) else Run(GateAt(g, scan, k - 1), scan[k].before)
  }

  /** get_upgrade_ecalls_num, with the steps that happen while it reads. */
  function NumberRead(g: Gate, scan: seq<Read>): int
    requires |g.waiting| == PRIORITIES
  {
    if scan == [] then 0
    else
      var n := |scan| - 1;
      var invoked := Invoked(GateAt(g, scan, n), scan[n].name);
      NumberRead(g, scan[..n]) + if invoked > 0 then invoked else 0
  }

  lemma {:induction false} GateAtPrefix(g: Gate, scan: seq<Read>, n: nat, k: nat)
    requires |g.waiting| == PRIORITIES && k < n <= |scan|
    ensures GateAt(g, scan[..n], k) == GateAt(g, scan, k)
  {
    hide Run;
    if k > 0 {
      GateAtPrefix(g, scan, n, k - 1);
    }
  }

  lemma {:induction false} NumberReadZero(g: Gate, scan: seq<Read>)
    requires |g.waiting| == PRIORITIES
    ensures NumberRead(g, scan) >= 0
    ensures NumberRead(g, scan) == 0 <==> forall k: nat :: k < |scan| ==> Invoked(GateAt(g, scan, k), scan[k].name) <= 0
  {
    hide Run, GateAt, Invoked;
    if scan != [] {
      var n := |scan| - 1;
      NumberReadZero(g, scan[..n]);
      forall k: nat | k < n ensures GateAt(g, scan[..n], k) == GateAt(g, scan, k) {
        GateAtPrefix(g, scan, n, k);
      }
    }
  }

  lemma {:induction false} GateIsRun(scan: seq<Read>, k: nat) returns (steps: seq<Step>)
    requires k < |scan|
    ensures GateAt(START, scan, k) == Run(START, steps)
  {
    hide Run;
    if k == 0 {
      steps := scan[0].before;
    } else {
      steps := GateIsRun(scan, k - 1);
      RunConcat(START, steps, scan[k].before);
      steps := steps + scan[k].before;
    }
  }

  /** The number read is zero exactly when, each at the moment its own counter is read, every upgrade-blocking call is
      queued and not yet announced, or has returned. */
  lemma ReadsSee(scan: seq<Read>)
    ensures NumberRead(START, scan) == 0 <==>
            forall k: nat, i: nat :: k < |scan| && i < |GateAt(START, scan, k).calls| && GateAt(START, scan, k).calls[i].name == scan[k].name ==>
                                       !Announced(GateAt(START, scan, k).calls[i].phase)
  {
    hide Run, GateAt, NumberRead, Count, Invoked;
    NumberReadZero(START, scan);
    forall k: nat | k < |scan|
      ensures Invoked(GateAt(START, scan, k), scan[k].name) <= 0 <==>
              forall i: nat :: i < |GateAt(START, scan, k).calls| && GateAt(START, scan, k).calls[i].name == scan[k].name ==>
                                 !Announced(GateAt(START, scan, k).calls[i].phase)
    {
      CounterSees(scan, k);
    }
  }

  lemma CounterSees(scan: seq<Read>, k: nat)
    requires k < |scan|
    ensures var g := GateAt(START, scan, k);
            Invoked(g, scan[k].name) <= 0 <==>
            forall i: nat :: i < |g.calls| && g.calls[i].name == scan[k].name ==> !Announced(g.calls[i].phase)
  {
    hide Run, GateAt, Count, Invoked, Announced;
    var g, p := GateAt(START, scan, k), AnnouncedAs(scan[k].name);
    var steps := GateIsRun(scan, k);
    CountersAreExact(steps);
    CountZero(g.calls, p);
    assert forall i :: 0 <= i < |g.calls| ==> (p(g.calls[i]) <==> g.calls[i].name == scan[k].name && Announced(g.calls[i].phase));
  }

  /** The call has not announced itself: it is still to come, or queued. */
  predicate NotYet(g: Gate, i: nat) {
    i < |g.calls| ==> g.calls[i].phase.Queued?
  }

  lemma {:induction false} StaysQueued(g: Gate, steps: seq<Step>, i: nat)
    requires |g.waiting| == PRIORITIES && NotYet(g, i) && Announce(i) !in steps
    ensures NotYet(Run(g, steps), i)
    decreases |steps|
  {
    hide Next;
    if steps != [] {
      QueuedStep(g, steps[0], i);
      StaysQueued(Next(g, steps[0]), steps[1..], i);
    }
  }

  lemma QueuedStep(g: Gate, step: Step, i: nat)
    requires |g.waiting| == PRIORITIES && NotYet(g, i) && step != Announce(i)
    ensures NotYet(Next(g, step), i)
  {
    hide Priority, SomeBlocker, HigherWaiting;
  }

  /** A call that is on its way when the last counter has been read, although the number is zero, announced itself
      behind the read of its own counter. */
  lemma {:induction false} OnlyLateIsMissed(scan: seq<Read>, k: nat, n: nat, i: nat)
    requires k <= n < |scan| && NumberRead(START, scan) == 0
    requires i < |GateAt(START, scan, n).calls| && Announced(GateAt(START, scan, n).calls[i].phase)
    requires GateAt(START, scan, n).calls[i].name == scan[k].name
    ensures NotYet(GateAt(START, scan, k), i)
    ensures exists m :: k < m <= n && Announce(i) in scan[m].before
  {
    hide Run, NumberRead, GateAt;
    ReadsSee(scan);
    CallStays(scan, k, n, i);
    if forall m :: k < m <= n ==> Announce(i) !in scan[m].before {
      NeverAnnounced(scan, k, n, i);
    }
  }

  lemma {:induction false} NeverAnnounced(scan: seq<Read>, k: nat, n: nat, i: nat)
    requires k <= n < |scan| && NotYet(GateAt(START, scan, k), i) && forall m :: k < m <= n ==> Announce(i) !in scan[m].before
    ensures NotYet(GateAt(START, scan, n), i)
    decreases n - k
  {
    hide Run, NotYet;
    if k < n {
      NeverAnnounced(scan, k, n - 1, i);
      StaysQueued(GateAt(START, scan, n - 1), scan[n].before, i);
    }
  }

  /** Between two reads a call keeps its name, and one that has returned has returned. */
  lemma {:induction false} CallStays(scan: seq<Read>, k: nat, n: nat, i: nat)
    requires k <= n < |scan|
    ensures var g, h := GateAt(START, scan, k), GateAt(START, scan, n);
            i < |g.calls| ==> i < |h.calls| && h.calls[i].name == g.calls[i].name && Rank(h.calls[i].phase) >= Rank(g.calls[i].phase)
    decreases n - k
  {
    hide Run, Rank;
    if k < n {
      CallStays(scan, k, n - 1, i);
      if i < |GateAt(START, scan, k).calls| {
        RunAdvances(GateAt(START, scan, n - 1), scan[n].before, i);
      }
    }
  }

  const SEAL := "Ecall_seal_file"

  /** A sealing that enters behind the read of its counter is inside when the number turns out to be zero. */
  lemma MissedWhileReading()
    ensures var scan := [Read([], SEAL), Read(Through(0, 0, SEAL), "Ecall_unseal_file"), Read([], "Ecall_srd_decrease"),
                         Read([], "Ecall_srd_increase"), Read([], "Ecall_confirm_file"), Read([], "Ecall_delete_file")];
            && (forall name :: name in UPGRADE_BLOCKERS <==> exists k :: 0 <= k < |scan| && scan[k].name == name)
            && NumberRead(START, scan) == 0 && GateAt(START, scan, 5).calls == [Call(0, SEAL, Inside)]
  {
    var scan := [Read([], SEAL), Read(Through(0, 0, SEAL), "Ecall_unseal_file"), Read([], "Ecall_srd_decrease"),
                 Read([], "Ecall_srd_increase"), Read([], "Ecall_confirm_file"), Read([], "Ecall_delete_file")];
    var g := Run(START, Through(0, 0, SEAL));
    assert BlockTasks(SEAL) == {};
    NobodyWaits(START, SEAL);
    GetsThrough(START, 0, SEAL);
    SixNames(scan);
    hide Run, Through, NumberRead;
    NoRun(START);
    NoRun(g);
    assert GateAt(START, scan, 0) == START;
    assert GateAt(START, scan, 1) == g;
    assert GateAt(START, scan, 2) == g;
    assert GateAt(START, scan, 3) == g;
    assert GateAt(START, scan, 4) == g;
    assert GateAt(START, scan, 5) == g;
    ReadsSee(scan);
  }

  lemma SixNames(scan: seq<Read>)
    requires |scan| == 6 && scan[0].name == SEAL && scan[1].name == "Ecall_unseal_file" && scan[2].name == "Ecall_srd_decrease"
    requires scan[3].name == "Ecall_srd_increase" && scan[4].name == "Ecall_confirm_file" && scan[5].name == "Ecall_delete_file"
    ensures forall name :: name in UPGRADE_BLOCKERS <==> exists k :: 0 <= k < |scan| && scan[k].name == name
    ensures forall k :: 0 < k < 6 ==> scan[k].name != SEAL
  {
  }
}
