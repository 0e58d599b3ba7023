/** Who is let into the enclave, who is kept out and who gives up (src/app/ecalls/ECalls.cpp). */
module AdmissionRules {
  import opened EnclaveAdmission
  import opened AdmissionRuns

  // ----- Under the mutex -----

  /** The calls of the given names' priority or of a higher one that are in the queue. */
  function MoreImportant(g: Gate, name: string): set<nat> {
    set i: nat | i < |g.calls| && InQueue(g.calls[i].phase) && Priority(g.calls[i].name) < Priority(name)
  }

  function QueuedBelow(priority: nat): Call -> bool {
    (c: Call) => Priority(c.name) < priority && InQueue(c.phase)
  }

  lemma {:induction false} CountSplits(calls: seq<Call>, priority: nat)
    ensures Count(calls, QueuedBelow(priority + 1)) == Count(calls, QueuedBelow(priority)) + Count(calls, QueuedWith(priority))
  {
    hide Priority, InQueue;
    if calls != [] {
      CountSplits(calls[..|calls| - 1], priority);
    }
  }

  lemma {:induction false} HigherIsCount(g: Gate, priority: nat)
    requires Counted(g) && priority <= PRIORITIES
    ensures HigherWaiting(g, priority) == Count(g.calls, QueuedBelow(priority))
  {
    hide Priority, InQueue, Count;
    if priority == 0 {
      CountZero(g.calls, QueuedBelow(0));
    } else {
      HigherIsCount(g, priority - 1);
      CountSplits(g.calls, priority - 1);
    }
  }

  function Positions(calls: seq<Call>, p: Call -> bool): set<nat> {
    set i: nat | i < |calls| && p(calls[i])
  }

  lemma PositionsMore(calls: seq<Call>, c: Call, p: Call -> bool)
    ensures Positions([], p) == {}
    ensures Positions(calls + [c], p) == (if p(c) then Positions(calls, p) + {|calls|} else Positions(calls, p))
    ensures |calls| !in Positions(calls, p)
  {
  }

  lemma {:induction false} CountIsSize(calls: seq<Call>, p: Call -> bool)
    ensures Count(calls, p) == |Positions(calls, p)|
  {
    hide Count, Positions;
    if calls == [] {
      CountZero(calls, p);
      PositionsMore(calls, Call(0, "", Queued), p);
    } else {
      var n := |calls| - 1;
      CountIsSize(calls[..n], p);
      assert calls == calls[..n] + [calls[n]];
      CountAppend(calls[..n], calls[n], p);
      PositionsMore(calls[..n], calls[n], p);
    }
  }

  lemma HigherAreMoreImportant(g: Gate, name: string)
    requires Counted(g)
    ensures HigherWaiting(g, Priority(name)) == |MoreImportant(g, name)|
  {
    hide Priority, InQueue, Count, HigherWaiting;
    HigherIsCount(g, Priority(name));
    CountIsSize(g.calls, QueuedBelow(Priority(name)));
    assert Positions(g.calls, QueuedBelow(Priority(name))) == MoreImportant(g, name);
  }

  /** In every run a call that comes to the mutex is admitted exactly when a thread is free, which must not be the
      reserved one unless the call has the highest priority, and at most one queued call is more important. */
  lemma AdmittedExactly(steps: seq<Step>, i: nat)
    requires var g := Run(START, steps); i < |g.calls| && g.calls[i].phase.Ready?
    ensures var g := Run(START, steps);
            var name := g.calls[i].name;
            Next(g, Admit(i)).calls[i].phase.Admitted? <==>
            && g.running < MAX_THREADS
            && (Priority(name) == 0 || g.running < MAX_THREADS - RESERVED_THREADS)
            && |MoreImportant(g, name)| <= PERMANENT_TASKS
  {
    hide Run, Count, HigherWaiting, Counted, Priority, MoreImportant;
    CountersAreExact(steps);
    var g := Run(START, steps);
    HigherAreMoreImportant(g, g.calls[i].name);
  }

  /** The names of the table of priorities. A call by any other name may take the last thread. */
  const ORDINARY := {"Ecall_seal_file", "Ecall_unseal_file", "Ecall_srd_decrease", "Ecall_srd_update_metadata", "Ecall_srd_set_change",
                     "Ecall_srd_increase", "Ecall_id_get_info", "Ecall_get_workload"}

  /** No step of any run lets an ordinary call have the last thread, and none lets a call past two more important ones. */
  lemma LastThreadIsReserved(steps: seq<Step>, step: Step, i: nat)
    requires var g := Run(START, steps); i < |g.calls| && !g.calls[i].phase.Admitted? && Next(g, step).calls[i].phase.Admitted?
    ensures var g, g' := Run(START, steps), Next(Run(START, steps), step);
            && step == Admit(i)
            && (g.calls[i].name in ORDINARY ==> g'.running <= 14)
            && |MoreImportant(g, g.calls[i].name)| < 2
  {
    hide Run, HigherWaiting, Priority, MoreImportant, SomeBlocker;
    var g := Run(START, steps);
    assert step == Admit(i);
    AdmittedExactly(steps, i);
    OrdinaryIsTable(g.calls[i].name);
  }

  lemma OrdinaryIsTable(name: string)
    ensures name in ORDINARY <==> Priority(name) > 0
  {
  }

  // ----- In front of the mutex -----

  /** The names a call under way keeps out. */
  function KeepsOut(name: string): set<string> {
    match name
    case "Ecall_gen_and_upload_work_report" => {"Ecall_srd_increase", "Ecall_confirm_file", "Ecall_delete_file"}
    case "Ecall_seal_file" => {"Ecall_srd_increase"}
    case "Ecall_unseal_file" => {"Ecall_srd_increase"}
    case "Ecall_confirm_file" => {"Ecall_srd_increase"}
    case _ => {}
  }

  lemma KeptOutIsBlocked(name: string, other: string)
    ensures other in BlockTasks(name) <==> name in KeepsOut(other)
  {
  }

  /** A call that keeps the given one out is announced and has not returned. */
  ghost predicate KeptOut(g: Gate, i: nat)
    requires i < |g.calls|
  {
    exists j :: 0 <= j < |g.calls| && g.calls[i].name in KeepsOut(g.calls[j].name) && Announced(g.calls[j].phase)
  }

  lemma BlockedIsKeptOut(g: Gate, i: nat)
    requires Counted(g) && i < |g.calls|
    ensures SomeBlocker(g, g.calls[i].name) <==> KeptOut(g, i)
  {
    hide Count, BlockTasks, KeepsOut, Announced, Priority;
    var name := g.calls[i].name;
    if KeptOut(g, i) {
      var j :| 0 <= j < |g.calls| && name in KeepsOut(g.calls[j].name) && Announced(g.calls[j].phase);
      KeptOutIsBlocked(name, g.calls[j].name);
      CountZero(g.calls, AnnouncedAs(g.calls[j].name));
      assert AnnouncedAs(g.calls[j].name)(g.calls[j]);
      assert Invoked(g, g.calls[j].name) > 0;
    }
    if SomeBlocker(g, name) {
      var b :| b in BlockTasks(name) && Invoked(g, b) > 0;
      CountZero(g.calls, AnnouncedAs(b));
      var j :| 0 <= j < |g.calls| && AnnouncedAs(b)(g.calls[j]);
      KeptOutIsBlocked(name, b);
    }
  }

  /** In every run a waiting call gets to the mutex exactly when no call that keeps it out is announced and not yet
      back; otherwise it is made busy and stays outside. */
  lemma PassesExactly(steps: seq<Step>, i: nat)
    requires var g := Run(START, steps); i < |g.calls| && g.calls[i].phase.Waiting?
    ensures var g := Run(START, steps);
            && (Next(g, Pass(i)).calls[i].phase.Ready? <==> !KeptOut(g, i))
            && (KeptOut(g, i) ==> var p := Next(g, MeetBlocker(i)).calls[i].phase; p.TimedOut? || (p.Waiting? && p.busy))
  {
    hide Run, Count, SomeBlocker, KeptOut, Priority, Counted;
    CountersAreExact(steps);
    BlockedIsKeptOut(Run(START, steps), i);
  }

  // ----- Giving up -----

  /** The names whose rounds are counted. */
  const IMPATIENT := {"Ecall_srd_increase", "Ecall_id_get_info", "Ecall_get_workload"}

  /** The step ends a round of the given call without success. */
  predicate EndsRound(g: Gate, step: Step, i: nat) {
    && i < |g.calls|
    && ((step == MeetBlocker(i) && g.calls[i].phase.Waiting? && SomeBlocker(g, g.calls[i].name))
        || (step == Refuse(i) && g.calls[i].phase.Ready?))
  }

  function Rounds(steps: seq<Step>, i: nat): nat {
    if steps == [] then 0
    else
      var before := steps[..|steps| - 1];
      Rounds(before, i) + if EndsRound(Run(START, before), steps[|steps| - 1], i) then 1 else 0
  }

  /** What the phase of a call says of its rounds. */
  ghost predicate Patience(g: Gate, i: nat, rounds: nat) {
    if i >= |g.calls| then rounds == 0
    else
      var c := g.calls[i];
      && (c.phase.Queued? ==> rounds == 0)
      && (c.phase.Waiting? || c.phase.Ready? ==>
            if c.name in IMPATIENT then c.phase.timeout == rounds && rounds < 30 else c.phase.timeout == 0)
      && (c.phase.TimedOut? ==> c.name in IMPATIENT && rounds == 30)
      && (c.phase.Admitted? ==> c.name in IMPATIENT ==> rounds < 30)
  }

  lemma ImpatientIsTable(name: string)
    ensures name in IMPATIENT <==> Priority(name) > TIMEOUT_THRESHOLD
  {
  }

  /** A step appends a call or moves the phase of one. */
  lemma CallsOf(g: Gate, step: Step)
    requires |g.waiting| == PRIORITIES
    ensures var c := Next(g, step).calls;
            if step.Enter? then c == g.calls + [Call(step.thread, step.name, Queued)]
            else |c| == |g.calls| && forall i :: 0 <= i < |c| ==> (i != step.call ==> c[i] == g.calls[i]) && c[i].name == g.calls[i].name
  {
    hide Priority, SomeBlocker, Admissible;
  }

  lemma PatienceStep(g: Gate, step: Step, i: nat, rounds: nat)
    requires |g.waiting| == PRIORITIES && Patience(g, i, rounds)
    ensures Patience(Next(g, step), i, rounds + if EndsRound(g, step, i) then 1 else 0)
  {
    CallsOf(g, step);
    if !step.Enter? && step.call == i {
      PatienceMoves(g, step, rounds);
    } else {
      hide Next, SomeBlocker;
    }
  }

  lemma PatienceMoves(g: Gate, step: Step, rounds: nat)
    requires |g.waiting| == PRIORITIES && !step.Enter? && Patience(g, step.call, rounds)
    ensures Patience(Next(g, step), step.call, rounds + if EndsRound(g, step, step.call) then 1 else 0)
  {
    hide Priority, SomeBlocker, Admissible;
    if step.call < |g.calls| {
      ImpatientIsTable(g.calls[step.call].name);
    }
  }

  /** In every run a call gives up exactly after thirty rounds without success, and only one of the three impatient
      names does; all others go round for ever. */
  lemma {:induction false} GivesUpAfterThirty(steps: seq<Step>, i: nat)
    ensures Patience(Run(START, steps), i, Rounds(steps, i))
  {
    hide Next, Patience, EndsRound;
    if steps == [] {
      StartIsPatient(i);
    } else {
      var before, last := steps[..|steps| - 1], steps[|steps| - 1];
      GivesUpAfterThirty(before, i);
      PatienceStep(Run(START, before), last, i, Rounds(before, i));
      assert steps == before + [last];
      RunConcat(START, before, [last]);
      OneStep(Run(START, before), last);
    }
  }

  lemma StartIsPatient(i: nat)
    ensures Patience(START, i, 0)
  {
  }

  /** Which call yields to which: all of the table to any other, the impatient ones to the rest of the table, and the two
      readers to the growth of space. */
  lemma WhoYields(name: string, other: string)
    ensures Priority(other) < Priority(name) <==>
            || (name in ORDINARY && other !in ORDINARY)
            || (name in IMPATIENT && other in ORDINARY && other !in IMPATIENT)
            || (name in {"Ecall_id_get_info", "Ecall_get_workload"} && other == "Ecall_srd_increase")
  {
    RankOf(name);
    RankOf(other);
  }

  lemma RankOf(name: string)
    ensures name !in ORDINARY <==> Priority(name) == 0
    ensures name in ORDINARY && name !in IMPATIENT <==> Priority(name) == 1
    ensures name == "Ecall_srd_increase" <==> Priority(name) == 2
    ensures name in {"Ecall_id_get_info", "Ecall_get_workload"} <==> Priority(name) == 3
  {
  }

  // ----- The number of calls in the way of an upgrade -----

  function AnnouncedIn(names: seq<string>): Call -> bool {
    (c: Call) => c.name in names && Announced(c.phase)
  }

  lemma {:induction false} CountOfNames(calls: seq<Call>, name: string, names: seq<string>)
    requires name !in names
    ensures Count(calls, AnnouncedIn([name] + names)) == Count(calls, AnnouncedAs(name)) + Count(calls, AnnouncedIn(names))
  {
    hide Announced;
    if calls != [] {
      CountOfNames(calls[..|calls| - 1], name, names);
    }
  }

  lemma {:induction false} NumberIsCount(g: Gate, names: seq<string>)
    requires Counted(g) && forall i, j :: 0 <= i < j < |names| ==> names[i] != names[j]
    ensures UpgradeNumber(g, names) == Count(g.calls, AnnouncedIn(names))
  {
    hide Count;
    if names == [] {
      CountZero(g.calls, AnnouncedIn([]));
    } else {
      assert names[0] !in names[1..];
      NumberIsCount(g, names[1..]);
      CountOfNames(g.calls, names[0], names[1..]);
      assert [names[0]] + names[1..] == names;
    }
  }

  /** In every run the number is that of the calls of the given names that are announced and not yet back. */
  lemma UpgradeCounts(steps: seq<Step>, names: seq<string>)
    requires forall i, j :: 0 <= i < j < |names| ==> names[i] != names[j]
    ensures var g := Run(START, steps);
            UpgradeNumber(g, names) == |set i: nat | i < |g.calls| && g.calls[i].name in names && Announced(g.calls[i].phase)|
  {
    hide Run, Count, Counted, UpgradeNumber, Announced;
    var g := Run(START, steps);
    CountersAreExact(steps);
    NumberIsCount(g, names);
    CountIsSize(g.calls, AnnouncedIn(names));
    assert Positions(g.calls, AnnouncedIn(names)) == set i: nat | i < |g.calls| && g.calls[i].name in names && Announced(g.calls[i].phase);
  }
}
