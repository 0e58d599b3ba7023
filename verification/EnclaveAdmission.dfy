/** Admission of calls to the enclave (src/app/ecalls/ECalls.cpp), as steps between two accesses to shared state. */
module EnclaveAdmission {

  const MAX_THREADS := 15
  const RESERVED_THREADS := 1
  const TIMEOUT_THRESHOLD := 1
  const PERMANENT_TASKS := 1
  const TASK_TIMEOUT := 30
  const PRIORITIES := 4

  /** A name missing from the table gets priority zero. */
  function Priority(name: string): (p: nat)
    ensures p < PRIORITIES
  {
    if name in {"Ecall_seal_file", "Ecall_unseal_file", "Ecall_srd_decrease", "Ecall_srd_update_metadata", "Ecall_srd_set_change"} then 1
    else if name == "Ecall_srd_increase" then 2
    else if name in {"Ecall_id_get_info", "Ecall_get_workload"} then 3
    else 0
  }

  /** The calls that keep a call out. */
  function BlockTasks(name: string): set<string> {
    if name == "Ecall_srd_increase" then
      {"Ecall_seal_file", "Ecall_unseal_file", "Ecall_gen_and_upload_work_report", "Ecall_confirm_file"}
    else if name in {"Ecall_confirm_file", "Ecall_delete_file"} then {"Ecall_gen_and_upload_work_report"}
    else {}
  }

  const UPGRADE_BLOCKERS := {"Ecall_seal_file", "Ecall_unseal_file", "Ecall_srd_decrease", "Ecall_srd_increase",
                             "Ecall_confirm_file", "Ecall_delete_file"}

  /** Where a call is. The flag says that the status is BUSY, which nothing resets. */
  datatype Phase =
    | Queued
    | Waiting(busy: bool, timeout: nat)
    | Ready(busy: bool, timeout: nat)
    | Admitted(busy: bool)
    | TimedOut
    | Failing
    | Inside
    | Freed
    | Done(ok: bool)

  datatype Call = Call(thread: nat, name: string, phase: Phase)

  /** All calls ever made, the keys of the running map, the counters. */
  datatype Gate = Gate(calls: seq<Call>, keys: set<nat>, running: int, waiting: seq<int>, invoked: map<string, int>)

  const START := Gate([], {}, 0, [0, 0, 0, 0], map[])

  function Invoked(g: Gate, name: string): int {
    if name in g.invoked then g.invoked[name] else 0
  }

  function HigherWaiting(g: Gate, priority: nat): int
    requires priority <= |g.waiting|
  {
    if priority == 0 then 0 else HigherWaiting(g, priority - 1) + g.waiting[priority - 1]
  }

  datatype Step =
    | Enter(thread: nat, name: string)
    | Announce(call: nat)
    | MeetBlocker(call: nat)
    | Pass(call: nat)
    | Refuse(call: nat)
    | Admit(call: nat)
    | Leave(call: nat)
    | Fail(call: nat)
    | Free(call: nat)
    | Finish(call: nat)

  predicate SomeBlocker(g: Gate, name: string) {
    exists b <- BlockTasks(name) :: Invoked(g, b) > 0
  }

  /** What is checked under the mutex. */
  predicate Admissible(g: Gate, name: string)
    requires |g.waiting| == PRIORITIES
  {
    && g.running < MAX_THREADS
    && !(Priority(name) > 0 && MAX_THREADS - g.running <= RESERVED_THREADS)
    && !(HigherWaiting(g, Priority(name)) - PERMANENT_TASKS > 0)
  }

  function At(g: Gate, i: nat, phase: Phase): Gate
    requires i < |g.calls|
  {
    g.(calls := g.calls[i := g.calls[i].(phase := phase)])
  }

  /** The end of a round of the loop. */
  function RoundEnd(g: Gate, i: nat, busy: bool, timeout: nat): Gate
    requires i < |g.calls|
  {
    var c := g.calls[i];
    if Priority(c.name) <= TIMEOUT_THRESHOLD then At(g, i, Waiting(busy, timeout))
    else if timeout + 1 < TASK_TIMEOUT then At(g, i, Waiting(busy, timeout + 1))
    else At(g, i, TimedOut).(keys := g.keys - {c.thread})
  }

  function AddWaiting(g: Gate, name: string, d: int): Gate
    requires |g.waiting| == PRIORITIES
  {
    g.(waiting := g.waiting[Priority(name) := g.waiting[Priority(name)] + d])
  }

  function AddInvoked(g: Gate, name: string, d: int): Gate {
    g.(invoked := g.invoked[name := Invoked(g, name) + d])
  }

  /** A step whose call is not where the step starts changes nothing. */
  function Next(g: Gate, step: Step): (r: Gate)
    requires |g.waiting| == PRIORITIES
    ensures |r.waiting| == PRIORITIES
  {
    match step
    case Enter(t, name) => AddWaiting(g.(calls := g.calls + [Call(t, name, Queued)]), name, 1)
    case Announce(i) =>
      if i < |g.calls| && g.calls[i].phase.Queued? then AddInvoked(At(g, i, Waiting(false, 0)), g.calls[i].name, 1) else g
    case MeetBlocker(i) =>
      if i < |g.calls| && g.calls[i].phase.Waiting? && SomeBlocker(g, g.calls[i].name) then
        RoundEnd(g, i, true, g.calls[i].phase.timeout)
      else g
    case Pass(i) =>
      if i < |g.calls| && g.calls[i].phase.Waiting? && !SomeBlocker(g, g.calls[i].name) then
        At(g, i, Ready(g.calls[i].phase.busy, g.calls[i].phase.timeout))
      else g
    case Refuse(i) =>
      if i < |g.calls| && g.calls[i].phase.Ready? then
        RoundEnd(g, i, g.calls[i].phase.busy, g.calls[i].phase.timeout)
      else g
    case Admit(i) =>
      if i < |g.calls| && g.calls[i].phase.Ready? && Admissible(g, g.calls[i].name) then
        var t := g.calls[i].thread;
        At(g, i, Admitted(g.calls[i].phase.busy)).(keys := g.keys + {t}, running := if t in g.keys then g.running else g.running + 1)
      else g
    case Leave(i) =>
      if i < |g.calls| && (g.calls[i].phase.Admitted? || g.calls[i].phase.TimedOut?) then
        AddWaiting(At(g, i, if g.calls[i].phase == Admitted(false) then Inside else Failing), g.calls[i].name, -1)
      else g
    case Fail(i) =>
      if i < |g.calls| && g.calls[i].phase.Failing? then AddInvoked(At(g, i, Done(false)), g.calls[i].name, -1) else g
    case Free(i) =>
      if i < |g.calls| && g.calls[i].phase.Inside? then
        At(g, i, Freed).(keys := g.keys - {g.calls[i].thread}, running := g.running - 1)
      else g
    case Finish(i) =>
      if i < |g.calls| && g.calls[i].phase.Freed? then AddInvoked(At(g, i, Done(true)), g.calls[i].name, -1) else g
  }

  function Run(g: Gate, steps: seq<Step>): (r: Gate)
    requires |g.waiting| == PRIORITIES
    ensures |r.waiting| == PRIORITIES
    decreases |steps|
  {
    if steps == [] then g else Run(Next(g, steps[0]), steps[1..])
  }

  // ----- The counters -----

  predicate InQueue(p: Phase) {
    p.Queued? || p.Waiting? || p.Ready? || p.Admitted? || p.TimedOut?
  }

  /** From the announcement to the decrement behind a failure or a free. */
  predicate Announced(p: Phase) {
    !p.Queued? && !p.Done?
  }

  function QueuedWith(priority: nat): Call -> bool {
    (c: Call) => Priority(c.name) == priority && InQueue(c.phase)
  }

  function AnnouncedAs(name: string): Call -> bool {
    (c: Call) => c.name == name && Announced(c.phase)
  }

  function Count(calls: seq<Call>, p: Call -> bool): nat {
    if calls == [] then 0 else Count(calls[..|calls| - 1], p) + One(p(calls[|calls| - 1]))
  }

  function One(b: bool): nat {
    if b then 1 else 0
  }

  lemma {:induction false} CountUpdate(calls: seq<Call>, i: nat, c: Call, p: Call -> bool)
    requires i < |calls|
    ensures Count(calls[i := c], p) == Count(calls, p) - One(p(calls[i])) + One(p(c))
  {
    var n := |calls| - 1;
    if i < n {
      CountUpdate(calls[..n], i, c, p);
      assert calls[i := c][..n] == calls[..n][i := c];
    } else {
      assert calls[i := c][..n] == calls[..n];
    }
  }

  lemma CountAppend(calls: seq<Call>, c: Call, p: Call -> bool)
    ensures Count(calls + [c], p) == Count(calls, p) + One(p(c))
  {
    assert (calls + [c])[..|calls|] == calls;
  }

  /** Both counters count what their names say, at every moment. */
  ghost predicate Counted(g: Gate) {
    && |g.waiting| == PRIORITIES
    && (forall p: nat :: p < PRIORITIES ==> g.waiting[p] == Count(g.calls, QueuedWith(p)))
    && (forall n: string :: Invoked(g, n) == Count(g.calls, AnnouncedAs(n)))
  }

  lemma MoveKeeps(g: Gate, i: nat, phase: Phase, g': Gate)
    requires Counted(g) && i < |g.calls| && |g'.waiting| == PRIORITIES
    requires g'.calls == g.calls[i := g.calls[i].(phase := phase)]
    requires var c := g.calls[i];
             && (forall p: nat :: p < PRIORITIES ==>
                                    g'.waiting[p] == g.waiting[p] + if p == Priority(c.name) then One(InQueue(phase)) - One(InQueue(c.phase)) else 0)
             && (forall n: string ::
                   Invoked(g', n) == Invoked(g, n) + if n == c.name then One(Announced(phase)) - One(Announced(c.phase)) else 0)
    ensures Counted(g')
  {
    hide Priority, InQueue, Announced;
    var c, c' := g.calls[i], g.calls[i].(phase := phase);
    forall p: nat | p < PRIORITIES ensures g'.waiting[p] == Count(g'.calls, QueuedWith(p)) {
      CountUpdate(g.calls, i, c', QueuedWith(p));
    }
    forall n: string ensures Invoked(g', n) == Count(g'.calls, AnnouncedAs(n)) {
      CountUpdate(g.calls, i, c', AnnouncedAs(n));
    }
  }

  lemma EnterKeeps(g: Gate, t: nat, name: string)
    requires Counted(g)
    ensures Counted(Next(g, Enter(t, name)))
  {
    hide Priority;
    var g', c := Next(g, Enter(t, name)), Call(t, name, Queued);
    forall p: nat | p < PRIORITIES ensures g'.waiting[p] == Count(g'.calls, QueuedWith(p)) {
      CountAppend(g.calls, c, QueuedWith(p));
    }
    forall n: string ensures Invoked(g', n) == Count(g'.calls, AnnouncedAs(n)) {
      CountAppend(g.calls, c, AnnouncedAs(n));
    }
  }

  /** A move within the queue or within the announced part changes no counter. */
  lemma PlainMove(g: Gate, i: nat, phase: Phase, g': Gate)
    requires Counted(g) && i < |g.calls| && g'.waiting == g.waiting && g'.invoked == g.invoked
    requires g'.calls == g.calls[i := g.calls[i].(phase := phase)]
    requires InQueue(phase) == InQueue(g.calls[i].phase) && Announced(phase) == Announced(g.calls[i].phase)
    ensures Counted(g')
  {
    hide Priority, InQueue, Announced, Count;
    MoveKeeps(g, i, phase, g');
  }

  lemma InvokedMove(g: Gate, i: nat, phase: Phase, d: int)
    requires Counted(g) && i < |g.calls| && InQueue(phase) == InQueue(g.calls[i].phase)
    requires d == One(Announced(phase)) - One(Announced(g.calls[i].phase))
    ensures Counted(AddInvoked(At(g, i, phase), g.calls[i].name, d))
  {
    hide Priority, InQueue, Announced, Count;
    MoveKeeps(g, i, phase, AddInvoked(At(g, i, phase), g.calls[i].name, d));
  }

  lemma WaitingMove(g: Gate, i: nat, phase: Phase, d: int)
    requires Counted(g) && i < |g.calls| && Announced(phase) == Announced(g.calls[i].phase)
    requires d == One(InQueue(phase)) - One(InQueue(g.calls[i].phase))
    ensures Counted(AddWaiting(At(g, i, phase), g.calls[i].name, d))
  {
    hide Priority, InQueue, Announced, Count;
    MoveKeeps(g, i, phase, AddWaiting(At(g, i, phase), g.calls[i].name, d));
  }

  lemma RoundKeeps(g: Gate, i: nat, busy: bool, timeout: nat)
    requires Counted(g) && i < |g.calls| && (g.calls[i].phase.Waiting? || g.calls[i].phase.Ready?)
    ensures Counted(RoundEnd(g, i, busy, timeout))
  {
    hide Priority, Count, Counted;
    var g' := RoundEnd(g, i, busy, timeout);
    PlainMove(g, i, g'.calls[i].phase, g');
  }

  lemma CountersKept(g: Gate, step: Step)
    requires |g.waiting| == PRIORITIES && Counted(g)
    ensures Counted(Next(g, step))
  {
    hide Priority, Count, SomeBlocker, HigherWaiting, Counted, AddInvoked, AddWaiting, RoundEnd;
    var g' := Next(g, step);
    match step
    case Enter(t, name) => EnterKeeps(g, t, name);
    case Announce(i) => if i < |g.calls| && g.calls[i].phase.Queued? { InvokedMove(g, i, Waiting(false, 0), 1); }
    case MeetBlocker(i) => if i < |g.calls| && g.calls[i].phase.Waiting? { RoundKeeps(g, i, true, g.calls[i].phase.timeout); }
    case Refuse(i) => if i < |g.calls| && g.calls[i].phase.Ready? { RoundKeeps(g, i, g.calls[i].phase.busy, g.calls[i].phase.timeout); }
    case Leave(i) =>
      if i < |g.calls| && (g.calls[i].phase.Admitted? || g.calls[i].phase.TimedOut?) {
        WaitingMove(g, i, if g.calls[i].phase == Admitted(false) then Inside else Failing, -1);
      }
    case Fail(i) => if i < |g.calls| && g.calls[i].phase.Failing? { InvokedMove(g, i, Done(false), -1); }
    case Finish(i) => if i < |g.calls| && g.calls[i].phase.Freed? { InvokedMove(g, i, Done(true), -1); }
    case Pass(i) => if g' != g { PlainMove(g, i, g'.calls[i].phase, g'); }
    case Admit(i) => if g' != g { PlainMove(g, i, g'.calls[i].phase, g'); }
    case Free(i) => if g' != g { PlainMove(g, i, g'.calls[i].phase, g'); }
  }

  lemma {:induction false} CountersKeptInRuns(g: Gate, steps: seq<Step>)
    requires |g.waiting| == PRIORITIES && Counted(g)
    ensures Counted(Run(g, steps))
    decreases |steps|
  {
    hide Next, Counted;
    if steps != [] {
      CountersKept(g, steps[0]);
      CountersKeptInRuns(Next(g, steps[0]), steps[1..]);
    }
  }

  /** In every run, re-entrant ones too, the counters are exact. */
  lemma CountersAreExact(steps: seq<Step>)
    ensures Counted(Run(START, steps))
  {
    CountersKeptInRuns(START, steps);
  }

  /** get_upgrade_ecalls_num. */
  function UpgradeNumber(g: Gate, names: seq<string>): int {
    if names == [] then 0
    else UpgradeNumber(g, names[1..]) + if Invoked(g, names[0]) > 0 then Invoked(g, names[0]) else 0
  }

  lemma {:induction false} NumberZero(g: Gate, names: seq<string>)
    ensures UpgradeNumber(g, names) >= 0
    ensures UpgradeNumber(g, names) == 0 <==> forall n :: n in names ==> Invoked(g, n) <= 0
  {
    if names != [] {
      NumberZero(g, names[1..]);
      assert forall n :: n in names <==> n == names[0] || n in names[1..];
    }
  }

  lemma {:induction false} CountZero(calls: seq<Call>, p: Call -> bool)
    ensures Count(calls, p) == 0 <==> forall i :: 0 <= i < |calls| ==> !p(calls[i])
  {
    if calls != [] {
      CountZero(calls[..|calls| - 1], p);
    }
  }

  /** Every upgrade-blocking call has either not announced itself yet or returned. */
  predicate NoBlockerAnnounced(g: Gate) {
    forall i :: 0 <= i < |g.calls| && g.calls[i].name in UPGRADE_BLOCKERS ==> g.calls[i].phase.Queued? || g.calls[i].phase.Done?
  }

  /** The number is zero exactly when no upgrade-blocking call is between its announcement and its return: such a
      call is neither waiting nor inside, but one that is queued and not yet announced is not seen. */
  lemma UpgradeSeesAll(steps: seq<Step>, names: seq<string>)
    requires forall n :: n in names <==> n in UPGRADE_BLOCKERS
    ensures UpgradeNumber(Run(START, steps), names) == 0 <==> NoBlockerAnnounced(Run(START, steps))
  {
    hide Run, Count, UpgradeNumber;
    var g := Run(START, steps);
    CountersAreExact(steps);
    NumberZero(g, names);
    forall n: string ensures Invoked(g, n) <= 0 <==> forall i :: 0 <= i < |g.calls| ==> !AnnouncedAs(n)(g.calls[i]) {
      CountZero(g.calls, AnnouncedAs(n));
    }
    if NoBlockerAnnounced(g) {
      forall n | n in names ensures Invoked(g, n) <= 0 {
        forall i | 0 <= i < |g.calls| ensures !AnnouncedAs(n)(g.calls[i]) {
        }
      }
    }
    if forall n :: n in names ==> Invoked(g, n) <= 0 {
      forall i | 0 <= i < |g.calls| && g.calls[i].name in UPGRADE_BLOCKERS
        ensures g.calls[i].phase.Queued? || g.calls[i].phase.Done?
      {
        assert !AnnouncedAs(g.calls[i].name)(g.calls[i]);
      }
    }
  }

  // ----- The slots, when no thread calls from inside a call -----

  predicate Active(p: Phase) {
    !p.Done?
  }

  predicate ThreadIdle(g: Gate, t: nat) {
    forall i :: 0 <= i < |g.calls| && g.calls[i].thread == t ==> !Active(g.calls[i].phase)
  }

  /** Every thread enters only when its earlier calls have returned. */
  predicate NoReentry(g: Gate, steps: seq<Step>)
    requires |g.waiting| == PRIORITIES
    decreases |steps|
  {
    steps == [] || ((steps[0].Enter? ==> ThreadIdle(g, steps[0].thread)) && NoReentry(Next(g, steps[0]), steps[1..]))
  }

  predicate HoldsSlot(p: Phase) {
    p.Inside? || p.Admitted?
  }

  ghost predicate OneEach(calls: seq<Call>) {
    forall i, j :: 0 <= i < j < |calls| && Active(calls[i].phase) && Active(calls[j].phase) ==> calls[i].thread != calls[j].thread
  }

  ghost predicate SlotsHeld(g: Gate) {
    forall i :: 0 <= i < |g.calls| && HoldsSlot(g.calls[i].phase) ==> g.calls[i].thread in g.keys
  }

  ghost predicate Slots(g: Gate) {
    && |g.waiting| == PRIORITIES && OneEach(g.calls) && SlotsHeld(g)
    && |g.keys| <= g.running <= MAX_THREADS
  }

  lemma MoveKeepsOne(calls: seq<Call>, i: nat, phase: Phase)
    requires OneEach(calls) && i < |calls| && Active(calls[i].phase)
    ensures OneEach(calls[i := calls[i].(phase := phase)])
  {
  }

  /** When the key of the moved call's thread goes, no other call needed it. */
  lemma MoveKeepsHeld(g: Gate, i: nat, phase: Phase, g': Gate)
    requires OneEach(g.calls) && SlotsHeld(g) && i < |g.calls| && Active(g.calls[i].phase)
    requires g'.calls == g.calls[i := g.calls[i].(phase := phase)]
    requires g'.keys == g.keys || g'.keys == g.keys + {g.calls[i].thread} || g'.keys == g.keys - {g.calls[i].thread}
    requires HoldsSlot(phase) ==> g.calls[i].thread in g'.keys
    ensures SlotsHeld(g')
  {
    var t := g.calls[i].thread;
    forall j | 0 <= j < |g'.calls| && HoldsSlot(g'.calls[j].phase) ensures g'.calls[j].thread in g'.keys {
      if j != i {
        assert Active(g.calls[j].phase);
        assert g.calls[j].thread != t;
      }
    }
  }

  lemma SlotsKept(g: Gate, step: Step)
    requires Slots(g) && (step.Enter? ==> ThreadIdle(g, step.thread))
    ensures Slots(Next(g, step))
  {
    hide Priority, SomeBlocker, HigherWaiting, OneEach, SlotsHeld;
    var g' := Next(g, step);
    if step.Enter? {
      EnterKeepsSlots(g, step.thread, step.name);
    } else if g' != g {
      var i := step.call;
      MoveKeepsOne(g.calls, i, g'.calls[i].phase);
      assert HoldsSlot(g'.calls[i].phase) ==> g.calls[i].thread in g'.keys by { MovedIsHeld(g, step); }
      MoveKeepsHeld(g, i, g'.calls[i].phase, g');
      if step.Free? {
        assert g.calls[i].thread in g.keys by { HeldAt(g, i); }
      }
    }
  }

  lemma HeldAt(g: Gate, i: nat)
    requires SlotsHeld(g) && i < |g.calls| && HoldsSlot(g.calls[i].phase)
    ensures g.calls[i].thread in g.keys
  {
  }

  lemma MovedIsHeld(g: Gate, step: Step)
    requires SlotsHeld(g) && |g.waiting| == PRIORITIES && !step.Enter? && Next(g, step) != g
    ensures step.call < |g.calls| && step.call < |Next(g, step).calls|
    ensures HoldsSlot(Next(g, step).calls[step.call].phase) ==> g.calls[step.call].thread in Next(g, step).keys
  {
    hide Priority, SomeBlocker, HigherWaiting;
  }

  lemma EnterKeepsSlots(g: Gate, t: nat, name: string)
    requires Slots(g) && ThreadIdle(g, t)
    ensures Slots(Next(g, Enter(t, name)))
  {
    hide Priority;
  }

  lemma {:induction false} SlotsKeptInRuns(g: Gate, steps: seq<Step>)
    requires Slots(g) && NoReentry(g, steps)
    ensures Slots(Run(g, steps))
    decreases |steps|
  {
    hide Next, Slots, ThreadIdle;
    if steps != [] {
      SlotsOfFour(g);
      SlotsKept(g, steps[0]);
      SlotsKeptInRuns(Next(g, steps[0]), steps[1..]);
    }
  }

  lemma SlotsOfFour(g: Gate)
    requires Slots(g)
    ensures |g.waiting| == PRIORITIES
  {
  }
}
