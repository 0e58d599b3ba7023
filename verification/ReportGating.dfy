/** When a work report may be made (src/enclave/report/Report.cpp, src/enclave/workload/Workload.cpp,
    src/enclave/identity/Identity.cpp, src/app/process/WorkReport.cpp). Heights are 64-bit words that wrap around. */
module ReportGating {
  import opened Bytes

  const WORD := 0x1_0000_0000_0000_0000
  const ERA_LENGTH := 300
  const REPORT_INTERVAL := 10

  type Height = n: nat | n < WORD

  function Minus(a: int, b: int): (r: Height) {
    (a - b) % WORD
  }

  lemma MinusIs(a: Height, b: Height)
    ensures Minus(a, b) == if a >= b then a - b else a - b + WORD
  {
  }

  // ----- The gate in front of a report -----

  datatype Answer = Expired | AfterRestart | NotValidated | NoStorage | Generated

  predicate TooEarly(height: Height, stored: Height) {
    height == 0 || Minus(height, stored) < ERA_LENGTH
  }

  /** The height passes exactly when it is an era on, or behind by no more than the wrap-around allows. */
  lemma PassesWhen(height: Height, stored: Height)
    ensures !TooEarly(height, stored) <==>
            height > 0 && (height >= stored + ERA_LENGTH || (height < stored && stored - height <= WORD - ERA_LENGTH))
  {
    MinusIs(height, stored);
  }

  /** The report part of the Workload object. */
  datatype Flags = Flags(height: Height, restarted: bool, proofs: nat, storage: bool)

  function Gated(w: Flags, height: Height): (Answer, Flags) {
    if TooEarly(height, w.height) then (Expired, w)
    else
      var after := Flags(height, false, if w.proofs == 0 then 0 else w.proofs - 1, true);
      (if w.restarted then AfterRestart else if w.proofs == 0 then NotValidated else if !w.storage then NoStorage else Generated, after)
  }

  class ReportState {
    var reportHeight: Height
    var restartFlag: bool
    var validatedProof: nat
    var reportFileFlag: bool

    function State(): Flags
      reads this
    {
      Flags(reportHeight, restartFlag, validatedProof, reportFileFlag)
    }

    /** The entry and the exit of gen_work_report; what lies between them is the ledger's. */
    method TryGenerate(height: Height) returns (answer: Answer)
      modifies this
      ensures (answer, State()) == Gated(old(State()), height)
    {
      if height == 0 || Minus(height, reportHeight) < ERA_LENGTH {
        return Expired;
      }
      if restartFlag {
        answer := AfterRestart;
      } else if validatedProof == 0 {
        answer := NotValidated;
      } else if !reportFileFlag {
        answer := NoStorage;
      } else {
        answer := Generated;
      }
      reportHeight, restartFlag, reportFileFlag := height, false, true;
      ReduceValidatedProof();
    }

    method AddValidatedProof()
      modifies this`validatedProof
      ensures validatedProof == if old(validatedProof) >= 2 then 2 else old(validatedProof) + 1
    {
      if validatedProof >= 2 {
        validatedProof := 2;
      } else {
        validatedProof := validatedProof + 1;
      }
    }

    method ReduceValidatedProof()
      modifies this`validatedProof
      ensures validatedProof == if old(validatedProof) == 0 then 0 else old(validatedProof) - 1
    {
      if validatedProof > 0 {
        validatedProof := validatedProof - 1;
      }
    }
  }

  // ----- Runs -----

  datatype Step = HandIn(height: Height) | ValidationRound | Restart | SetStorage(there: bool)

  function Next(w: Flags, step: Step): Flags {
    match step
    case HandIn(h) => Gated(w, h).1
    case ValidationRound => w.(proofs := if w.proofs >= 2 then 2 else w.proofs + 1)
    case Restart => w.(restarted := true)
    case SetStorage(there) => w.(storage := there)
  }

  function Run(w: Flags, steps: seq<Step>): Flags
    decreases |steps|
  {
    if steps == [] then w else Run(Next(w, steps[0]), steps[1..])
  }

  predicate Succeeds(w: Flags, step: Step) {
    step.HandIn? && Gated(w, step.height).0 == Generated
  }

  /** The heights of the reports generated. */
  function Reported(w: Flags, steps: seq<Step>): seq<Height>
    decreases |steps|
  {
    if steps == [] then []
    else (if Succeeds(w, steps[0]) then [steps[0].height] else []) + Reported(Next(w, steps[0]), steps[1..])
  }

  function Rounds(steps: seq<Step>): nat {
    if steps == [] then 0 else (if steps[0].ValidationRound? then 1 else 0) + Rounds(steps[1..])
  }

  /** No height handed in is below the one stored. */
  predicate NeverBelow(w: Flags, steps: seq<Step>)
    decreases |steps|
  {
    steps == [] || ((steps[0].HandIn? ==> steps[0].height >= w.height) && NeverBelow(Next(w, steps[0]), steps[1..]))
  }

  ghost predicate RisingFrom(from: int, heights: seq<Height>) {
    && (forall i :: 0 <= i < |heights| ==> heights[i] >= from + ERA_LENGTH)
    && (forall i, j :: 0 <= i < j < |heights| ==> heights[j] >= heights[i] + ERA_LENGTH)
  }

  /** With heights never below the stored one, each report is an era or more after the one before. */
  lemma {:induction false} ReportsAreErasApart(w: Flags, steps: seq<Step>)
    requires NeverBelow(w, steps)
    ensures RisingFrom(w.height, Reported(w, steps))
    decreases |steps|
  {
    if steps != [] {
      var s, rest := steps[0], Reported(Next(w, steps[0]), steps[1..]);
      ReportsAreErasApart(Next(w, s), steps[1..]);
      if s.HandIn? {
        PassesWhen(s.height, w.height);
      }
    }
  }

  /** A height below the stored one is accepted, so there the rule fails. */
  lemma BelowStoredIsAccepted(w: Flags, height: Height)
    requires 0 < height < w.height && w.height - height <= WORD - ERA_LENGTH
    requires !w.restarted && w.proofs > 0 && w.storage
    ensures Succeeds(w, HandIn(height)) && Next(w, HandIn(height)).height < w.height
  {
    PassesWhen(height, w.height);
  }

  /** Every report uses up a validation round, and at most two are kept: in any window there are at most two more
      reports than rounds. */
  lemma {:induction false} ReportsNeedRounds(w: Flags, steps: seq<Step>)
    requires w.proofs <= 2
    ensures |Reported(w, steps)| <= w.proofs + Rounds(steps) <= 2 + Rounds(steps)
    ensures Run(w, steps).proofs <= 2
    decreases |steps|
  {
    if steps != [] {
      ReportsNeedRounds(Next(w, steps[0]), steps[1..]);
    }
  }

  predicate Passes(w: Flags, step: Step) {
    step.HandIn? && !TooEarly(step.height, w.height)
  }

  lemma {:induction false} NothingPasses(w: Flags, steps: seq<Step>, last: Step)
    requires w.restarted && (forall s <- steps :: !Passes(w, s)) && Passes(w, last)
    ensures var m := Run(w, steps); m.restarted && m.height == w.height
    ensures Reported(w, steps + [last]) == [] && Run(w, steps + [last]) == Next(Run(w, steps), last)
    decreases |steps|
  {
    if steps == [] {
      assert steps + [last] == [last] && [last][1..] == [];
    } else {
      assert steps[0] in steps && forall s <- steps[1..] :: s in steps;
      NothingPasses(Next(w, steps[0]), steps[1..], last);
      assert (steps + [last])[0] == steps[0] && (steps + [last])[1..] == steps[1..] + [last];
    }
  }

  /** Whatever happens between a restart and the first height that then passes, that height yields no report, nor does
      anything before it; the next one that passes may. */
  lemma FirstAfterRestart(w: Flags, steps: seq<Step>, height: Height)
    requires (forall s <- steps :: !Passes(w, s)) && !TooEarly(height, w.height)
    ensures var r := Next(w, Restart);
            && Gated(Run(r, steps), height).0 == AfterRestart
            && Reported(r, steps + [HandIn(height)]) == []
            && !Run(r, steps + [HandIn(height)]).restarted && Run(r, steps + [HandIn(height)]).height == height
  {
    NothingPasses(Next(w, Restart), steps, HandIn(height));
  }

  // ----- The report before an upgrade -----

  datatype UpgradeCheck = Unexpected | WaitForNextEra | Go(height: Height)

  /** The check and the loop of id_gen_upgrade_data. */
  method UpgradeHeight(blockHeight: Height, stored: Height) returns (r: UpgradeCheck)
    ensures r.Unexpected? <==> blockHeight <= stored
    ensures r.WaitForNextEra? <==> stored + REPORT_INTERVAL <= blockHeight < stored + REPORT_INTERVAL + ERA_LENGTH
    ensures r.Go? ==> r.height % ERA_LENGTH == stored % ERA_LENGTH && 0 < blockHeight - r.height <= ERA_LENGTH
  {
    if blockHeight <= stored {
      return Unexpected;
    }
    MinusIs(blockHeight, stored);
    TwoMinus(blockHeight, stored);
    if Minus(Minus(blockHeight, stored), REPORT_INTERVAL) < ERA_LENGTH {
      return WaitForNextEra;
    }
    var reportHeight: Height := stored;
    while Minus(blockHeight, reportHeight) > ERA_LENGTH
      invariant stored <= reportHeight < blockHeight && reportHeight % ERA_LENGTH == stored % ERA_LENGTH
      decreases blockHeight - reportHeight
    {
      MinusIs(blockHeight, reportHeight);
      reportHeight := reportHeight + ERA_LENGTH;
    }
    MinusIs(blockHeight, reportHeight);
    r := Go(reportHeight);
  }

  lemma TwoMinus(a: Height, b: Height)
    requires a >= b
    ensures Minus(Minus(a, b), REPORT_INTERVAL) == if a - b >= REPORT_INTERVAL then a - b - REPORT_INTERVAL else a - b - REPORT_INTERVAL + WORD
  {
  }

  /** There is only one such height. */
  lemma UpgradeHeightUnique(blockHeight: Height, a: Height, b: Height)
    requires a % ERA_LENGTH == b % ERA_LENGTH
    requires 0 < blockHeight - a <= ERA_LENGTH && 0 < blockHeight - b <= ERA_LENGTH
    ensures a == b
  {
  }

  /** In the nine blocks in which the check wraps around and lets through, the height is the stored one and the
      gate refuses it; from stored + 310 on the gate lets the height through. */
  lemma UpgradeIsGated(blockHeight: Height, stored: Height, height: Height)
    requires blockHeight > stored && height >= stored
    requires height % ERA_LENGTH == stored % ERA_LENGTH && 0 < blockHeight - height <= ERA_LENGTH
    ensures blockHeight < stored + REPORT_INTERVAL ==> height == stored && TooEarly(height, stored)
    ensures blockHeight >= stored + REPORT_INTERVAL + ERA_LENGTH ==> !TooEarly(height, stored)
  {
    MinusIs(height, stored);
    if blockHeight < stored + REPORT_INTERVAL {
      UpgradeHeightUnique(blockHeight, height, stored);
    } else if height < stored + ERA_LENGTH {
      assert height == stored;
    }
  }

  /** The height test of try_report_work has no lower guard: it passes below the stored height too, but for the heights
      that are behind by nearly all of a word. */
  lemma TryPassesWhen(blockHeight: Height, stored: Height)
    ensures !(blockHeight == 0 || Minus(Minus(blockHeight, stored), REPORT_INTERVAL) < ERA_LENGTH) <==>
            && blockHeight > 0
            && (|| blockHeight >= stored + REPORT_INTERVAL + ERA_LENGTH
                || (blockHeight < stored + REPORT_INTERVAL
                    && !(WORD - REPORT_INTERVAL - ERA_LENGTH < stored - blockHeight <= WORD - REPORT_INTERVAL)))
  {
    var d := Minus(blockHeight, stored);
    MinusIs(blockHeight, stored);
    assert Minus(d, REPORT_INTERVAL) == if d >= REPORT_INTERVAL then d - REPORT_INTERVAL else d - REPORT_INTERVAL + WORD by {
      MinusIs(d, REPORT_INTERVAL);
    }
  }

  // ----- The loop of the application -----

  const HEIGHT_BASE := 300

  /** How often a pause for an upgrade skips the turn: for ten blocks, at half a block a turn. */
  const STOP_TRYOUT := 20

  datatype Status = Exit | StopReports | Other

  /** One turn: the upgrade status, the height of the chain, if it answers, and whether the block hash could be had. */
  datatype Turn = Turn(status: Status, number: Option<nat>, hashFound: bool)

  /** The heights handed in, with the given target, or next height when the chain is offline, and the number of turns
      a pause may still skip. */
  function HandedIn(offline: bool, target: nat, tryout: nat, turns: seq<Turn>): seq<nat>
    decreases |turns|
  {
    if turns == [] || turns[0].status == Exit then []
    else
      var t, rest := turns[0], turns[1..];
      var left := if t.status != StopReports then tryout else if tryout > 0 then tryout - 1 else STOP_TRYOUT;
      if t.status == StopReports && tryout > 0 then HandedIn(offline, target, left, rest)
      else if offline then [target] + HandedIn(offline, target + HEIGHT_BASE, left, rest)
      else if t.number.None? || t.number.value < target || !t.hashFound then HandedIn(offline, target, left, rest)
      else
        var height := t.number.value / HEIGHT_BASE * HEIGHT_BASE;
        [height] + HandedIn(offline, height + HEIGHT_BASE, left, rest)
  }

  function FirstTarget(offline: bool, number: Option<nat>): nat {
    if offline || number.None? then HEIGHT_BASE else (number.value / HEIGHT_BASE + 1) * HEIGHT_BASE
  }

  /** What one turn hands in, and with what the loop goes on. */
  lemma HandedInTurn(offline: bool, target: nat, tryout: nat, turns: seq<Turn>)
    ensures turns == [] || turns[0].status == Exit ==> HandedIn(offline, target, tryout, turns) == []
    ensures turns != [] && turns[0].status != Exit ==>
              var t, rest := turns[0], turns[1..];
              var left := if t.status != StopReports then tryout else if tryout > 0 then tryout - 1 else STOP_TRYOUT;
              var height := if t.number.Some? then t.number.value / HEIGHT_BASE * HEIGHT_BASE else 0;
              HandedIn(offline, target, tryout, turns)
              == if t.status == StopReports && tryout > 0 then HandedIn(offline, target, left, rest)
              else if offline then [target] + HandedIn(offline, target + HEIGHT_BASE, left, rest)
              else if t.number.None? || t.number.value < target || !t.hashFound then HandedIn(offline, target, left, rest)
              else [height] + HandedIn(offline, height + HEIGHT_BASE, left, rest)
  {
  }

  method WorkReportLoop(offline: bool, first: Option<nat>, turns: seq<Turn>) returns (heights: seq<nat>)
    ensures heights == HandedIn(offline, FirstTarget(offline, first), STOP_TRYOUT, turns)
  {
    hide HandedIn;
    var offlineHeight: nat, target: nat := HEIGHT_BASE, HEIGHT_BASE;
    var stopTryout := STOP_TRYOUT;
    if !offline && first.Some? {
      target := (first.value / HEIGHT_BASE + 1) * HEIGHT_BASE;
    }
    heights := [];
    var i: nat := 0;
    while i < |turns| && turns[i].status != Exit
      invariant i <= |turns| && 0 <= stopTryout
      invariant HandedIn(offline, FirstTarget(offline, first), STOP_TRYOUT, turns)
             == heights + HandedIn(offline, if offline then offlineHeight else target, stopTryout, turns[i..])
    {
      assert turns[i..][0] == turns[i] && turns[i..][1..] == turns[i + 1..];
      HandedInTurn(offline, if offline then offlineHeight else target, stopTryout, turns[i..]);
      var t := turns[i];
      i := i + 1;
      if t.status == StopReports {
        stopTryout := stopTryout - 1;
        if stopTryout < 0 {
          stopTryout := STOP_TRYOUT;
        } else {
          continue;
        }
      }
      if offline {
        heights := heights + [offlineHeight];
        offlineHeight := offlineHeight + HEIGHT_BASE;
      } else if t.number.Some? && t.number.value >= target && t.hashFound {
        var number := t.number.value / HEIGHT_BASE * HEIGHT_BASE;
        heights := heights + [number];
        target := number + HEIGHT_BASE;
      }
    }
    HandedInTurn(offline, if offline then offlineHeight else target, stopTryout, turns[i..]);
  }

  /** Strictly increasing multiples of the base, none below the target. */
  ghost predicate Climbing(target: nat, heights: seq<nat>) {
    && (forall i :: 0 <= i < |heights| ==> heights[i] % HEIGHT_BASE == 0 && heights[i] >= target)
    && (forall i, j :: 0 <= i < j < |heights| ==> heights[j] >= heights[i] + HEIGHT_BASE)
  }

  lemma {:induction false} LoopClimbs(offline: bool, target: nat, tryout: nat, turns: seq<Turn>)
    requires target % HEIGHT_BASE == 0
    ensures Climbing(target, HandedIn(offline, target, tryout, turns))
    decreases |turns|
  {
    if turns != [] && turns[0].status != Exit {
      var t, rest := turns[0], turns[1..];
      var left := if t.status != StopReports then tryout else if tryout > 0 then tryout - 1 else STOP_TRYOUT;
      if t.status == StopReports && tryout > 0 {
        LoopClimbs(offline, target, left, rest);
      } else if offline {
        LoopClimbs(offline, target + HEIGHT_BASE, left, rest);
      } else if t.number.None? || t.number.value < target || !t.hashFound {
        LoopClimbs(offline, target, left, rest);
      } else {
        LoopClimbs(offline, t.number.value / HEIGHT_BASE * HEIGHT_BASE + HEIGHT_BASE, left, rest);
        BaseBelow(t.number.value, target);
      }
    }
  }

  lemma BaseBelow(n: nat, target: nat)
    requires target % HEIGHT_BASE == 0 && n >= target
    ensures target <= n / HEIGHT_BASE * HEIGHT_BASE <= n && (n / HEIGHT_BASE * HEIGHT_BASE) % HEIGHT_BASE == 0
  {
  }

  /** With the chain or without, the loop hands in strictly increasing multiples of 300, so each of them passes the
      height test once the one before it is stored. */
  lemma LoopPassesGate(offline: bool, first: Option<nat>, turns: seq<Turn>, i: nat)
    requires var hs := HandedIn(offline, FirstTarget(offline, first), STOP_TRYOUT, turns); i + 1 < |hs| && hs[i] < WORD && hs[i + 1] < WORD
    ensures var hs := HandedIn(offline, FirstTarget(offline, first), STOP_TRYOUT, turns); !TooEarly(hs[i + 1], hs[i])
  {
    var target := FirstTarget(offline, first);
    assert target % HEIGHT_BASE == 0;
    LoopClimbs(offline, target, STOP_TRYOUT, turns);
    var hs := HandedIn(offline, target, STOP_TRYOUT, turns);
    assert hs[i + 1] >= hs[i] + HEIGHT_BASE;
    PassesWhen(hs[i + 1], hs[i]);
  }

  /** The pause for an upgrade does not last: one turn in 21 goes through all the same. */
  lemma {:induction false} PauseLetsThrough(offline: bool, target: nat, tryout: nat, turns: seq<Turn>)
    requires tryout <= STOP_TRYOUT && forall t <- turns :: t.status == StopReports
    ensures var most := (|turns| + STOP_TRYOUT - tryout) / (STOP_TRYOUT + 1);
            |HandedIn(offline, target, tryout, turns)| <= most && (offline ==> |HandedIn(offline, target, tryout, turns)| == most)
    decreases |turns|
  {
    if turns != [] {
      var t, rest := turns[0], turns[1..];
      assert t in turns && forall u <- rest :: u in turns;
      if tryout > 0 {
        PauseLetsThrough(offline, target, tryout - 1, rest);
      } else if offline {
        PauseLetsThrough(offline, target + HEIGHT_BASE, STOP_TRYOUT, rest);
      } else if t.number.None? || t.number.value < target || !t.hashFound {
        PauseLetsThrough(offline, target, STOP_TRYOUT, rest);
      } else {
        PauseLetsThrough(offline, t.number.value / HEIGHT_BASE * HEIGHT_BASE + HEIGHT_BASE, STOP_TRYOUT, rest);
      }
    }
  }

  // ----- Without storage -----

  /** While the files are gone no report is made: not before some height passes or the files are there again. The
      first height that passes yields none either, and from then on the files count as there. */
  lemma {:induction false} NothingWithoutStorage(w: Flags, steps: seq<Step>, height: Height)
    requires !w.storage && !TooEarly(height, w.height)
    requires forall s <- steps :: !Passes(w, s) && s != SetStorage(true)
    ensures var m := Run(w, steps);
            && !m.storage && m.height == w.height && Reported(w, steps) == []
            && Gated(m, height).0 == (if m.restarted then AfterRestart else if m.proofs == 0 then NotValidated else NoStorage)
            && Next(m, HandIn(height)).storage
    decreases |steps|
  {
    if steps != [] {
      assert steps[0] in steps && forall s <- steps[1..] :: s in steps;
      NothingWithoutStorage(Next(w, steps[0]), steps[1..], height);
    }
  }

  // ----- Which heights the loop hands in -----

  function Stops(turns: seq<Turn>): nat {
    if turns == [] then 0 else Stops(turns[..|turns| - 1]) + if turns[|turns| - 1].status == StopReports then 1 else 0
  }

  /** The loop gets past the pause in turn k: no exit so far, and of the turns with a pause the first one only after
      the given number, then every 21st. */
  predicate GoesThrough(tryout: nat, turns: seq<Turn>, k: nat)
    requires k < |turns|
  {
    && (forall j :: 0 <= j <= k ==> turns[j].status != Exit)
    && (turns[k].status == StopReports ==> Stops(turns[..k]) % 21 == tryout)
  }

  /** In turn k the chain tells of the given era, with its hash. */
  predicate Tells(turns: seq<Turn>, k: nat, height: nat)
    requires k < |turns|
  {
    turns[k].number.Some? && turns[k].hashFound && height % 300 == 0 && height <= turns[k].number.value < height + 300
  }

  predicate Offered(tryout: nat, turns: seq<Turn>, k: nat, height: nat) {
    k < |turns| && GoesThrough(tryout, turns, k) && Tells(turns, k, height)
  }

  /** Some turn offers the height, and no turn before it a later one. */
  ghost predicate Due(tryout: nat, turns: seq<Turn>, height: nat) {
    exists k: nat :: Offered(tryout, turns, k, height)
                     && forall j: nat, h: nat :: j < k && Offered(tryout, turns, j, h) ==> h <= height
  }

  lemma {:induction false} StopsBehind(t: Turn, turns: seq<Turn>)
    ensures Stops([t] + turns) == Stops(turns) + if t.status == StopReports then 1 else 0
  {
    var all := [t] + turns;
    if turns == [] {
      assert all[..0] == [] && all == [t];
    } else {
      StopsBehind(t, turns[..|turns| - 1]);
      assert all[..|all| - 1] == [t] + turns[..|turns| - 1];
    }
  }

  /** What is left of the pause after a turn. */
  function Left(tryout: nat, t: Turn): nat {
    if t.status != StopReports then tryout else if tryout > 0 then tryout - 1 else STOP_TRYOUT
  }

  lemma ThroughBehind(tryout: nat, turns: seq<Turn>, k: nat)
    requires k + 1 < |turns| && tryout <= STOP_TRYOUT && turns[0].status != Exit
    ensures GoesThrough(tryout, turns, k + 1) <==> GoesThrough(Left(tryout, turns[0]), turns[1..], k)
  {
    var rest := turns[1..];
    assert turns[..k + 1] == [turns[0]] + rest[..k];
    StopsBehind(turns[0], rest[..k]);
    hide Stops;
    if GoesThrough(Left(tryout, turns[0]), rest, k) {
      forall j | 0 <= j <= k + 1 ensures turns[j].status != Exit {
        if j > 0 {
          assert rest[j - 1] == turns[j];
        }
      }
    }
  }

  lemma OfferedBehind(tryout: nat, turns: seq<Turn>, k: nat, height: nat)
    requires turns != [] && tryout <= STOP_TRYOUT && turns[0].status != Exit
    ensures Offered(tryout, turns, k + 1, height) <==> Offered(Left(tryout, turns[0]), turns[1..], k, height)
  {
    hide GoesThrough, Left;
    if k + 1 < |turns| {
      ThroughBehind(tryout, turns, k);
    }
  }

  lemma DueBehind(tryout: nat, turns: seq<Turn>, height: nat)
    requires turns != [] && tryout <= STOP_TRYOUT && turns[0].status != Exit
    ensures Due(tryout, turns, height) <==>
            || Offered(tryout, turns, 0, height)
            || (Due(Left(tryout, turns[0]), turns[1..], height) && forall h: nat :: Offered(tryout, turns, 0, h) ==> h <= height)
  {
    hide Offered, Left;
    var left, rest := Left(tryout, turns[0]), turns[1..];
    forall k: nat, h: nat ensures Offered(tryout, turns, k + 1, h) <==> Offered(left, rest, k, h) {
      OfferedBehind(tryout, turns, k, h);
    }
    if Due(tryout, turns, height) && !Offered(tryout, turns, 0, height) {
      var k: nat :| Offered(tryout, turns, k, height) && forall j: nat, h: nat :: j < k && Offered(tryout, turns, j, h) ==> h <= height;
      assert Offered(left, rest, k - 1, height);
      forall j: nat, h: nat | j < k - 1 && Offered(left, rest, j, h) ensures h <= height {
        assert Offered(tryout, turns, j + 1, h);
      }
    }
    if Due(left, rest, height) && forall h: nat :: Offered(tryout, turns, 0, h) ==> h <= height {
      var k: nat :| Offered(left, rest, k, height) && forall j: nat, h: nat :: j < k && Offered(left, rest, j, h) ==> h <= height;
      assert Offered(tryout, turns, k + 1, height);
      forall j: nat, h: nat | j < k + 1 && Offered(tryout, turns, j, h) ensures h <= height {
        if j > 0 {
          assert Offered(left, rest, j - 1, h);
        }
      }
    }
  }

  lemma NothingDue(tryout: nat, turns: seq<Turn>, height: nat)
    requires turns == [] || turns[0].status == Exit
    ensures !Due(tryout, turns, height)
  {
  }

  lemma OfferedFirst(tryout: nat, turns: seq<Turn>, height: nat)
    requires turns != [] && turns[0].status != Exit
    ensures Offered(tryout, turns, 0, height) <==>
            && (turns[0].status == StopReports ==> tryout == 0)
            && turns[0].number.Some? && turns[0].hashFound && height == turns[0].number.value / HEIGHT_BASE * HEIGHT_BASE
  {
    assert turns[..0] == [];
  }

  /** With the chain the loop hands in exactly the eras from the target on that some turn offers before any later era
      is offered. */
  lemma {:induction false} HandsInWhatIsDue(target: nat, tryout: nat, turns: seq<Turn>, height: nat)
    requires target % HEIGHT_BASE == 0 && tryout <= STOP_TRYOUT
    ensures height in HandedIn(false, target, tryout, turns) <==> height >= target && Due(tryout, turns, height)
    decreases |turns|
  {
    hide Offered, Due;
    if turns == [] || turns[0].status == Exit {
      NothingDue(tryout, turns, height);
    } else {
      var t, rest, left := turns[0], turns[1..], Left(tryout, turns[0]);
      DueBehind(tryout, turns, height);
      forall h: nat ensures Offered(tryout, turns, 0, h) <==>
                            && (t.status == StopReports ==> tryout == 0)
                            && t.number.Some? && t.hashFound && h == t.number.value / HEIGHT_BASE * HEIGHT_BASE
      {
        OfferedFirst(tryout, turns, h);
      }
      HandsInWhatIsDue(target, left, rest, height);
      if t.number.Some? && t.number.value >= target {
        var now := t.number.value / HEIGHT_BASE * HEIGHT_BASE;
        BaseBelow(t.number.value, target);
        HandsInWhatIsDue(now + HEIGHT_BASE, left, rest, height);
        DueIsEra(left, rest, height);
        LaterEra(height, now);
        if t.hashFound && !(t.status == StopReports && tryout > 0) {
          assert Offered(tryout, turns, 0, now);
          assert HandedIn(false, target, tryout, turns) == [now] + HandedIn(false, now + HEIGHT_BASE, left, rest);
        }
      }
    }
  }

  lemma LaterEra(height: nat, now: nat)
    requires now % HEIGHT_BASE == 0
    ensures height % HEIGHT_BASE == 0 && height > now ==> height >= now + HEIGHT_BASE
  {
  }

  lemma DueIsEra(tryout: nat, turns: seq<Turn>, height: nat)
    ensures Due(tryout, turns, height) ==> height % HEIGHT_BASE == 0
  {
    hide GoesThrough;
  }

  /** Without the chain every turn that goes through hands in the next multiple of the base. */
  lemma {:induction false} HandsInOffline(target: nat, tryout: nat, turns: seq<Turn>) returns (at: seq<nat>)
    requires tryout <= STOP_TRYOUT
    ensures var hs := HandedIn(true, target, tryout, turns);
            |hs| == |at| && forall i :: 0 <= i < |hs| ==> hs[i] == target + HEIGHT_BASE * i
    ensures forall i, j :: 0 <= i < j < |at| ==> at[i] < at[j]
    ensures forall k: nat :: k in at <==> k < |turns| && GoesThrough(tryout, turns, k)
    decreases |turns|
  {
    hide GoesThrough;
    if turns == [] || turns[0].status == Exit {
      at := [];
      NoneThrough(tryout, turns);
    } else {
      var t, rest, left := turns[0], turns[1..], Left(tryout, turns[0]);
      var through := !(t.status == StopReports && tryout > 0);
      var later := HandsInOffline(if through then target + HEIGHT_BASE else target, left, rest);
      var moved := seq(|later|, i requires 0 <= i < |later| => later[i] + 1);
      at := if through then [0] + moved else moved;
      FirstThrough(tryout, turns);
      forall k: nat ensures k in at <==> k < |turns| && GoesThrough(tryout, turns, k) {
        Moved(later, moved, k);
        if 0 < k < |turns| {
          ThroughBehind(tryout, turns, k - 1);
        }
      }
    }
  }

  lemma Moved(later: seq<nat>, moved: seq<nat>, k: nat)
    requires |moved| == |later| && forall i :: 0 <= i < |later| ==> moved[i] == later[i] + 1
    ensures k in moved <==> k > 0 && k - 1 in later
  {
    if k > 0 && k - 1 in later {
      var i :| 0 <= i < |later| && later[i] == k - 1;
      assert moved[i] == k;
    }
  }

  lemma NoneThrough(tryout: nat, turns: seq<Turn>)
    requires turns == [] || turns[0].status == Exit
    ensures forall k: nat :: k < |turns| ==> !GoesThrough(tryout, turns, k)
  {
  }

  lemma FirstThrough(tryout: nat, turns: seq<Turn>)
    requires turns != [] && turns[0].status != Exit && tryout <= STOP_TRYOUT
    ensures GoesThrough(tryout, turns, 0) <==> !(turns[0].status == StopReports && tryout > 0)
  {
    assert turns[..0] == [];
  }

  /** A round of validation is what a report waits for: with files there and no restart, the first height an era on
      that follows yields one, and the next needs another round when the first round was the only one. */
  lemma RoundOpensTheGate(w: Flags, height: Height, later: Height)
    requires !w.restarted && w.storage && w.proofs == 0
    requires height >= w.height + ERA_LENGTH && later >= height + ERA_LENGTH
    ensures Gated(w, height).0 == NotValidated
    ensures Reported(w, [ValidationRound, HandIn(height), HandIn(later)]) == [height]
    ensures Reported(w, [ValidationRound, HandIn(height), ValidationRound, HandIn(later)]) == [height, later]
  {
    PassesWhen(height, w.height);
    PassesWhen(later, height);
    var a, b, c := ValidationRound, HandIn(height), HandIn(later);
    assert [a, b, c][1..] == [b, c] && [b, c][1..] == [c] && [c][1..] == [];
    assert [a, b, a, c][1..] == [b, a, c] && [b, a, c][1..] == [a, c] && [a, c][1..] == [c];
    hide TooEarly;
    var v, x := Next(w, a), Next(Next(w, a), b);
    assert Gated(Next(x, a), later).0 == Generated;
    assert Reported(Next(Next(x, a), c), []) == [];
    assert Reported(x, [c]) == [] && Reported(Next(x, a), [c]) == [later] + [];
    assert Reported(x, [a, c]) == [later];
    assert Reported(v, [b, c]) == [height] + Reported(x, [c]) && Reported(v, [b, a, c]) == [height] + Reported(x, [a, c]);
  }

  /** The loop starts with the era behind the one it finds: of the heights that become due it hands in exactly those above
      the height of the chain at its start, or all from the first era on if the chain does not answer. */
  lemma LoopHandsIn(first: Option<nat>, turns: seq<Turn>, height: nat)
    ensures height in HandedIn(false, FirstTarget(false, first), STOP_TRYOUT, turns) <==>
            Due(20, turns, height) && if first.Some? then height > first.value else height > 0
  {
    hide Due;
    var target := FirstTarget(false, first);
    HandsInWhatIsDue(target, STOP_TRYOUT, turns, height);
    DueIsEra(20, turns, height);
    if first.Some? {
      BaseBelow(first.value, 0);
      LaterEra(height, first.value / HEIGHT_BASE * HEIGHT_BASE);
    }
  }
}
