/** The recorded space beside the real lists (src/enclave/srd/Srd.cpp, src/enclave/workload/Workload.cpp). */
module SrdAccounting {
  import opened Bytes
  import opened SrdAllocation
  import opened Text
  import opened SrdDecrease

  /** One path: its hashes, its recorded space, and what was pushed or removed but is not yet recorded. */
  datatype Account = Account(hashes: nat, recorded: nat, pushed: nat, removed: nat)

  const NOTHING := Account(0, 0, 0, 0)

  /** The halves of the operations: the list changes under one lock, the record under another. */
  datatype Op =
    | Push
    | RecordPush
    | Remove(units: nat)
    | RecordRemove(units: nat)
    | RecordFailed

  /** set_srd_info lets no record fall below zero; after a failed file delete nothing is recorded. */
  function Apply(a: Account, op: Op): Account {
    match op
    case Push => a.(hashes := a.hashes + 1, pushed := a.pushed + 1)
    case RecordPush => if a.pushed == 0 then a else a.(recorded := a.recorded + 1, pushed := a.pushed - 1)
    case Remove(k) => if k > a.hashes then a else a.(hashes := a.hashes - k, removed := a.removed + k)
    case RecordRemove(k) =>
      if k > a.removed then a
      else a.(recorded := if k > a.recorded then 0 else a.recorded - k, removed := a.removed - k)
    case RecordFailed => if a.removed == 0 then a else a.(removed := a.removed - 1)
  }

  /** By how much a step leaves the record too high. */
  function Drift(a: Account, op: Op): nat {
    match op
    case RecordRemove(k) => if k > a.removed || k <= a.recorded then 0 else k - a.recorded
    case RecordFailed => if a.removed == 0 then 0 else 1
    case _ => 0
  }

  /** All paths; one that is not there has nothing. */
  type Books = map<string, Account>

  function Of(b: Books, path: string): Account {
    if path in b then b[path] else NOTHING
  }

  datatype Step = Step(path: string, op: Op)

  function Run(b: Books, steps: seq<Step>): Books
    decreases |steps|
  {
    if steps == [] then b
    else Run(b[steps[0].path := Apply(Of(b, steps[0].path), steps[0].op)], steps[1..])
  }

  function TotalDrift(b: Books, steps: seq<Step>, path: string): nat
    decreases |steps|
  {
    if steps == [] then 0
    else
      var s := steps[0];
      (if s.path == path then Drift(Of(b, path), s.op) else 0)
      + TotalDrift(b[s.path := Apply(Of(b, s.path), s.op)], steps[1..], path)
  }

  /** How far the record, corrected by what is under way, lies above the list. */
  function Excess(a: Account): int {
    a.recorded + a.pushed - a.removed - a.hashes
  }

  /** In every interleaving the excess of a path grows by exactly its drift. */
  lemma {:induction false} ExcessIsDrift(b: Books, steps: seq<Step>, path: string)
    ensures Excess(Of(Run(b, steps), path)) == Excess(Of(b, path)) + TotalDrift(b, steps, path)
    decreases |steps|
  {
    hide Apply, Drift, Excess;
    if steps != [] {
      var s := steps[0];
      ExcessOfStep(Of(b, s.path), s.op);
      ExcessIsDrift(b[s.path := Apply(Of(b, s.path), s.op)], steps[1..], path);
    }
  }

  lemma ExcessOfStep(a: Account, op: Op)
    ensures Excess(Apply(a, op)) == Excess(a) + Drift(a, op)
  {
  }

  /** So from an empty start the record never falls short of the list. */
  lemma RecordCovers(steps: seq<Step>, path: string)
    ensures var a := Of(Run(map[], steps), path); a.recorded + a.pushed - a.removed >= a.hashes
  {
    ExcessIsDrift(map[], steps, path);
  }

  /** In any run from an empty start a record is cut off at zero only while increases are not yet recorded, and with
      the hashes still listed by no more than those. */
  lemma CutOffNeedsOverlap(steps: seq<Step>, path: string, units: nat)
    ensures var a := Of(Run(map[], steps), path);
            Drift(a, RecordRemove(units)) > 0 ==> Drift(a, RecordRemove(units)) + a.hashes <= a.pushed
  {
    RecordCovers(steps, path);
  }

  /** Whole operations, one after the other. */
  datatype Operation = Grow(path: string) | Shrink(path: string, units: nat) | Trim(path: string, deletes: seq<bool>)

  function StepsOf(o: Operation): seq<Step> {
    match o
    case Grow(p) => [Step(p, Push), Step(p, RecordPush)]
    case Shrink(p, k) => [Step(p, Remove(k)), Step(p, RecordRemove(k))]
    case Trim(p, deletes) => TrimSteps(p, deletes)
  }

  function TrimSteps(p: string, deletes: seq<bool>): seq<Step> {
    if deletes == [] then []
    else [Step(p, Remove(1)), Step(p, if deletes[0] then RecordRemove(1) else RecordFailed)] + TrimSteps(p, deletes[1..])
  }

  function AllSteps(os: seq<Operation>): seq<Step> {
    if os == [] then [] else StepsOf(os[0]) + AllSteps(os[1..])
  }

  predicate DeletesSucceed(os: seq<Operation>) {
    forall i :: 0 <= i < |os| && os[i].Trim? ==> forall k :: 0 <= k < |os[i].deletes| ==> os[i].deletes[k]
  }

  /** Nothing under way and the record exact, for every path. */
  ghost predicate Exact(b: Books) {
    forall p <- b :: Settled(b[p])
  }

  predicate Settled(a: Account) {
    a.pushed == 0 && a.removed == 0 && a.recorded == a.hashes
  }

  lemma {:induction false} RunConcat(b: Books, s: seq<Step>, t: seq<Step>)
    ensures Run(b, s + t) == Run(Run(b, s), t)
    decreases |s|
  {
    if s == [] {
      assert s + t == t;
    } else {
      RunConcat(b[s[0].path := Apply(Of(b, s[0].path), s[0].op)], s[1..], t);
      assert (s + t)[1..] == s[1..] + t;
    }
  }

  lemma RunTwo(b: Books, p: string, x: Op, y: Op)
    ensures Run(b, [Step(p, x), Step(p, y)]) == b[p := Apply(Apply(Of(b, p), x), y)]
  {
    var s, t := Step(p, x), Step(p, y);
    assert [s, t][1..] == [t] && [t][1..] == [];
    var c := b[p := Apply(Of(b, p), x)];
    assert Run(b, [s, t]) == Run(c, [t]) == Run(c[p := Apply(Of(c, p), y)], []);
  }

  /** Removing more than there is leaves everything alone. */
  lemma PairSettles(a: Account, k: nat)
    requires Settled(a)
    ensures Settled(Apply(Apply(a, Push), RecordPush)) && Settled(Apply(Apply(a, Remove(k)), RecordRemove(k)))
  {
  }

  lemma PairKeeps(b: Books, p: string, k: nat)
    requires Exact(b)
    ensures Exact(b[p := Apply(Apply(Of(b, p), Push), RecordPush)])
    ensures Exact(b[p := Apply(Apply(Of(b, p), Remove(k)), RecordRemove(k))])
  {
    hide Apply;
    PairSettles(Of(b, p), k);
  }

  lemma {:induction false} TrimKeeps(b: Books, p: string, deletes: seq<bool>)
    requires Exact(b) && forall k :: 0 <= k < |deletes| ==> deletes[k]
    ensures Exact(Run(b, TrimSteps(p, deletes)))
    decreases |deletes|
  {
    hide Apply;
    if deletes != [] {
      var two := [Step(p, Remove(1)), Step(p, RecordRemove(1))];
      RunConcat(b, two, TrimSteps(p, deletes[1..]));
      RunTwo(b, p, Remove(1), RecordRemove(1));
      PairKeeps(b, p, 1);
      TrimKeeps(b[p := Apply(Apply(Of(b, p), Remove(1)), RecordRemove(1))], p, deletes[1..]);
    }
  }

  /** In sequential runs in which every file delete succeeds the record is exact. */
  lemma {:induction false} SequentialIsExact(b: Books, os: seq<Operation>)
    requires Exact(b) && DeletesSucceed(os)
    ensures Exact(Run(b, AllSteps(os)))
    decreases |os|
  {
    hide Apply, Exact, Run;
    if os == [] {
      assert Run(b, []) == b by { NoSteps(b); }
    } else {
      var o := os[0];
      match o {
        case Grow(p) => RunTwo(b, p, Push, RecordPush); PairKeeps(b, p, 0);
        case Shrink(p, k) => RunTwo(b, p, Remove(k), RecordRemove(k)); PairKeeps(b, p, k);
        case Trim(p, deletes) => TrimKeeps(b, p, deletes);
      }
      RunConcat(b, StepsOf(o), AllSteps(os[1..]));
      SequentialIsExact(Run(b, StepsOf(o)), os[1..]);
    }
  }

  /** So from an empty start every record is the number of the path's hashes. */
  lemma SequentialFromEmpty(os: seq<Operation>, path: string)
    requires DeletesSucceed(os)
    ensures var a := Of(Run(map[], AllSteps(os)), path); a.recorded == a.hashes && a.pushed == 0 && a.removed == 0
  {
    hide Run, AllSteps, DeletesSucceed;
    SequentialIsExact(map[], os);
  }

  lemma NoSteps(b: Books)
    ensures Run(b, []) == b
  {
  }

  /** A removal recorded between a push and its record leaves the record one too high for good. */
  lemma OverlapDrifts(p: string)
    ensures var steps := [Step(p, Push), Step(p, Remove(1))] + [Step(p, RecordRemove(1)), Step(p, RecordPush)];
            Of(Run(map[], steps), p) == Account(0, 1, 0, 0)
  {
    var x, y := [Step(p, Push), Step(p, Remove(1))], [Step(p, RecordRemove(1)), Step(p, RecordPush)];
    RunConcat(map[], x, y);
    RunTwo(map[], p, Push, Remove(1));
    RunTwo(Run(map[], x), p, RecordRemove(1), RecordPush);
  }

  // ----- The decrease of the Srd object -----

  /** A decrease of exact lists leaves them exact, on every path. */
  lemma DecreaseIsExact(r: Record, paths: seq<string>, hashes: seq<seq<Hash>>, chosen: seq<set<nat>>, i: nat)
    requires |paths| == |hashes| && Distinct(paths) && InRange(LengthsOf(hashes), chosen) && i < |paths|
    requires Recorded(r, paths[i]) == |hashes[i]|
    ensures Recorded(RecordAfter(r, paths, AllRemoved(hashes, chosen)), paths[i]) == |AllSurvivors(hashes, chosen)[i]|
  {
    RemovedCount(hashes[i], chosen[i], 0);
    RecordedAfter(r, paths, AllRemoved(hashes, chosen), i);
  }

  lemma {:induction false} RecordedAfter(r: Record, paths: seq<string>, removed: seq<seq<Hash>>, i: nat)
    requires |paths| == |removed| && Distinct(paths) && i < |paths|
    ensures Recorded(RecordAfter(r, paths, removed), paths[i])
         == if Recorded(r, paths[i]) < |removed[i]| then 0 else Recorded(r, paths[i]) - |removed[i]|
  {
    var n := |paths| - 1;
    if i < n {
      RecordedAfter(r, paths[..n], removed[..n], i);
    } else {
      OtherPaths(r, paths[..n], removed[..n], paths[n]);
    }
  }

  lemma {:induction false} OtherPaths(r: Record, paths: seq<string>, removed: seq<seq<Hash>>, path: string)
    requires |paths| == |removed| && path !in paths
    ensures Recorded(RecordAfter(r, paths, removed), path) == Recorded(r, path)
  {
    if paths != [] {
      var n := |paths| - 1;
      OtherPaths(r, paths[..n], removed[..n], path);
    }
  }
}
