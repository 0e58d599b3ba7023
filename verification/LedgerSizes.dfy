/** The sizes in the accepted reports: what the chain is told grows by what is added and shrinks by what is deleted. */
module LedgerSizes {
  import opened Bytes
  import opened FileModel
  import opened MerkleValidate
  import opened Ledger
  import opened LedgerRuns

  // ----- The size of a set of sealings -----

  /** Every sealing has the size it was sealed with. */
  ghost predicate Sized(items: seq<Item>, sizes: seq<nat>) {
    forall i :: 0 <= i < |items| ==> items[i].id < |sizes| && items[i].file.oldSize == sizes[items[i].id]
  }

  function Weight(ids: set<nat>, sizes: seq<nat>): nat {
    if sizes == [] then 0
    else
      var n := |sizes| - 1;
      Weight(ids, sizes[..n]) + if n in ids then sizes[n] else 0
  }

  lemma {:induction false} WeightAdds(a: set<nat>, b: set<nat>, sizes: seq<nat>)
    requires a !! b
    ensures Weight(a + b, sizes) == Weight(a, sizes) + Weight(b, sizes)
  {
    if sizes != [] {
      WeightAdds(a, b, sizes[..|sizes| - 1]);
    }
  }

  lemma {:induction false} WeightLess(a: set<nat>, b: set<nat>, sizes: seq<nat>)
    requires a <= b
    ensures Weight(a, sizes) <= Weight(b, sizes)
  {
    if sizes != [] {
      WeightLess(a, b, sizes[..|sizes| - 1]);
    }
  }

  lemma {:induction false} WeightOne(id: nat, sizes: seq<nat>)
    ensures Weight({id}, sizes) == if id < |sizes| then sizes[id] else 0
  {
    if sizes != [] {
      WeightOne(id, sizes[..|sizes| - 1]);
    }
  }

  lemma {:induction false} WeightNone(sizes: seq<nat>)
    ensures Weight({}, sizes) == 0
  {
    if sizes != [] {
      WeightNone(sizes[..|sizes| - 1]);
    }
  }

  /** A list that names nothing twice has the size of its set. */
  lemma {:induction false} TotalIsWeight(items: seq<Item>, sizes: seq<nat>)
    requires Sized(items, sizes) && DistinctIds(items)
    ensures TotalSize(items) == Weight(Ids(items), sizes)
  {
    hide Weight;
    if items == [] {
      assert Ids(items) == {};
      WeightNone(sizes);
    } else {
      var n := |items| - 1;
      TotalIsWeight(items[..n], sizes);
      LastId(items);
      WeightAdds(Ids(items[..n]), {items[n].id}, sizes);
      WeightOne(items[n].id, sizes);
    }
  }

  lemma LastId(items: seq<Item>)
    requires items != [] && DistinctIds(items)
    ensures var n := |items| - 1; Ids(items) == Ids(items[..n]) + {items[n].id} && items[n].id !in Ids(items[..n])
  {
    var n := |items| - 1;
    assert items == items[..n] + [items[n]];
    IdsConcat(items[..n], [items[n]]);
    forall it | it in items[..n] ensures it.id != items[n].id {
      var i :| 0 <= i < n && items[..n][i] == it;
      assert items[i] == it;
    }
  }

  // ----- No step changes a size -----

  ghost predicate SizedReport(r: Report, sizes: seq<nat>) {
    Sized(r.covered, sizes) && Sized(r.added, sizes) && Sized(r.deleted, sizes)
  }

  ghost predicate SizedWorld(w: World, sizes: seq<nat>) {
    && |sizes| == w.files.nextId && Sized(w.files.checked, sizes) && Sized(w.files.recent, sizes)
    && (w.pending.Some? ==> SizedReport(w.pending.value, sizes))
    && forall k :: 0 <= k < |w.log| ==> SizedReport(w.log[k], sizes)
  }

  lemma SizedFewer(a: seq<Item>, b: seq<Item>, sizes: seq<nat>)
    requires Sized(a, sizes) && forall it <- b :: it in a
    ensures Sized(b, sizes)
  {
    forall i | 0 <= i < |b| ensures b[i].id < |sizes| && b[i].file.oldSize == sizes[b[i].id] {
      assert b[i] in b;
      var k :| 0 <= k < |a| && a[k] == b[i];
    }
  }

  lemma ReportSized(items: seq<Item>, upgrading: bool, sizes: seq<nat>, sha: seq<Byte> -> Hash)
    requires Sized(items, sizes)
    ensures SizedReport(ReportOf(items, upgrading, sha), sizes) && Sized(Purge(items), sizes) && Sized(Waited(Purge(items)), sizes)
  {
    hide Purge, Covered, Taken, SteadyOnes, Queue, Root, OpenList, TotalSize, Sized;
    var p := Purge(items);
    PurgeMembers(items);
    SizedFewer(items, p, sizes);
    var m := Waited(p);
    WaitedSized(p, sizes);
    if upgrading {
      SteadyMembers(p);
      SizedFewer(p, SteadyOnes(p), sizes);
      NothingSized(sizes);
    } else {
      CoveredMembers(m);
      SizedFewer(m, Covered(m), sizes);
      TakenMembers(m, true);
      SizedFewer(m, Taken(m, true), sizes);
      TakenMembers(m, false);
      SizedFewer(m, Taken(m, false), sizes);
    }
  }

  lemma NothingSized(sizes: seq<nat>)
    ensures Sized([], sizes)
  {
  }

  lemma WaitedSized(items: seq<Item>, sizes: seq<nat>)
    requires Sized(items, sizes)
    ensures Sized(Waited(items), sizes)
  {
  }

  lemma MoreSizes(w: World, sizes: seq<nat>, size: nat)
    requires SizedWorld(w, sizes)
    ensures Sized(w.files.checked, sizes + [size]) && Sized(w.files.recent, sizes + [size])
    ensures w.pending.Some? ==> SizedReport(w.pending.value, sizes + [size])
    ensures forall k :: 0 <= k < |w.log| ==> SizedReport(w.log[k], sizes + [size])
  {
  }

  lemma SizesOfStep(w: World, step: Step, sizes: seq<nat>, sha: seq<Byte> -> Hash) returns (sizes': seq<nat>)
    requires SizedWorld(w, sizes)
    ensures SizedWorld(Next(w, step, sha), sizes')
  {
    hide LastNamed, FirstNamed, Purge, Queue, ReportOf, SizedReport;
    sizes' := sizes;
    match step {
      case Seal(f) =>
        sizes' := sizes + [f.oldSize];
        MoreSizes(w, sizes, f.oldSize);
      case Generate(upgrading) =>
        ReportSized(w.files.checked, upgrading, sizes, sha);
      case _ =>
    }
  }

  lemma {:induction false} SizesOfRun(w: World, steps: seq<Step>, sizes: seq<nat>, sha: seq<Byte> -> Hash) returns (sizes': seq<nat>)
    requires SizedWorld(w, sizes)
    ensures SizedWorld(Run(w, steps, sha), sizes')
    decreases |steps|
  {
    hide Next, SizedWorld;
    if steps == [] {
      sizes' := sizes;
    } else {
      sizes' := SizesOfStep(w, steps[0], sizes, sha);
      sizes' := SizesOfRun(Next(w, steps[0], sha), steps[1..], sizes', sha);
    }
  }

  // ----- What an accepted report speaks of -----

  /** The report covers the chain as it is once the report is accepted, or while upgrading a part of it. */
  ghost predicate Speaks(r: Report, after: set<nat>) {
    && DistinctIds(r.covered) && ListsOnce(r) && r.filesSize == TotalSize(r.covered)
    && (if r.upgrading then r.added == r.deleted == [] && Ids(r.covered) <= after else Ids(r.covered) == after)
  }

  ghost predicate AllSpeak(w: World) {
    && (w.pending.Some? ==> Speaks(w.pending.value, w.chain + Ids(w.pending.value.added) - Ids(w.pending.value.deleted)))
    && forall k :: 0 <= k < |w.log| ==> Speaks(w.log[k], Replay(w.log[..k + 1]))
  }

  lemma {:induction false} SteadyDistinct(items: seq<Item>)
    requires DistinctIds(items)
    ensures DistinctIds(SteadyOnes(items))
  {
    if items != [] {
      var n := |items| - 1;
      SteadyDistinct(items[..n]);
      SteadyMembers(items[..n]);
      var s := SteadyOnes(items[..n]);
      forall i | 0 <= i < |s| ensures s[i].id != items[n].id {
        assert s[i] in s;
      }
    }
  }

  lemma GeneratedSpeaks(w: World, upgrading: bool, sha: seq<Byte> -> Hash)
    requires Inv(w)
    ensures var r := ReportOf(w.files.checked, upgrading, sha); Speaks(r, w.chain + Ids(r.added) - Ids(r.deleted))
  {
    hide Purge, Covered, Taken, SteadyOnes, Queue, Root, OpenList, TotalSize, Listed, Replay, Lawful, Mirrors;
    if upgrading {
      UpgradeReportCovers(w, sha);
      PurgeDistinct(w.files.checked);
      SteadyDistinct(Purge(w.files.checked));
    } else {
      ReportConserves(w, sha);
    }
  }

  lemma SpeaksKept(w: World, step: Step, sha: seq<Byte> -> Hash)
    requires Inv(w) && AllSpeak(w)
    ensures AllSpeak(Next(w, step, sha))
  {
    hide Speaks, ReportOf, Ids;
    match step {
      case Generate(upgrading) => GeneratedSpeaks(w, upgrading, sha);
      case Accept =>
        if w.pending.Some? {
          AcceptedSpeaks(w);
        }
      case _ =>
    }
  }

  lemma AcceptedSpeaks(w: World)
    requires Inv(w) && AllSpeak(w) && w.pending.Some?
    ensures var log := w.log + [w.pending.value];
            forall k :: 0 <= k < |log| ==> Speaks(log[k], Replay(log[..k + 1]))
  {
    hide Speaks, Ids, Listed, Mirrors, DistinctIds, Below, Apart;
    var r := w.pending.value;
    var log := w.log + [r];
    assert log[..|w.log|] == w.log && log[..|log|] == log;
    assert Replay(log) == Replay(w.log) + Ids(r.added) - Ids(r.deleted);
    forall k | 0 <= k < |w.log| ensures Speaks(log[k], Replay(log[..k + 1])) {
      assert log[..k + 1] == w.log[..k + 1];
    }
  }

  lemma {:induction false} SpeaksInRuns(w: World, steps: seq<Step>, sha: seq<Byte> -> Hash)
    requires Inv(w) && AllSpeak(w)
    ensures AllSpeak(Run(w, steps, sha)) && Inv(Run(w, steps, sha))
    decreases |steps|
  {
    hide Next, Inv, AllSpeak;
    if steps != [] {
      SpeaksKept(w, steps[0], sha);
      StepKeeps(w, steps[0], sha);
      SpeaksInRuns(Next(w, steps[0], sha), steps[1..], sha);
    }
  }

  // ----- The balance -----

  /** The sizes of all files the chain was told as added, less those it was told as deleted. */
  function Balance(log: seq<Report>): int {
    if log == [] then 0
    else
      var r := log[|log| - 1];
      Balance(log[..|log| - 1]) + TotalSize(r.added) - TotalSize(r.deleted)
  }

  lemma {:induction false} BalanceIsWeight(log: seq<Report>, sizes: seq<nat>)
    requires Lawful(log) && forall k :: 0 <= k < |log| ==> SizedReport(log[k], sizes)
    ensures Balance(log) == Weight(Replay(log), sizes)
  {
    hide Weight, Ids, TotalSize, Sized, DistinctIds;
    if log == [] {
      WeightNone(sizes);
    } else {
      var r, before := log[|log| - 1], log[..|log| - 1];
      BalanceIsWeight(before, sizes);
      var p, a, d := Replay(before), Ids(r.added), Ids(r.deleted);
      TotalIsWeight(r.added, sizes);
      TotalIsWeight(r.deleted, sizes);
      WeightAdds(p, a, sizes);
      WeightAdds(p + a - d, d, sizes);
      assert p + a - d + d == p + a;
    }
  }

  lemma {:induction false} LawfulPrefix(log: seq<Report>, k: nat)
    requires Lawful(log) && k <= |log|
    ensures Lawful(log[..k])
  {
    hide Replay, Ids;
    if k == |log| {
      assert log[..k] == log;
    } else {
      LawfulPrefix(log[..|log| - 1], k);
      assert log[..|log| - 1][..k] == log[..k];
    }
  }

  /** In every run the size in an accepted report is the balance of all sizes the chain was told up to it, and while
      upgrading it is at most that. */
  lemma SizeIsBalance(steps: seq<Step>, sha: seq<Byte> -> Hash, k: nat)
    requires k < |Run(START, steps, sha).log|
    ensures var log := Run(START, steps, sha).log;
            && (!log[k].upgrading ==> log[k].filesSize == Balance(log[..k + 1]))
            && (log[k].upgrading ==> log[k].filesSize <= Balance(log[..k + 1]) == Balance(log[..k]))
  {
    StartSpeaks();
    SpeaksInRuns(START, steps, sha);
    var sizes := SizesOfRun(START, steps, [], sha);
    var w := Run(START, steps, sha);
    hide Run, Weight, Ids, Sized, DistinctIds, Lawful, Replay, Listed, Mirrors;
    var r, upTo := w.log[k], w.log[..k + 1];
    LawfulPrefix(w.log, k + 1);
    BalanceIsWeight(upTo, sizes);
    TotalIsWeight(r.covered, sizes);
    if r.upgrading {
      WeightLess(Ids(r.covered), Replay(upTo), sizes);
      assert upTo[..k] == w.log[..k] && TotalSize([]) == 0;
    }
  }

  lemma StartSpeaks()
    ensures Inv(START) && AllSpeak(START) && SizedWorld(START, [])
  {
  }

  /** Between two accepted reports with none but upgrade reports in between, the size the chain sees grows by the sizes
      of what the second one adds and shrinks by those of what it deletes. */
  lemma SizesConserve(steps: seq<Step>, sha: seq<Byte> -> Hash, i: nat, j: nat)
    requires i < j < |Run(START, steps, sha).log|
    requires var log := Run(START, steps, sha).log;
             !log[i].upgrading && !log[j].upgrading && forall k :: i < k < j ==> log[k].upgrading
    ensures var log := Run(START, steps, sha).log;
            log[j].filesSize == log[i].filesSize + TotalSize(log[j].added) - TotalSize(log[j].deleted)
  {
    hide Run, Balance, TotalSize;
    var log := Run(START, steps, sha).log;
    SizeIsBalance(steps, sha, i);
    SizeIsBalance(steps, sha, j);
    var k := i + 1;
    while k < j
      invariant i < k <= j && Balance(log[..k]) == Balance(log[..i + 1])
    {
      SizeIsBalance(steps, sha, k);
      k := k + 1;
    }
    BalanceNext(log, j);
  }

  lemma BalanceNext(log: seq<Report>, j: nat)
    requires j < |log|
    ensures Balance(log[..j + 1]) == Balance(log[..j]) + TotalSize(log[j].added) - TotalSize(log[j].deleted)
  {
    assert log[..j + 1][..j] == log[..j];
  }
}
