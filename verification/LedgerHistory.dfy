/** What a file's appearances in accepted reports look like, and how a backlog of reports drains. */
module LedgerHistory {
  import opened Bytes
  import opened Text
  import opened FileModel
  import opened MerkleValidate
  import opened Ledger
  import opened LedgerRuns

  /** The appearances of one sealing in the accepted reports, true for added. */
  function Events(log: seq<Report>, id: nat): seq<bool> {
    if log == [] then []
    else
      var r := log[|log| - 1];
      Events(log[..|log| - 1], id)
      + (if id in Ids(r.added) then [true] else []) + (if id in Ids(r.deleted) then [false] else [])
  }

  ghost predicate Alternating(events: seq<bool>) {
    forall k :: 0 <= k < |events| ==> events[k] == (k % 2 == 0)
  }

  lemma {:induction false} LawfulAlternates(log: seq<Report>, id: nat)
    requires Lawful(log)
    ensures Alternating(Events(log, id))
    ensures id in Replay(log) <==> |Events(log, id)| % 2 == 1
  {
    hide Ids;
    if log != [] {
      var before := log[..|log| - 1];
      LawfulAlternates(before, id);
    }
  }

  /** Along any run a file's appearances alternate and start with added; the chain holds it exactly when the
      number of appearances is odd. */
  lemma AppearancesAlternate(steps: seq<Step>, sha: seq<Byte> -> Hash, id: nat)
    ensures var w := Run(START, steps, sha);
            Alternating(Events(w.log, id)) && (id in w.chain <==> |Events(w.log, id)| % 2 == 1)
  {
    StartInv();
    RunKeeps(START, steps, sha);
    LawfulAlternates(Run(START, steps, sha).log, id);
  }

  /** The files the worker keeps. */
  function Kept(w: World): set<nat> {
    Ids(w.files.checked) + Ids(w.files.recent)
  }

  /** No step but the erasing one lets go of a deleted file, and none gives it another status. */
  lemma DeletedStays(w: World, step: Step, sha: seq<Byte> -> Hash, it: Item)
    requires Inv(w) && it in w.files.checked && it.file.current == DELETED
    ensures var w' := Next(w, step, sha);
            it.id in Ids(w'.files.checked) ==> exists it' :: it' in w'.files.checked && it'.id == it.id && it'.file.current == DELETED
  {
    hide Inv, Purge, Queue, Ids, LastNamed, FirstNamed, ReportOf, Settle;
    var i :| 0 <= i < |w.files.checked| && w.files.checked[i] == it;
    var w' := Next(w, step, sha);
    match step
    case Generate(upgrading) =>
      PurgeMembers(w.files.checked);
      DeletedWaited(Purge(w.files.checked), it, upgrading);
      if it.id in Ids(w'.files.checked) {
        StillPurged(w, it, upgrading);
      }
    case Accept =>
      SettleCurrent(w.files.checked, w.files.reported, i);
    case _ =>
      assert w'.files.checked[i].id == it.id && w'.files.checked[i].file.current == DELETED;
  }

  lemma SettleCurrent(items: seq<Item>, at: seq<nat>, i: nat)
    requires i < |items|
    ensures Settle(items, at)[i].id == items[i].id && Settle(items, at)[i].file.current == items[i].file.current
    ensures Settle(items, at)[i] in Settle(items, at)
    ensures items[i] in items
  {
  }

  lemma DeletedWaited(items: seq<Item>, it: Item, upgrading: bool)
    requires it.file.current == DELETED
    ensures it in items ==>
              var m := if upgrading then items else Waited(items);
              exists it' :: it' in m && it'.id == it.id && it'.file.current == DELETED
  {
    if it in items {
      var i :| 0 <= i < |items| && items[i] == it;
      var m := if upgrading then items else Waited(items);
      assert m[i] in m && m[i].id == it.id && m[i].file.current == DELETED;
    }
  }

  /** Ids are unique, so a file with the id of a purged one is not there. */
  lemma StillPurged(w: World, it: Item, upgrading: bool)
    requires Inv(w) && it in w.files.checked && it.id in Ids(AfterReport(w.files, upgrading).checked)
    ensures it in Purge(w.files.checked)
  {
    hide Purge, Queue, Mirrors, Listed, Replay, Lawful;
    var c := w.files.checked;
    PurgeMembers(c);
    var p := Purge(c);
    if !upgrading {
      SameIds(p, Waited(p));
    }
    var other := OfId(p, it.id);
    var i :| 0 <= i < |c| && c[i] == it;
    var j :| 0 <= j < |c| && c[j] == other;
  }

  /** A file goes only when it was added and deleted equally often, so the chain does not hold it. */
  lemma ErasedIsBalanced(w: World, step: Step, sha: seq<Byte> -> Hash, id: nat)
    requires Inv(w) && id in Kept(w) && id !in Kept(Next(w, step, sha))
    ensures id !in w.chain && |Events(w.log, id)| % 2 == 0
  {
    LawfulAlternates(w.log, id);
    hide Replay, Lawful, Events;
    if id in w.chain {
      StepKeeps(w, step, sha);
      ChainKept(w, step, sha, id);
    }
  }

  /** Of the checked files only a deleted one goes; a new one goes only by its own deletion. */
  lemma OnlyDeletedGo(w: World, step: Step, sha: seq<Byte> -> Hash, it: Item)
    requires Inv(w) && it.id !in Kept(Next(w, step, sha))
    ensures it in w.files.checked ==> it.file.current == DELETED
    ensures it in w.files.recent ==> step == Delete(Hex(it.file.hash))
  {
    hide Replay, Lawful, Listed, Mirrors, Purge, Queue, Settle, Waited, ReportOf, LastNamed, FirstNamed, DistinctIds, Apart, Below;
    if it in w.files.checked && it.file.current != DELETED {
      CheckedStays(w, step, sha, it);
    }
    if it in w.files.recent && step != Delete(Hex(it.file.hash)) {
      RecentStays(w, step, sha, it);
    }
  }

  lemma CheckedStays(w: World, step: Step, sha: seq<Byte> -> Hash, it: Item)
    requires it in w.files.checked && it.file.current != DELETED
    ensures it.id in Ids(Next(w, step, sha).files.checked)
  {
    hide Purge, Queue, Settle, Waited, ReportOf, LastNamed, FirstNamed, Ids;
    var c, c' := w.files.checked, Next(w, step, sha).files.checked;
    match step
    case Generate(upgrading) =>
      PurgeMembers(c);
      SameIds(Purge(c), c') by { WaitedCurrent(Purge(c)); }
      InIds(Purge(c), it);
    case Accept =>
      SettledCurrent(c, w.files.reported);
      SameIds(c, c');
      InIds(c, it);
    case Merge =>
      assert it in c';
      InIds(c', it);
    case _ =>
      SameIds(c, c');
      InIds(c, it);
  }

  lemma NamedBy(it: Item, hash: string)
    ensures Named(it, hash) <==> Hex(it.file.hash) == hash
  {
  }

  lemma RecentStays(w: World, step: Step, sha: seq<Byte> -> Hash, it: Item)
    requires it in w.files.recent && step != Delete(Hex(it.file.hash))
    ensures it.id in Kept(Next(w, step, sha))
  {
    hide Purge, Queue, Settle, Waited, ReportOf, LastNamed, FirstNamed, Ids, Named;
    var n, n' := w.files.recent, Next(w, step, sha).files.recent;
    var i :| 0 <= i < |n| && n[i] == it;
    match step
    case Confirm(_) =>
      assert n'[i].id == it.id && n'[i] in n';
      InIds(n', n'[i]);
    case Delete(hash) =>
      LastNamedIs(n, hash, false);
      NamedBy(it, hash);
      assert it in n';
      InIds(n', it);
    case Merge =>
      assert it in Next(w, step, sha).files.checked;
      InIds(Next(w, step, sha).files.checked, it);
    case _ =>
      assert it in n';
      InIds(n', it);
  }

  lemma ChainKept(w: World, step: Step, sha: seq<Byte> -> Hash, id: nat)
    requires Inv(w) && Inv(Next(w, step, sha)) && id in w.chain
    ensures id in Kept(Next(w, step, sha))
  {
    hide Replay, Lawful, Listed, Purge, Queue, Settle, ReportOf, LastNamed, FirstNamed;
    match step
    case Accept =>
      if w.pending.Some? {
        var it := OfId(w.files.checked, id);
        var i :| 0 <= i < |w.files.checked| && w.files.checked[i] == it;
        SettleCurrent(w.files.checked, w.files.reported, i);
        InIds(Settle(w.files.checked, w.files.reported), Settle(w.files.checked, w.files.reported)[i]);
      }
    case _ =>
  }

  // ----- What confirming and deleting do, without recursion -----

  ghost predicate LastAt(items: seq<Item>, hash: string, unconfirmed: bool, k: nat) {
    && k < |items| && Eligible(items[k], hash, unconfirmed)
    && forall i :: k < i < |items| ==> !Eligible(items[i], hash, unconfirmed)
  }

  predicate Eligible(it: Item, hash: string, unconfirmed: bool) {
    Named(it, hash) && (unconfirmed ==> it.file.current == UNCONFIRMED)
  }

  lemma {:induction false} LastNamedIs(items: seq<Item>, hash: string, unconfirmed: bool)
    ensures var r := LastNamed(items, hash, unconfirmed);
            && (r.Some? ==> LastAt(items, hash, unconfirmed, r.value))
            && (r.None? ==> forall i :: 0 <= i < |items| ==> !Eligible(items[i], hash, unconfirmed))
  {
    hide Named;
    if items != [] {
      LastNamedIs(items[..|items| - 1], hash, unconfirmed);
    }
  }

  lemma {:induction false} FirstNamedIs(items: seq<Item>, hash: string)
    ensures var r := FirstNamed(items, hash);
            && (r.Some? ==> Named(items[r.value], hash) && forall i :: 0 <= i < r.value ==> !Named(items[i], hash))
            && (r.None? ==> forall i :: 0 <= i < |items| ==> !Named(items[i], hash))
  {
    hide Named;
    if items != [] {
      FirstNamedIs(items[1..], hash);
      assert forall i :: 1 <= i < |items| ==> items[i] == items[1..][i - 1];
    }
  }

  /** The lists differ at most at position k, and there only in the current status, which is now the given one. */
  ghost predicate OnlyCurrentAt(a: seq<Item>, b: seq<Item>, k: nat, status: char) {
    && |a| == |b| && k < |a|
    && (forall i :: 0 <= i < |a| && i != k ==> b[i] == a[i])
    && b[k].id == a[k].id && b[k].file == a[k].file.(current := status)
  }

  /** Confirming reaches the last file of the name among the checked ones, whatever its status, and only if there
      is none the last unconfirmed one among the new; it makes it valid if it was unconfirmed and changes nothing else. */
  lemma ConfirmDoes(w: Files, hash: string)
    ensures var w' := ConfirmFile(w, hash);
            && w'.reported == w.reported && w'.nextId == w.nextId
            && (forall k: nat :: LastAt(w.checked, hash, false, k) ==>
                                   w'.recent == w.recent
                                   && OnlyCurrentAt(w.checked, w'.checked, k, if w.checked[k].file.current == UNCONFIRMED then VALID else w.checked[k].file.current))
            && ((forall i :: 0 <= i < |w.checked| ==> !Named(w.checked[i], hash)) ==>
                  w'.checked == w.checked
                  && (forall k: nat :: LastAt(w.recent, hash, true, k) ==> OnlyCurrentAt(w.recent, w'.recent, k, VALID))
                  && ((forall i :: 0 <= i < |w.recent| ==> !Eligible(w.recent[i], hash, true)) ==> w'.recent == w.recent))
  {
    hide LastNamed, Named;
    LastNamedIs(w.checked, hash, false);
    LastNamedIs(w.recent, hash, true);
    OnlyOneLast(w.checked, hash, false);
    OnlyOneLast(w.recent, hash, true);
  }

  lemma OnlyOneLast(items: seq<Item>, hash: string, unconfirmed: bool)
    ensures forall j: nat, k: nat :: LastAt(items, hash, unconfirmed, j) && LastAt(items, hash, unconfirmed, k) ==> j == k
  {
    hide Eligible;
  }

  /** Deleting marks the first file of the name among the checked ones and only if there is none takes the last one
      out of the new. */
  lemma DeleteDoes(w: Files, hash: string)
    ensures var w' := DeleteFile(w, hash);
            && w'.reported == w.reported && w'.nextId == w.nextId
            && (forall k: nat :: k < |w.checked| && Named(w.checked[k], hash) && (forall i :: 0 <= i < k ==> !Named(w.checked[i], hash)) ==>
                                   w'.recent == w.recent && OnlyCurrentAt(w.checked, w'.checked, k, DELETED))
            && ((forall i :: 0 <= i < |w.checked| ==> !Named(w.checked[i], hash)) ==>
                  w'.checked == w.checked
                  && (forall k: nat :: LastAt(w.recent, hash, false, k) ==> w'.recent == w.recent[..k] + w.recent[k + 1..])
                  && ((forall i :: 0 <= i < |w.recent| ==> !Named(w.recent[i], hash)) ==> w'.recent == w.recent))
  {
    hide LastNamed, FirstNamed, Named;
    FirstNamedIs(w.checked, hash);
    LastNamedIs(w.recent, hash, false);
    OnlyOneLast(w.recent, hash, false);
  }

  /** Checking a sampled file: a valid one that is damaged becomes lost and a lost one that is whole becomes valid;
      nothing else changes, and no other file. */
  lemma CheckDoes(w: Files, k: nat, check: Check)
    ensures var w' := CheckOne(w, k, check);
            && w'.recent == w.recent && w'.reported == w.reported && w'.nextId == w.nextId
            && (k >= |w.checked| ==> w'.checked == w.checked)
            && (k < |w.checked| ==>
                  var status := w.checked[k].file.current;
                  OnlyCurrentAt(w.checked, w'.checked, k, if status == VALID && check == Damaged then LOST
                                else if status == LOST && check == Whole then VALID
                                else status))
  {
  }

  // ----- The order of what is reported -----

  /** The items r stand in the list at the ascending positions given. */
  ghost predicate StandAt(items: seq<Item>, at: seq<nat>, r: seq<Item>) {
    && |at| == |r|
    && (forall k :: 0 <= k < |at| ==> at[k] < |items| && items[at[k]] == r[k])
    && (forall j, k :: 0 <= j < k < |at| ==> at[j] < at[k])
  }

  lemma StandAtMore(items: seq<Item>, at: seq<nat>, r: seq<Item>)
    requires items != [] && StandAt(items[..|items| - 1], at, r)
    ensures StandAt(items, at, r) && StandAt(items, at + [|items| - 1], r + [items[|items| - 1]])
  {
  }

  /** Purging, covering and listing all keep the order of the list, so the root is over hashes in list order. */
  lemma {:induction false} ReportKeepsOrder(items: seq<Item>) returns (kept: seq<nat>, covered: seq<nat>, added: seq<nat>, deleted: seq<nat>)
    ensures StandAt(items, kept, Purge(items)) && StandAt(items, covered, Covered(items))
    ensures StandAt(items, added, Taken(items, true)) && StandAt(items, deleted, Taken(items, false))
  {
    if items == [] {
      kept, covered, added, deleted := [], [], [], [];
    } else {
      hide StandAt, Erasable, Queue, Reportable;
      var n := |items| - 1;
      kept, covered, added, deleted := ReportKeepsOrder(items[..n]);
      StandAtMore(items, kept, Purge(items[..n]));
      StandAtMore(items, covered, Covered(items[..n]));
      StandAtMore(items, added, Taken(items[..n], true));
      StandAtMore(items, deleted, Taken(items[..n], false));
      kept := if Purge(items) == Purge(items[..n]) then kept else kept + [n];
      covered := if Covered(items) == Covered(items[..n]) then covered else covered + [n];
      added := if Taken(items, true) == Taken(items[..n], true) then added else added + [n];
      deleted := if Taken(items, false) == Taken(items[..n], false) then deleted else deleted + [n];
    }
  }

  // ----- The backlog -----

  function Backlog(items: seq<Item>): nat {
    if items == [] then 0
    else Backlog(items[..|items| - 1]) + if Reportable(items[|items| - 1].file) then 1 else 0
  }

  function Cycle(w: World, sha: seq<Byte> -> Hash): World {
    Next(Next(w, Generate(false), sha), Accept, sha)
  }

  function Cycles(w: World, n: nat, sha: seq<Byte> -> Hash): World
    decreases n
  {
    if n == 0 then w else Cycles(Cycle(w, sha), n - 1, sha)
  }

  lemma {:induction false} QueueLength(items: seq<Item>)
    ensures |Queue(items)| == Min(Backlog(items), REPORT_LIMIT)
  {
    if items != [] {
      QueueLength(items[..|items| - 1]);
    }
  }

  lemma {:induction false} PurgeBacklog(items: seq<Item>)
    ensures Backlog(Purge(items)) == Backlog(items)
  {
    if items != [] {
      var n := |items| - 1;
      PurgeBacklog(items[..n]);
      var p := Purge(items[..n]);
      assert (p + [items[n]])[..|p|] == p;
    }
  }

  lemma {:induction false} WaitedBacklog(items: seq<Item>)
    ensures Backlog(Waited(items)) == Backlog(items)
  {
    if items != [] {
      var n := |items| - 1;
      WaitedBacklog(items[..n]);
      assert Waited(items)[..n] == Waited(items[..n]);
    }
  }

  /** After an accepted report none of the queue is reportable, and nothing else has become so. */
  lemma {:induction false} SettleBacklog(items: seq<Item>, m: nat)
    requires m <= |items|
    requires forall i :: 0 <= i < |items| ==> items[i].file.waiting == items[i].file.current
    ensures Backlog(Settle(items, Queue(items))[..m]) == Backlog(items[..m]) - |Queue(items[..m])|
  {
    hide *;
    if m == 0 {
      NoBacklog();
    } else {
      SettleBacklog(items, m - 1);
      SettleOneMore(items, m - 1);
    }
  }

  lemma SettleOneMore(items: seq<Item>, i: nat)
    requires i < |items|
    requires forall k :: 0 <= k < |items| ==> items[k].file.waiting == items[k].file.current
    ensures var s, room := Settle(items, Queue(items)), |Queue(items[..i])| < REPORT_LIMIT;
            && Backlog(s[..i + 1]) == Backlog(s[..i]) + (if Reportable(items[i].file) && !room then 1 else 0)
            && Backlog(items[..i + 1]) == Backlog(items[..i]) + (if Reportable(items[i].file) then 1 else 0)
            && |Queue(items[..i + 1])| == |Queue(items[..i])| + if Reportable(items[i].file) && room then 1 else 0
  {
    hide *;
    BacklogMore(Settle(items, Queue(items)), i);
    BacklogMore(items, i);
    TakeOneMore(items, i);
    SettledReportable(items, i);
  }

  lemma NoBacklog()
    ensures Backlog([]) == 0 && Queue([]) == []
  {
  }

  lemma BacklogMore(items: seq<Item>, i: nat)
    requires i < |items|
    ensures Backlog(items[..i + 1]) == Backlog(items[..i]) + if Reportable(items[i].file) then 1 else 0
  {
    hide Reportable;
    assert items[..i + 1][..i] == items[..i];
  }

  /** Of the reportable items exactly those in the queue are no longer reportable. */
  lemma SettledReportable(items: seq<Item>, i: nat)
    requires i < |items|
    requires forall k :: 0 <= k < |items| ==> items[k].file.waiting == items[k].file.current
    ensures var s := Settle(items, Queue(items))[i].file;
            Reportable(s) <==> Reportable(items[i].file) && !(|Queue(items[..i])| < REPORT_LIMIT)
  {
    hide Queue;
    QueueMembers(items);
    assert items[..i + 1][..i] == items[..i];
    SettleOrigin(items);
  }

  lemma SettleOrigin(items: seq<Item>)
    requires forall i :: 0 <= i < |items| ==> items[i].file.waiting == items[i].file.current
    ensures var s := Settle(items, Queue(items));
            forall i :: 0 <= i < |items| ==>
                          s[i].file.current == items[i].file.current
                          && s[i].file.origin == if i in Queue(items) then items[i].file.current else items[i].file.origin
  {
    hide Queue;
  }

  lemma CycleDrains(w: World, sha: seq<Byte> -> Hash)
    ensures var b, b' := Backlog(w.files.checked), Backlog(Cycle(w, sha).files.checked);
            b' == b - Min(b, REPORT_LIMIT)
  {
    hide Purge, Queue, Settle, Waited, Backlog, ReportOf, Ids;
    var p := Purge(w.files.checked);
    var m := Waited(p);
    PurgeBacklog(w.files.checked);
    WaitedBacklog(p);
    WaitedIsCurrent(p);
    SettleBacklog(m, |m|);
    QueueLength(m);
    var s := Settle(m, Queue(m));
    assert m[..|m|] == m && s[..|m|] == s;
  }

  /** With the current statuses left alone, n accepted reports take n times the limit off the backlog. */
  lemma {:induction false} BacklogDrains(w: World, n: nat, sha: seq<Byte> -> Hash)
    ensures var b := Backlog(w.files.checked);
            Backlog(Cycles(w, n, sha).files.checked) == b - Min(b, n * REPORT_LIMIT)
    decreases n
  {
    hide Cycle, Backlog;
    if n > 0 {
      CycleDrains(w, sha);
      BacklogDrains(Cycle(w, sha), n - 1, sha);
    }
  }

  predicate KnownStatus(f: FileEntry) {
    var all := {UNCONFIRMED, VALID, LOST, DELETED};
    f.current in all && f.waiting in all && f.origin in all
  }

  ghost predicate KnownStatuses(items: seq<Item>) {
    forall i :: 0 <= i < |items| ==> KnownStatus(items[i].file)
  }

  lemma StatusesStayKnown(w: World, step: Step, sha: seq<Byte> -> Hash)
    requires KnownStatuses(w.files.checked) && KnownStatuses(w.files.recent)
    ensures var w' := Next(w, step, sha); KnownStatuses(w'.files.checked) && KnownStatuses(w'.files.recent)
  {
    hide Purge, Queue, LastNamed, FirstNamed, ReportOf, Ids;
    var c := w.files.checked;
    match step
    case Generate(upgrading) =>
      PurgeMembers(c);
      var p := Purge(c);
      forall i | 0 <= i < |p| ensures KnownStatus(p[i].file) {
        assert p[i] in p;
      }
    case _ =>
  }

  /** In every run from the start all statuses are known ones. */
  lemma StatusesAreKnown(steps: seq<Step>, sha: seq<Byte> -> Hash)
    ensures var w := Run(START, steps, sha); KnownStatuses(w.files.checked) && KnownStatuses(w.files.recent)
  {
    RunStaysKnown(START, steps, sha);
  }

  lemma {:induction false} RunStaysKnown(w: World, steps: seq<Step>, sha: seq<Byte> -> Hash)
    requires KnownStatuses(w.files.checked) && KnownStatuses(w.files.recent)
    ensures var w' := Run(w, steps, sha); KnownStatuses(w'.files.checked) && KnownStatuses(w'.files.recent)
    decreases |steps|
  {
    hide Next, KnownStatuses;
    if steps != [] {
      StatusesStayKnown(w, steps[0], sha);
      RunStaysKnown(Next(w, steps[0], sha), steps[1..], sha);
    }
  }

  lemma {:induction false} CyclesStayKnown(w: World, n: nat, sha: seq<Byte> -> Hash)
    requires KnownStatuses(w.files.checked) && KnownStatuses(w.files.recent)
    ensures KnownStatuses(Cycles(w, n, sha).files.checked)
    decreases n
  {
    hide Next, KnownStatuses;
    if n > 0 {
      StatusesStayKnown(w, Generate(false), sha);
      StatusesStayKnown(Next(w, Generate(false), sha), Accept, sha);
      CyclesStayKnown(Cycle(w, sha), n - 1, sha);
    }
  }

  lemma {:induction false} BacklogCounts(items: seq<Item>, it: Item)
    requires it in items && Reportable(it.file)
    ensures Backlog(items) > 0
  {
    var n := |items| - 1;
    if it != items[n] {
      assert items == items[..n] + [items[n]];
      BacklogCounts(items[..n], it);
    }
  }

  /** Once the backlog is gone the next report erases every deleted file. */
  lemma NothingDeletedIsLeft(w: World, sha: seq<Byte> -> Hash)
    requires Backlog(w.files.checked) == 0 && KnownStatuses(w.files.checked)
    ensures forall it <- Next(w, Generate(false), sha).files.checked :: it.file.current != DELETED
  {
    hide Purge, Queue, Backlog, ReportOf;
    var c := w.files.checked;
    var p := Purge(c);
    PurgeMembers(c);
    forall i | 0 <= i < |p| ensures p[i].file.current != DELETED {
      assert p[i] in p;
      if Reportable(p[i].file) {
        BacklogCounts(c, p[i]);
      }
    }
  }

  /** After any run from the start ceil(k / limit) accepted reports leave nothing reportable, and one report more
      leaves no deleted file. */
  lemma BacklogConverges(steps: seq<Step>, sha: seq<Byte> -> Hash)
    ensures var w := Run(START, steps, sha);
            var done := Cycles(w, (Backlog(w.files.checked) + REPORT_LIMIT - 1) / REPORT_LIMIT, sha);
            && Backlog(done.files.checked) == 0
            && forall it <- Next(done, Generate(false), sha).files.checked :: it.file.current != DELETED
  {
    hide Run, Cycles, Backlog, Next, KnownStatuses;
    StatusesAreKnown(steps, sha);
    BacklogConvergesFrom(Run(START, steps, sha), sha);
  }

  lemma BacklogConvergesFrom(w: World, sha: seq<Byte> -> Hash)
    requires KnownStatuses(w.files.checked) && KnownStatuses(w.files.recent)
    ensures var n := (Backlog(w.files.checked) + REPORT_LIMIT - 1) / REPORT_LIMIT;
            var done := Cycles(w, n, sha);
            && Backlog(done.files.checked) == 0
            && forall it <- Next(done, Generate(false), sha).files.checked :: it.file.current != DELETED
  {
    hide Cycles, Backlog, Next;
    var k := Backlog(w.files.checked);
    var n := (k + REPORT_LIMIT - 1) / REPORT_LIMIT;
    BacklogDrains(w, n, sha);
    assert n * REPORT_LIMIT >= k;
    CyclesStayKnown(w, n, sha);
    NothingDeletedIsLeft(Cycles(w, n, sha), sha);
  }

  // ----- What the chain is told in the end -----

  /** What was waiting or told lags behind: a deleted file stays deleted, and of an unconfirmed one nothing was told. */
  predicate Lags(f: FileEntry) {
    && (f.waiting == DELETED || f.origin == DELETED ==> f.current == DELETED)
    && (f.current == UNCONFIRMED ==> f.waiting == UNCONFIRMED && f.origin == UNCONFIRMED)
  }

  ghost predicate AllLag(items: seq<Item>) {
    forall i :: 0 <= i < |items| ==> Lags(items[i].file)
  }

  lemma LagStays(w: World, step: Step, sha: seq<Byte> -> Hash)
    requires AllLag(w.files.checked) && AllLag(w.files.recent)
    ensures var w' := Next(w, step, sha); AllLag(w'.files.checked) && AllLag(w'.files.recent)
  {
    hide Purge, Queue, LastNamed, FirstNamed, ReportOf, Ids, Waited, Settle;
    match step
    case Generate(upgrading) =>
      PurgeLags(w.files.checked);
      WaitedLags(Purge(w.files.checked));
    case Accept =>
      SettledLags(w.files.checked, w.files.reported);
    case Confirm(hash) =>
      LastNamedIs(w.files.recent, hash, true);
    case _ =>
  }

  lemma PurgeLags(items: seq<Item>)
    requires AllLag(items)
    ensures AllLag(Purge(items))
  {
    hide Purge;
    PurgeMembers(items);
    forall i | 0 <= i < |Purge(items)| ensures Lags(Purge(items)[i].file) {
      assert Purge(items)[i] in items;
    }
  }

  lemma WaitedLags(items: seq<Item>)
    requires AllLag(items)
    ensures AllLag(Waited(items))
  {
  }

  lemma SettledLags(items: seq<Item>, at: seq<nat>)
    requires AllLag(items)
    ensures AllLag(Settle(items, at))
  {
  }

  lemma StartLags()
    ensures AllLag(START.files.checked) && AllLag(START.files.recent)
  {
  }

  lemma {:induction false} RunLags(w: World, steps: seq<Step>, sha: seq<Byte> -> Hash)
    requires AllLag(w.files.checked) && AllLag(w.files.recent)
    ensures var w' := Run(w, steps, sha); AllLag(w'.files.checked) && AllLag(w'.files.recent)
    decreases |steps|
  {
    hide Next, AllLag;
    if steps != [] {
      LagStays(w, steps[0], sha);
      RunLags(Next(w, steps[0], sha), steps[1..], sha);
    }
  }

  /** The files that are valid now. */
  function ValidOnes(items: seq<Item>): set<nat> {
    set it | it in items && it.file.current == VALID :: it.id
  }

  /** A report and its result leave the valid files as they are. */
  lemma CycleKeepsValid(w: World, sha: seq<Byte> -> Hash)
    ensures ValidOnes(Cycle(w, sha).files.checked) == ValidOnes(w.files.checked)
  {
    hide Purge, Queue, ReportOf, Ids, Waited, Settle, ValidOnes;
    var p := Purge(w.files.checked);
    PurgeKeepsValid(w.files.checked);
    WaitedCurrent(p);
    SameValid(p, Waited(p));
    SettledCurrent(Waited(p), Queue(Waited(p)));
    SameValid(Waited(p), Settle(Waited(p), Queue(Waited(p))));
  }

  lemma WaitedCurrent(items: seq<Item>)
    ensures var m := Waited(items);
            forall i :: 0 <= i < |items| ==> m[i].id == items[i].id && m[i].file.current == items[i].file.current
  {
  }

  lemma SettledCurrent(items: seq<Item>, at: seq<nat>)
    ensures var s := Settle(items, at);
            forall i :: 0 <= i < |items| ==> s[i].id == items[i].id && s[i].file.current == items[i].file.current
  {
  }

  lemma PurgeKeepsValid(items: seq<Item>)
    ensures ValidOnes(Purge(items)) == ValidOnes(items)
  {
    hide Purge;
    PurgeMembers(items);
  }

  lemma SameValid(a: seq<Item>, b: seq<Item>)
    requires |a| == |b| && forall i :: 0 <= i < |a| ==> a[i].id == b[i].id && a[i].file.current == b[i].file.current
    ensures ValidOnes(a) == ValidOnes(b)
  {
    forall id ensures id in ValidOnes(a) <==> id in ValidOnes(b) {
      if id in ValidOnes(a) {
        var i :| 0 <= i < |a| && a[i].id == id && a[i].file.current == VALID;
        assert b[i] in b;
      }
      if id in ValidOnes(b) {
        var i :| 0 <= i < |b| && b[i].id == id && b[i].file.current == VALID;
        assert a[i] in a;
      }
    }
  }

  lemma {:induction false} CyclesKeep(w: World, n: nat, sha: seq<Byte> -> Hash)
    requires Inv(w) && KnownStatuses(w.files.checked) && KnownStatuses(w.files.recent)
    requires AllLag(w.files.checked) && AllLag(w.files.recent)
    ensures var done := Cycles(w, n, sha);
            && Inv(done) && KnownStatuses(done.files.checked) && AllLag(done.files.checked)
            && ValidOnes(done.files.checked) == ValidOnes(w.files.checked)
    decreases n
  {
    hide *;
    CyclesUnfold(w, n, sha);
    if n > 0 {
      var mid := Next(w, Generate(false), sha);
      StepKeeps(w, Generate(false), sha);
      StepKeeps(mid, Accept, sha);
      StatusesStayKnown(w, Generate(false), sha);
      StatusesStayKnown(mid, Accept, sha);
      LagStays(w, Generate(false), sha);
      LagStays(mid, Accept, sha);
      CycleKeepsValid(w, sha);
      CyclesKeep(Cycle(w, sha), n - 1, sha);
    }
  }

  lemma CyclesUnfold(w: World, n: nat, sha: seq<Byte> -> Hash)
    ensures n == 0 ==> Cycles(w, n, sha) == w
    ensures n > 0 ==> Cycles(w, n, sha) == Cycles(Cycle(w, sha), n - 1, sha)
    ensures Cycle(w, sha) == Next(Next(w, Generate(false), sha), Accept, sha)
  {
    hide Next;
  }

  lemma {:induction false} BacklogBelow(items: seq<Item>)
    ensures Backlog(items) <= |items|
  {
    if items != [] {
      BacklogBelow(items[..|items| - 1]);
    }
  }

  /** Where no report is left to make, what the chain was told last is what holds. */
  lemma SettledMeansTold(items: seq<Item>, it: Item)
    requires it in items && Backlog(items) == 0 && KnownStatus(it.file) && Lags(it.file)
    ensures it.file.origin == VALID <==> it.file.current == VALID
  {
    hide Backlog;
    if Reportable(it.file) {
      BacklogCounts(items, it);
    }
  }

  /** After any run from the start and ceil(n / limit) accepted reports for a list of n files, the chain holds exactly
      the files that were valid when the reports began: every lost or deleted one was told, every restored one too. */
  lemma ChainLearnsTheValid(steps: seq<Step>, sha: seq<Byte> -> Hash)
    ensures var w := Run(START, steps, sha);
            var done := Cycles(w, (|w.files.checked| + REPORT_LIMIT - 1) / REPORT_LIMIT, sha);
            && done.chain == ValidOnes(w.files.checked)
            && forall it <- done.files.checked :: it.id in done.chain <==> it.file.current == VALID
  {
    hide Run, Cycles, Backlog, Next, Inv, KnownStatuses, AllLag, ValidOnes;
    var w := Run(START, steps, sha);
    StartInv();
    RunKeeps(START, steps, sha);
    StatusesAreKnown(steps, sha);
    StartLags();
    RunLags(START, steps, sha);
    var n := (|w.files.checked| + REPORT_LIMIT - 1) / REPORT_LIMIT;
    assert n * REPORT_LIMIT >= |w.files.checked|;
    CyclesKeep(w, n, sha);
    BacklogBelow(w.files.checked);
    BacklogDrains(w, n, sha);
    MirrorsValid(Cycles(w, n, sha));
  }

  lemma MirrorsValid(w: World)
    requires Inv(w) && KnownStatuses(w.files.checked) && AllLag(w.files.checked) && Backlog(w.files.checked) == 0
    ensures w.chain == ValidOnes(w.files.checked)
    ensures forall it <- w.files.checked :: it.id in w.chain <==> it.file.current == VALID
  {
    hide Backlog, Listed, ListsOnce, Replay, Lawful;
    var items := w.files.checked;
    forall it | it in items ensures it.id in w.chain <==> it.file.current == VALID {
      var i :| 0 <= i < |items| && items[i] == it;
      SettledMeansTold(items, it);
    }
    forall id | id in w.chain ensures id in ValidOnes(items) {
      var it :| it in items && it.id == id;
    }
  }

  // ----- What was never confirmed -----

  /** Unconfirmed or deleted, and neither waiting nor told to be valid. */
  predicate Fresh(f: FileEntry) {
    (f.current == UNCONFIRMED || f.current == DELETED) && f.waiting != VALID && f.origin != VALID
  }

  ghost predicate AllFresh(items: seq<Item>) {
    forall i :: 0 <= i < |items| ==> Fresh(items[i].file)
  }

  lemma FreshStays(w: World, step: Step, sha: seq<Byte> -> Hash)
    requires AllFresh(w.files.checked) && AllFresh(w.files.recent) && !step.Confirm?
    ensures var w' := Next(w, step, sha); AllFresh(w'.files.checked) && AllFresh(w'.files.recent)
  {
    hide Purge, Queue, LastNamed, FirstNamed, ReportOf, Ids, Waited, Settle, Checked;
    match step
    case Generate(upgrading) =>
      PurgeFresh(w.files.checked);
      WaitedFresh(Purge(w.files.checked));
    case Accept =>
      SettledFresh(w.files.checked, w.files.reported);
    case _ =>
  }

  lemma PurgeFresh(items: seq<Item>)
    requires AllFresh(items)
    ensures AllFresh(Purge(items))
  {
    hide Purge;
    PurgeMembers(items);
    forall i | 0 <= i < |Purge(items)| ensures Fresh(Purge(items)[i].file) {
      assert Purge(items)[i] in items;
    }
  }

  lemma WaitedFresh(items: seq<Item>)
    requires AllFresh(items)
    ensures AllFresh(Waited(items))
  {
  }

  lemma SettledFresh(items: seq<Item>, at: seq<nat>)
    requires AllFresh(items)
    ensures AllFresh(Settle(items, at))
  {
  }

  lemma {:induction false} RunFresh(w: World, steps: seq<Step>, sha: seq<Byte> -> Hash)
    requires AllFresh(w.files.checked) && AllFresh(w.files.recent) && forall s <- steps :: !s.Confirm?
    ensures var w' := Run(w, steps, sha); AllFresh(w'.files.checked) && AllFresh(w'.files.recent)
    decreases |steps|
  {
    hide Next, AllFresh;
    if steps != [] {
      assert steps[0] in steps && forall s <- steps[1..] :: s in steps;
      FreshStays(w, steps[0], sha);
      RunFresh(Next(w, steps[0], sha), steps[1..], sha);
    }
  }

  /** A sealed file starts unconfirmed, and without a confirmation nothing makes it valid: whatever else happens, every
      checked file is unconfirmed or deleted and the chain is told of none. */
  lemma NothingWithoutConfirm(steps: seq<Step>, sha: seq<Byte> -> Hash)
    requires forall s <- steps :: !s.Confirm?
    ensures var w := Run(START, steps, sha);
            && w.chain == {}
            && forall it <- w.files.checked + w.files.recent :: it.file.current == UNCONFIRMED || it.file.current == DELETED
  {
    hide Run, Listed, ListsOnce, Replay, Lawful;
    StartInv();
    RunKeeps(START, steps, sha);
    assert AllFresh([]);
    RunFresh(START, steps, sha);
    var w := Run(START, steps, sha);
    forall it | it in w.files.checked ensures it.id !in w.chain {
      var i :| 0 <= i < |w.files.checked| && w.files.checked[i] == it;
    }
  }

  // ----- The bytes behind the root -----

  /** The root is over the hashes of the items in list order, 32 bytes each. */
  lemma {:induction false} HashesStand(items: seq<Item>)
    ensures |HashesOf(items)| == 32 * |items|
    ensures forall k :: 0 <= k < |items| ==> HashesOf(items)[32 * k..32 * k + 32] == items[k].file.hash
  {
    if items != [] {
      var n := |items| - 1;
      HashesStand(items[..n]);
      forall k | 0 <= k < |items| ensures HashesOf(items)[32 * k..32 * k + 32] == items[k].file.hash {
        if k < n {
          assert HashesOf(items)[32 * k..32 * k + 32] == HashesOf(items[..n])[32 * k..32 * k + 32];
        }
      }
    }
  }

  /** files_root: the digest of the covered hashes in list order, or zero where nothing is covered. */
  lemma RootIsOfHashes(checked: seq<Item>, upgrading: bool, sha: seq<Byte> -> Hash) returns (bytes: seq<Byte>)
    ensures var r := ReportOf(checked, upgrading, sha);
            && r.filesRoot == (if r.covered == [] then ZERO_HASH else sha(bytes))
            && |bytes| == 32 * |r.covered|
            && forall k :: 0 <= k < |r.covered| ==> bytes[32 * k..32 * k + 32] == r.covered[k].file.hash
  {
    hide Purge, Waited, Covered, SteadyOnes, HashesOf, TotalSize, Taken, OpenList;
    bytes := HashesOf(ReportOf(checked, upgrading, sha).covered);
    HashesStand(ReportOf(checked, upgrading, sha).covered);
  }
}
