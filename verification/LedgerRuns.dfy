/** Runs of the ledger beside the chain: what the chain was told is what the original statuses say. */
module LedgerRuns {
  import opened Bytes
  import opened FileModel
  import opened MerkleValidate
  import opened Ledger

  /** The worker, the set of sealings the chain holds as valid, the report under way and those accepted. */
  datatype World = World(files: Files, chain: set<nat>, pending: Option<Report>, log: seq<Report>)

  /** What happens between two releases of the locks. */
  datatype Step =
    | Seal(file: FileEntry)
    | Confirm(hash: string)
    | Delete(hash: string)
    | Merge
    | CheckStep(index: nat, check: Check)
    | Generate(upgrading: bool)
    | Accept

  function Ids(items: seq<Item>): set<nat> {
    set it | it in items :: it.id
  }

  /** A report that is never accepted is just overwritten by the next one. */
  function Next(w: World, step: Step, sha: seq<Byte> -> Hash): World {
    match step
    case Seal(f) => w.(files := AddFile(w.files, f))
    case Confirm(hash) => w.(files := ConfirmFile(w.files, hash))
    case Delete(hash) => w.(files := DeleteFile(w.files, hash))
    case Merge => w.(files := MergeFiles(w.files))
    case CheckStep(i, check) => w.(files := CheckOne(w.files, i, check))
    case Generate(upgrading) =>
      w.(files := AfterReport(w.files, upgrading), pending := Some(ReportOf(w.files.checked, upgrading, sha)))
    case Accept =>
      if w.pending.None? then w
      else
        var r := w.pending.value;
        World(AfterResult(w.files), w.chain + Ids(r.added) - Ids(r.deleted), None, w.log + [r])
  }

  function Run(w: World, steps: seq<Step>, sha: seq<Byte> -> Hash): World
    decreases |steps|
  {
    if steps == [] then w else Run(Next(w, steps[0], sha), steps[1..], sha)
  }

  const START := World(Files([], [], [], 0), {}, None, [])

  // ----- The invariant -----

  ghost predicate DistinctIds(items: seq<Item>) {
    forall i, j :: 0 <= i < j < |items| ==> items[i].id != items[j].id
  }

  ghost predicate Below(items: seq<Item>, bound: nat) {
    forall i :: 0 <= i < |items| ==> items[i].id < bound
  }

  ghost predicate Apart(a: seq<Item>, b: seq<Item>) {
    forall i, j :: 0 <= i < |a| && 0 <= j < |b| ==> a[i].id != b[j].id
  }

  /** The checked files with original status valid are those on the chain. */
  ghost predicate Mirrors(items: seq<Item>, chain: set<nat>) {
    && (forall i :: 0 <= i < |items| ==> (items[i].id in chain <==> items[i].file.origin == VALID))
    && chain <= Ids(items)
  }

  ghost predicate Unreported(items: seq<Item>) {
    forall i :: 0 <= i < |items| ==> items[i].file.origin != VALID
  }

  /** The report under way lists the marked positions, by what is waiting for them. */
  ghost predicate Listed(items: seq<Item>, at: seq<nat>, r: Report) {
    && (forall i <- at :: i < |items| && (items[i].file.waiting == VALID) != (items[i].file.origin == VALID))
    && (forall i <- at :: i < |items| ==> items[i].id in Ids(if items[i].file.waiting == VALID then r.added else r.deleted))
    && (forall id <- Ids(r.added) :: exists i :: i in at && i < |items| && items[i].id == id && items[i].file.waiting == VALID)
    && (forall id <- Ids(r.deleted) :: exists i :: i in at && i < |items| && items[i].id == id && items[i].file.waiting != VALID)
  }

  ghost predicate ListsOnce(r: Report) {
    DistinctIds(r.added) && DistinctIds(r.deleted)
  }

  ghost predicate Inv(w: World) {
    && DistinctIds(w.files.checked) && DistinctIds(w.files.recent) && Apart(w.files.checked, w.files.recent)
    && Below(w.files.checked, w.files.nextId) && Below(w.files.recent, w.files.nextId)
    && Mirrors(w.files.checked, w.chain) && Unreported(w.files.recent)
    && (w.pending.Some? ==> Listed(w.files.checked, w.files.reported, w.pending.value) && ListsOnce(w.pending.value))
    && w.chain == Replay(w.log) && Lawful(w.log)
  }

  /** The chain's set after the given reports. */
  function Replay(log: seq<Report>): set<nat> {
    if log == [] then {}
    else
      var r := log[|log| - 1];
      Replay(log[..|log| - 1]) + Ids(r.added) - Ids(r.deleted)
  }

  /** Every report adds only what is not there and deletes only what is. */
  ghost predicate Lawful(log: seq<Report>) {
    log == [] ||
    (var r, before := log[|log| - 1], log[..|log| - 1];
     && Lawful(before) && ListsOnce(r)
     && Ids(r.added) !! Replay(before) && Ids(r.deleted) <= Replay(before))
  }

  // ----- Steps that leave the books alone -----

  /** The same files in the same order with the same waiting and original statuses, perhaps more behind them. */
  ghost predicate SameBooks(a: seq<Item>, b: seq<Item>) {
    && |a| == |b|
    && forall i :: 0 <= i < |a| ==>
                     a[i].id == b[i].id && a[i].file.waiting == b[i].file.waiting && a[i].file.origin == b[i].file.origin
  }

  lemma BooksKept(a: seq<Item>, b: seq<Item>, chain: set<nat>, bound: nat)
    requires SameBooks(a, b) && DistinctIds(a) && Below(a, bound) && Mirrors(a, chain)
    ensures DistinctIds(b) && Below(b, bound) && Mirrors(b, chain) && Ids(a) == Ids(b)
  {
    SameIds(a, b);
  }

  lemma SameIds(a: seq<Item>, b: seq<Item>)
    requires |a| == |b| && forall i :: 0 <= i < |a| ==> a[i].id == b[i].id
    ensures Ids(a) == Ids(b)
  {
    forall id ensures id in Ids(a) <==> id in Ids(b) {
      if id in Ids(a) {
        var it := OfId(a, id);
        var i :| 0 <= i < |a| && a[i] == it;
        InIds(b, b[i]);
      }
      if id in Ids(b) {
        var it := OfId(b, id);
        var i :| 0 <= i < |b| && b[i] == it;
        InIds(a, a[i]);
      }
    }
  }

  lemma ListedKept(a: seq<Item>, b: seq<Item>, at: seq<nat>, r: Report)
    requires SameBooks(a, b) && Listed(a, at, r)
    ensures Listed(b, at, r)
  {
    hide Ids;
    forall id | id in Ids(r.added)
      ensures exists i :: i in at && i < |b| && b[i].id == id && b[i].file.waiting == VALID
    {
      var i :| i in at && i < |a| && a[i].id == id && a[i].file.waiting == VALID;
      assert b[i].id == id;
    }
    forall id | id in Ids(r.deleted)
      ensures exists i :: i in at && i < |b| && b[i].id == id && b[i].file.waiting != VALID
    {
      var i :| i in at && i < |a| && a[i].id == id && a[i].file.waiting != VALID;
      assert b[i].id == id;
    }
  }

  lemma BooksStep(w: World, w': World)
    requires Inv(w) && SameBooks(w.files.checked, w'.files.checked)
    requires w' == w.(files := w.files.(checked := w'.files.checked, recent := w'.files.recent, nextId := w'.files.nextId))
    requires DistinctIds(w'.files.recent) && Below(w'.files.recent, w'.files.nextId) && Unreported(w'.files.recent)
    requires Apart(w.files.checked, w'.files.recent) && w.files.nextId <= w'.files.nextId
    ensures Inv(w')
  {
    hide DistinctIds, Mirrors, Listed, ListsOnce, Replay, Lawful;
    BooksKept(w.files.checked, w'.files.checked, w.chain, w.files.nextId);
    if w.pending.Some? {
      ListedKept(w.files.checked, w'.files.checked, w.files.reported, w.pending.value);
    }
  }

  lemma SealKeeps(w: World, f: FileEntry)
    requires Inv(w)
    ensures Inv(w.(files := AddFile(w.files, f)))
  {
    hide Mirrors, Listed, ListsOnce, Replay, Lawful;
    BooksStep(w, w.(files := AddFile(w.files, f)));
  }

  lemma ConfirmKeeps(w: World, hash: string)
    requires Inv(w)
    ensures Inv(w.(files := ConfirmFile(w.files, hash)))
  {
    hide Mirrors, Listed, ListsOnce, Replay, Lawful, LastNamed;
    var w' := w.(files := ConfirmFile(w.files, hash));
    BooksStep(w, w');
  }

  lemma DeleteKeeps(w: World, hash: string)
    requires Inv(w)
    ensures Inv(w.(files := DeleteFile(w.files, hash)))
  {
    hide Mirrors, Listed, ListsOnce, Replay, Lawful, LastNamed, FirstNamed;
    BooksStep(w, w.(files := DeleteFile(w.files, hash)));
  }

  lemma CheckKeeps(w: World, i: nat, check: Check)
    requires Inv(w)
    ensures Inv(w.(files := CheckOne(w.files, i, check)))
  {
    hide Mirrors, Listed, ListsOnce, Replay, Lawful;
    BooksStep(w, w.(files := CheckOne(w.files, i, check)));
  }

  lemma MergeKeeps(w: World)
    requires Inv(w)
    ensures Inv(w.(files := MergeFiles(w.files)))
  {
    hide Replay, Lawful, ListsOnce, Mirrors, Listed;
    var c, n := w.files.checked, w.files.recent;
    MirrorsMore(c, n, w.chain);
    if w.pending.Some? {
      ListedMore(c, n, w.files.reported, w.pending.value);
    }
  }

  lemma IdsConcat(a: seq<Item>, b: seq<Item>)
    ensures Ids(a + b) == Ids(a) + Ids(b)
  {
    forall id ensures id in Ids(a + b) <==> id in Ids(a) || id in Ids(b) {
      if id in Ids(a) {
        var it :| it in a && it.id == id;
        assert it in a + b;
      }
      if id in Ids(b) {
        var it :| it in b && it.id == id;
        assert it in a + b;
      }
    }
  }

  lemma MirrorsMore(c: seq<Item>, n: seq<Item>, chain: set<nat>)
    requires Mirrors(c, chain) && Unreported(n) && Apart(c, n)
    ensures Mirrors(c + n, chain)
  {
    IdsConcat(c, n);
    forall j | 0 <= j < |n| ensures n[j].id !in Ids(c) {
      forall it | it in c ensures it.id != n[j].id {
        var i :| 0 <= i < |c| && c[i] == it;
      }
    }
  }

  lemma ListedMore(c: seq<Item>, n: seq<Item>, at: seq<nat>, r: Report)
    requires Listed(c, at, r)
    ensures Listed(c + n, at, r)
  {
    hide Ids;
    forall id | id in Ids(r.added)
      ensures exists i :: i in at && i < |c + n| && (c + n)[i].id == id && (c + n)[i].file.waiting == VALID
    {
      var i :| i in at && i < |c| && c[i].id == id && c[i].file.waiting == VALID;
      assert (c + n)[i].id == id;
    }
    forall id | id in Ids(r.deleted)
      ensures exists i :: i in at && i < |c + n| && (c + n)[i].id == id && (c + n)[i].file.waiting != VALID
    {
      var i :| i in at && i < |c| && c[i].id == id && c[i].file.waiting != VALID;
      assert (c + n)[i].id == id;
    }
  }

  // ----- Generating a report -----

  lemma {:induction false} PurgeMembers(items: seq<Item>)
    ensures forall it :: it in Purge(items) <==> it in items && !Erasable(it.file)
  {
    if items != [] {
      var n := |items| - 1;
      PurgeMembers(items[..n]);
      assert items == items[..n] + [items[n]];
    }
  }

  lemma {:induction false} PurgeDistinct(items: seq<Item>)
    requires DistinctIds(items)
    ensures DistinctIds(Purge(items))
  {
    if items != [] {
      var n := |items| - 1;
      PurgeDistinct(items[..n]);
      PurgeMembers(items[..n]);
      var p := Purge(items[..n]);
      forall i | 0 <= i < |p| ensures p[i].id != items[n].id {
        assert p[i] in p;
      }
    }
  }

  lemma PurgeKeeps(items: seq<Item>, chain: set<nat>, bound: nat)
    requires DistinctIds(items) && Below(items, bound) && Mirrors(items, chain)
    ensures var p := Purge(items); DistinctIds(p) && Below(p, bound) && Mirrors(p, chain) && Ids(p) <= Ids(items)
  {
    hide Purge;
    var p := Purge(items);
    PurgeMembers(items);
    PurgeDistinct(items);
    forall i | 0 <= i < |p| ensures p[i].id < bound && (p[i].id in chain <==> p[i].file.origin == VALID) {
      assert p[i] in items;
    }
    forall id | id in chain ensures id in Ids(p) {
      var it :| it in items && it.id == id;
      assert !Erasable(it.file);
      assert it in p;
    }
  }

  lemma {:induction false} QueueMembers(items: seq<Item>)
    ensures forall i: nat :: i in Queue(items) <==> i < |items| && TakesLast(items[..i + 1])
  {
    if items != [] {
      var n := |items| - 1;
      QueueMembers(items[..n]);
      assert items[..n + 1] == items;
      forall i: nat ensures i in Queue(items) <==> i < |items| && TakesLast(items[..i + 1]) {
        if i < n {
          assert items[..n][..i + 1] == items[..i + 1];
        }
      }
    }
  }

  lemma {:induction false} TakenMembers(items: seq<Item>, valid: bool)
    ensures forall it :: it in Taken(items, valid) <==>
                         exists i: nat :: i < |items| && i in Queue(items) && items[i] == it && (it.file.current == VALID) == valid
    ensures DistinctIds(items) ==> DistinctIds(Taken(items, valid))
  {
    if items != [] {
      var n := |items| - 1;
      var p := items[..n];
      TakenMembers(p, valid);
      QueueBelow(items);
      forall it ensures it in Taken(items, valid) <==>
                        exists i: nat :: i < |items| && i in Queue(items) && items[i] == it && (it.file.current == VALID) == valid
      {
        TakenOne(items, valid, it);
      }
      if DistinctIds(items) {
        var t := Taken(p, valid);
        forall k | 0 <= k < |t| ensures t[k].id != items[n].id {
          assert t[k] in t;
          var i: nat :| i < |p| && i in Queue(p) && p[i] == t[k];
        }
      }
    }
  }

  lemma QueueBelow(items: seq<Item>)
    requires items != []
    ensures forall i: nat :: i < |items| - 1 ==> (i in Queue(items) <==> i in Queue(items[..|items| - 1]))
    ensures |items| - 1 in Queue(items) <==> TakesLast(items)
    ensures var p := items[..|items| - 1]; forall i :: i in Queue(p) ==> i < |p|
  {
  }

  lemma TakenOne(items: seq<Item>, valid: bool, it: Item)
    requires items != []
    requires var p := items[..|items| - 1];
             it in Taken(p, valid) <==>
                   exists i: nat :: i < |p| && i in Queue(p) && p[i] == it && (it.file.current == VALID) == valid
    ensures it in Taken(items, valid) <==>
            exists i: nat :: i < |items| && i in Queue(items) && items[i] == it && (it.file.current == VALID) == valid
  {
    hide Queue, TakesLast;
    QueueBelow(items);
    var n := |items| - 1;
    var p := items[..n];
    if it in Taken(items, valid) {
      if it in Taken(p, valid) {
        var i: nat :| i < n && i in Queue(p) && p[i] == it && (it.file.current == VALID) == valid;
        assert items[i] == it && i in Queue(items);
      } else {
        assert items[n] == it && n in Queue(items);
      }
    }
    if i: nat :| i < |items| && i in Queue(items) && items[i] == it && (it.file.current == VALID) == valid {
      if i < n {
        assert p[i] == it && i in Queue(p);
      }
    }
  }

  lemma {:induction false} CoveredMembers(items: seq<Item>)
    ensures forall it :: it in Covered(items) <==>
                         exists i: nat :: i < |items| && items[i] == it
                                          && (if i in Queue(items) then it.file.current == VALID else it.file.origin == VALID)
    ensures DistinctIds(items) ==> DistinctIds(Covered(items))
  {
    if items != [] {
      var n := |items| - 1;
      var p := items[..n];
      CoveredMembers(p);
      forall it ensures it in Covered(items) <==>
                        exists i: nat :: i < |items| && items[i] == it
                                         && (if i in Queue(items) then it.file.current == VALID else it.file.origin == VALID)
      {
        CoveredOne(items, it);
      }
      if DistinctIds(items) {
        var t := Covered(p);
        forall k | 0 <= k < |t| ensures t[k].id != items[n].id {
          assert t[k] in t;
          var i: nat :| i < |p| && p[i] == t[k];
        }
      }
    }
  }

  lemma CoveredOne(items: seq<Item>, it: Item)
    requires items != []
    requires var p := items[..|items| - 1];
             it in Covered(p) <==>
                   exists i: nat :: i < |p| && p[i] == it
                                    && (if i in Queue(p) then it.file.current == VALID else it.file.origin == VALID)
    ensures it in Covered(items) <==>
            exists i: nat :: i < |items| && items[i] == it
                             && (if i in Queue(items) then it.file.current == VALID else it.file.origin == VALID)
  {
    hide Queue, TakesLast;
    QueueBelow(items);
    var n := |items| - 1;
    var p := items[..n];
    if it in Covered(items) {
      if it in Covered(p) {
        var i: nat :| i < n && p[i] == it && (if i in Queue(p) then it.file.current == VALID else it.file.origin == VALID);
        assert items[i] == it && (i in Queue(items) <==> i in Queue(p));
      } else {
        assert items[n] == it;
      }
    }
    if i: nat :| i < |items| && items[i] == it && (if i in Queue(items) then it.file.current == VALID else it.file.origin == VALID) {
      if i < n {
        assert p[i] == it;
      }
    }
  }

  lemma QueueReportable(items: seq<Item>, i: nat)
    requires i in Queue(items)
    ensures i < |items| && Reportable(items[i].file)
  {
    QueueMembers(items);
  }

  lemma InIds(items: seq<Item>, it: Item)
    requires it in items
    ensures it.id in Ids(items)
  {
  }

  /** The report lists the queue. */
  lemma QueueListed(items: seq<Item>, r: Report)
    requires forall i :: 0 <= i < |items| ==> items[i].file.waiting == items[i].file.current
    requires r.added == Taken(items, true) && r.deleted == Taken(items, false)
    ensures Listed(items, Queue(items), r)
  {
    hide Queue, Taken, Ids, Reportable;
    var at := Queue(items);
    forall i | i in at
      ensures i < |items| && (items[i].file.waiting == VALID) != (items[i].file.origin == VALID)
              && items[i].id in Ids(if items[i].file.waiting == VALID then r.added else r.deleted)
    {
      QueueListedAt(items, r, i);
    }
    forall id | id in Ids(r.added) ensures exists i :: i in at && i < |items| && items[i].id == id && items[i].file.waiting == VALID {
      var i := TakenFrom(items, true, id);
    }
    forall id | id in Ids(r.deleted) ensures exists i :: i in at && i < |items| && items[i].id == id && items[i].file.waiting != VALID {
      var i := TakenFrom(items, false, id);
    }
  }

  lemma QueueListedAt(items: seq<Item>, r: Report, i: nat)
    requires i in Queue(items) && i < |items| ==> items[i].file.waiting == items[i].file.current
    requires r.added == Taken(items, true) && r.deleted == Taken(items, false) && i in Queue(items)
    ensures i < |items| && (items[i].file.waiting == VALID) != (items[i].file.origin == VALID)
    ensures items[i].id in Ids(if items[i].file.waiting == VALID then r.added else r.deleted)
  {
    hide Queue, Taken, Ids;
    QueueReportable(items, i);
    TakenMembers(items, items[i].file.current == VALID);
    InIds(if items[i].file.waiting == VALID then r.added else r.deleted, items[i]);
  }

  lemma TakenFrom(items: seq<Item>, valid: bool, id: nat) returns (i: nat)
    requires id in Ids(Taken(items, valid))
    ensures i in Queue(items) && i < |items| && items[i].id == id && (items[i].file.current == VALID) == valid
  {
    hide Queue, Taken, Ids;
    TakenMembers(items, valid);
    var it := OfId(Taken(items, valid), id);
    i :| i < |items| && i in Queue(items) && items[i] == it && (it.file.current == VALID) == valid;
  }

  lemma OfId(items: seq<Item>, id: nat) returns (it: Item)
    requires id in Ids(items)
    ensures it in items && it.id == id
  {
    it :| it in items && it.id == id;
  }

  lemma WaitedBooks(items: seq<Item>, chain: set<nat>, bound: nat)
    requires DistinctIds(items) && Below(items, bound) && Mirrors(items, chain)
    ensures var m := Waited(items); DistinctIds(m) && Below(m, bound) && Mirrors(m, chain) && Ids(m) == Ids(items)
  {
    var m := Waited(items);
    forall id ensures id in Ids(m) <==> id in Ids(items) {
      if id in Ids(m) {
        var it := OfId(m, id);
        var i :| 0 <= i < |m| && m[i] == it;
        InIds(items, items[i]);
      }
      if id in Ids(items) {
        var it := OfId(items, id);
        var i :| 0 <= i < |items| && items[i] == it;
        InIds(m, m[i]);
      }
    }
  }

  lemma ApartFewer(a: seq<Item>, b: seq<Item>, c: seq<Item>)
    requires Apart(a, c) && Ids(b) <= Ids(a)
    ensures Apart(b, c)
  {
    forall i, j | 0 <= i < |b| && 0 <= j < |c| ensures b[i].id != c[j].id {
      InIds(b, b[i]);
      var it := OfId(a, b[i].id);
    }
  }

  lemma GenerateKeeps(w: World, upgrading: bool, sha: seq<Byte> -> Hash)
    requires Inv(w)
    ensures Inv(w.(files := AfterReport(w.files, upgrading), pending := Some(ReportOf(w.files.checked, upgrading, sha))))
  {
    hide Purge, Waited, Queue, Covered, SteadyOnes, Taken, Root, OpenList, TotalSize, DistinctIds, Mirrors, Ids, Replay, Lawful;
    var c, p := w.files.checked, Purge(w.files.checked);
    PurgeKeeps(c, w.chain, w.files.nextId);
    ApartFewer(c, p, w.files.recent);
    var r := ReportOf(c, upgrading, sha);
    if upgrading {
      NothingListed(p, r);
    } else {
      WaitedBooks(p, w.chain, w.files.nextId);
      ApartFewer(p, Waited(p), w.files.recent);
      WaitedIsCurrent(p);
      QueueListed(Waited(p), r);
      TakenMembers(Waited(p), true);
      TakenMembers(Waited(p), false);
    }
  }

  lemma WaitedIsCurrent(items: seq<Item>)
    ensures forall i :: 0 <= i < |items| ==> Waited(items)[i].file.waiting == Waited(items)[i].file.current
  {
  }

  lemma NothingListed(items: seq<Item>, r: Report)
    requires r.added == [] && r.deleted == []
    ensures Listed(items, [], r) && ListsOnce(r)
  {
  }

  // ----- The chain accepts -----

  lemma SettleAt(items: seq<Item>, at: seq<nat>)
    ensures var s := Settle(items, at);
            forall i :: 0 <= i < |items| ==> s[i].id == items[i].id
                                             && s[i].file.origin == if i in at then items[i].file.waiting else items[i].file.origin
  {
  }

  /** The lists of the report under way are lawful. */
  lemma ListsAreLawful(items: seq<Item>, at: seq<nat>, r: Report, chain: set<nat>)
    requires Listed(items, at, r) && Mirrors(items, chain)
    ensures Ids(r.added) !! chain && Ids(r.deleted) <= chain && Ids(r.added) !! Ids(r.deleted)
  {
    hide Ids;
    forall id | id in Ids(r.added) ensures id !in chain {
      var i :| i in at && i < |items| && items[i].id == id && items[i].file.waiting == VALID;
    }
    forall id | id in Ids(r.deleted) ensures id in chain {
      var i :| i in at && i < |items| && items[i].id == id && items[i].file.waiting != VALID;
    }
  }

  lemma SettleMirrors(items: seq<Item>, at: seq<nat>, r: Report, chain: set<nat>)
    requires DistinctIds(items) && Mirrors(items, chain) && Listed(items, at, r)
    ensures Mirrors(Settle(items, at), chain + Ids(r.added) - Ids(r.deleted))
    ensures Ids(Settle(items, at)) == Ids(items)
  {
    hide Settle;
    var s, after := Settle(items, at), chain + Ids(r.added) - Ids(r.deleted);
    SettleAt(items, at);
    SameIds(items, s);
    ListsAreLawful(items, at, r, chain);
    hide Ids;
    forall i | 0 <= i < |s| ensures s[i].id in after <==> s[i].file.origin == VALID {
      SettledOne(items, at, r, chain, i);
    }
    forall id | id in after ensures id in Ids(s) {
      if id in Ids(r.added) {
        var i :| i in at && i < |items| && items[i].id == id && items[i].file.waiting == VALID;
        InIds(items, items[i]);
      }
    }
  }

  lemma SettledOne(items: seq<Item>, at: seq<nat>, r: Report, chain: set<nat>, i: nat)
    requires DistinctIds(items) && Mirrors(items, chain) && Listed(items, at, r) && i < |items|
    requires Ids(r.added) !! chain && Ids(r.deleted) <= chain
    ensures items[i].id in chain + Ids(r.added) - Ids(r.deleted) <==>
            (if i in at then items[i].file.waiting == VALID else items[i].file.origin == VALID)
  {
    hide Ids;
    var id := items[i].id;
    if id in Ids(r.added) {
      var j :| j in at && j < |items| && items[j].id == id && items[j].file.waiting == VALID;
      assert i == j;
    }
    if id in Ids(r.deleted) {
      var j :| j in at && j < |items| && items[j].id == id && items[j].file.waiting != VALID;
      assert i == j;
    }
  }

  lemma AcceptKeeps(w: World, sha: seq<Byte> -> Hash)
    requires Inv(w)
    ensures Inv(Next(w, Accept, sha))
  {
    if w.pending.Some? {
      hide Settle, Mirrors, Listed, Ids, Replay, Lawful, DistinctIds, Below, Apart, Unreported, ListsOnce;
      var r, c, at := w.pending.value, w.files.checked, w.files.reported;
      SettleMirrors(c, at, r, w.chain);
      SettleBooks(c, at, w.files.nextId);
      ApartFewer(c, Settle(c, at), w.files.recent);
      ListsAreLawful(c, at, r, w.chain);
      LogMore(w.log, r);
    }
  }

  lemma SettleBooks(items: seq<Item>, at: seq<nat>, bound: nat)
    requires DistinctIds(items) && Below(items, bound)
    ensures DistinctIds(Settle(items, at)) && Below(Settle(items, at), bound)
  {
    SettleAt(items, at);
    hide Settle;
  }

  lemma LogMore(log: seq<Report>, r: Report)
    requires Lawful(log) && ListsOnce(r) && Ids(r.added) !! Replay(log) && Ids(r.deleted) <= Replay(log)
    ensures Lawful(log + [r]) && Replay(log + [r]) == Replay(log) + Ids(r.added) - Ids(r.deleted)
  {
    hide Ids, ListsOnce;
    assert (log + [r])[..|log|] == log;
  }

  // ----- Main results -----

  lemma StartInv()
    ensures Inv(START)
  {
  }

  lemma StepKeeps(w: World, step: Step, sha: seq<Byte> -> Hash)
    requires Inv(w)
    ensures Inv(Next(w, step, sha))
  {
    hide Inv;
    match step
    case Seal(f) => SealKeeps(w, f);
    case Confirm(hash) => ConfirmKeeps(w, hash);
    case Delete(hash) => DeleteKeeps(w, hash);
    case Merge => MergeKeeps(w);
    case CheckStep(i, check) => CheckKeeps(w, i, check);
    case Generate(upgrading) => GenerateKeeps(w, upgrading, sha);
    case Accept => AcceptKeeps(w, sha);
  }

  lemma {:induction false} RunKeeps(w: World, steps: seq<Step>, sha: seq<Byte> -> Hash)
    requires Inv(w)
    ensures Inv(Run(w, steps, sha))
    decreases |steps|
  {
    hide Inv, Next;
    if steps != [] {
      StepKeeps(w, steps[0], sha);
      RunKeeps(Next(w, steps[0], sha), steps[1..], sha);
    }
  }

  /** In every run the checked files whose original status is valid are exactly those the chain holds. */
  lemma OriginMirrorsChain(steps: seq<Step>, sha: seq<Byte> -> Hash)
    ensures var w := Run(START, steps, sha); Mirrors(w.files.checked, w.chain) && Unreported(w.files.recent)
  {
    StartInv();
    RunKeeps(START, steps, sha);
  }

  /** A report's size and root speak of what the chain holds, plus what it adds, minus what it deletes; it adds
      only what the chain has not and deletes only what it has; nothing is covered twice. */
  lemma ReportConserves(w: World, sha: seq<Byte> -> Hash)
    requires Inv(w)
    ensures var r := ReportOf(w.files.checked, false, sha);
            && Ids(r.covered) == w.chain + Ids(r.added) - Ids(r.deleted)
            && Ids(r.added) !! w.chain && Ids(r.deleted) <= w.chain
            && DistinctIds(r.covered) && ListsOnce(r)
            && r.filesSize == TotalSize(r.covered) && r.filesRoot == Root(r.covered, sha)
  {
    hide Purge, Waited, Queue, Covered, Taken, Root, OpenList, TotalSize, Listed, Ids, Replay, Lawful;
    var c, items := w.files.checked, Waited(Purge(w.files.checked));
    var r := ReportOf(c, false, sha);
    PurgeKeeps(c, w.chain, w.files.nextId);
    WaitedBooks(Purge(c), w.chain, w.files.nextId);
    WaitedIsCurrent(Purge(c));
    QueueListed(items, r);
    ListsAreLawful(items, Queue(items), r, w.chain);
    TakenMembers(items, true);
    TakenMembers(items, false);
    CoveredMembers(items);
    CoveredIds(items, r, w.chain);
  }

  lemma CoveredIds(items: seq<Item>, r: Report, chain: set<nat>)
    requires DistinctIds(items) && Mirrors(items, chain) && Listed(items, Queue(items), r)
    requires forall i :: 0 <= i < |items| ==> items[i].file.waiting == items[i].file.current
    requires r.covered == Covered(items) && Ids(r.added) !! chain && Ids(r.deleted) <= chain
    ensures Ids(r.covered) == chain + Ids(r.added) - Ids(r.deleted)
  {
    hide Queue, Covered, Ids, Listed, Mirrors;
    CoveredMembers(items);
    var after := chain + Ids(r.added) - Ids(r.deleted);
    forall id | id in Ids(r.covered) ensures id in after {
      var it := OfId(r.covered, id);
      var i: nat :| i < |items| && items[i] == it && (if i in Queue(items) then it.file.current == VALID else it.file.origin == VALID);
      SettledOne(items, Queue(items), r, chain, i);
    }
    forall id | id in after ensures id in Ids(r.covered) {
      var i := Position(items, Queue(items), r, chain, id);
      SettledOne(items, Queue(items), r, chain, i);
      assert items[i] in r.covered;
      InIds(r.covered, items[i]);
    }
  }

  lemma Position(items: seq<Item>, at: seq<nat>, r: Report, chain: set<nat>, id: nat) returns (i: nat)
    requires Mirrors(items, chain) && Listed(items, at, r) && id in chain + Ids(r.added) - Ids(r.deleted)
    ensures i < |items| && items[i].id == id
  {
    hide Ids;
    if id in Ids(r.added) {
      i :| i in at && i < |items| && items[i].id == id && items[i].file.waiting == VALID;
    } else {
      var it := OfId(items, id);
      i :| i < |items| && items[i] == it;
    }
  }

  /** So it is in every run, whatever was sealed, confirmed, deleted, checked, merged, reported or lost before. */
  lemma EveryReportConserves(steps: seq<Step>, sha: seq<Byte> -> Hash)
    ensures var w := Run(START, steps, sha);
            var r := ReportOf(w.files.checked, false, sha);
            && Ids(r.covered) == w.chain + Ids(r.added) - Ids(r.deleted)
            && Ids(r.added) !! w.chain && Ids(r.deleted) <= w.chain && DistinctIds(r.covered)
  {
    hide Run, ReportOf;
    StartInv();
    RunKeeps(START, steps, sha);
    ReportConserves(Run(START, steps, sha), sha);
  }

  /** A report made while upgrading covers what is valid now and on the chain: all of the chain exactly when no
      file of the chain has another current status. */
  lemma UpgradeReportCovers(w: World, sha: seq<Byte> -> Hash)
    requires Inv(w)
    ensures var r := ReportOf(w.files.checked, true, sha);
            && r.added == r.deleted == [] && Ids(r.covered) <= w.chain
            && (Ids(r.covered) == w.chain <==>
                forall it <- w.files.checked :: it.file.origin == VALID ==> it.file.current == VALID)
  {
    hide Purge, SteadyOnes, Listed, Replay, Lawful, Root, TotalSize, ListsOnce;
    var c, p := w.files.checked, Purge(w.files.checked);
    PurgeMembers(c);
    SteadyMembers(p);
    var r := ReportOf(c, true, sha);
    forall id | id in Ids(r.covered) ensures id in w.chain {
      var it := OfId(r.covered, id);
      var i :| 0 <= i < |c| && c[i] == it;
    }
    if forall it <- c :: it.file.origin == VALID ==> it.file.current == VALID {
      forall id | id in w.chain ensures id in Ids(r.covered) {
        var it := OfId(c, id);
        var i :| 0 <= i < |c| && c[i] == it;
        assert it in r.covered;
      }
    }
    if Ids(r.covered) == w.chain {
      forall it | it in c && it.file.origin == VALID ensures it.file.current == VALID {
        var i :| 0 <= i < |c| && c[i] == it;
        var other := OfId(r.covered, it.id);
        var j :| 0 <= j < |c| && c[j] == other;
      }
    }
  }

  lemma {:induction false} SteadyMembers(items: seq<Item>)
    ensures forall it :: it in SteadyOnes(items) <==> it in items && Steady(it.file)
  {
    if items != [] {
      var n := |items| - 1;
      SteadyMembers(items[..n]);
      assert items == items[..n] + [items[n]];
    }
  }
}
