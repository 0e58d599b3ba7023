/** The list of files and the work report (src/enclave/report/Report.cpp, src/enclave/workload/Workload.cpp,
    src/enclave/storage/Storage.cpp). */
module Ledger {
  import opened Bytes
  import opened Text
  import opened FileModel
  import opened MerkleValidate

  /** A file and the number of its sealing, which the code does not have and never reads. */
  datatype Item = Item(id: nat, file: FileEntry)

  const REPORT_LIMIT := 1000

  /** checked_files, new_files and reported_files_idx, the latter in its ascending order. */
  datatype Files = Files(checked: seq<Item>, recent: seq<Item>, reported: seq<nat>, nextId: nat)

  // ----- Sealing, confirming, deleting, merging, checking -----

  function AddFile(w: Files, f: FileEntry): Files {
    w.(recent := w.recent + [Item(w.nextId, f.(current := UNCONFIRMED, waiting := UNCONFIRMED, origin := UNCONFIRMED))],
    nextId := w.nextId + 1)
  }

  predicate Named(it: Item, hash: string) {
    Hex(it.file.hash) == hash
  }

  function SetCurrent(items: seq<Item>, i: nat, status: char): (r: seq<Item>)
    requires i < |items|
    ensures |r| == |items|
  {
    items[i := items[i].(file := items[i].file.(current := status))]
  }

  /** The position of the last item with the name, unconfirmed if asked for. */
  function LastNamed(items: seq<Item>, hash: string, unconfirmed: bool): (r: Option<nat>)
    ensures r.Some? ==> r.value < |items|
  {
    if items == [] then None
    else
      var it := items[|items| - 1];
      if Named(it, hash) && (unconfirmed ==> it.file.current == UNCONFIRMED) then Some(|items| - 1)
      else LastNamed(items[..|items| - 1], hash, unconfirmed)
  }

  lemma LastNamedStep(items: seq<Item>, i: nat, hash: string, unconfirmed: bool)
    requires 0 < i <= |items|
    ensures LastNamed(items[..i], hash, unconfirmed)
         == if Named(items[i - 1], hash) && (unconfirmed ==> items[i - 1].file.current == UNCONFIRMED) then Some(i - 1)
            else LastNamed(items[..i - 1], hash, unconfirmed)
  {
    hide Named;
    assert items[..i][..i - 1] == items[..i - 1] && items[..i][i - 1] == items[i - 1];
  }

  lemma NoneNamed(hash: string)
    ensures LastNamed([], hash, true) == LastNamed([], hash, false) == None
  {
  }

  function FirstNamed(items: seq<Item>, hash: string): (r: Option<nat>)
    ensures r.Some? ==> r.value < |items|
  {
    if items == [] then None
    else if Named(items[0], hash) then Some(0)
    else match FirstNamed(items[1..], hash) case None => None case Some(i) => Some(i + 1)
  }

  /** A name among the checked files is found there even if its status does not change. */
  function ConfirmFile(w: Files, hash: string): Files {
    match LastNamed(w.checked, hash, false)
    case Some(i) =>
      if w.checked[i].file.current == UNCONFIRMED then w.(checked := SetCurrent(w.checked, i, VALID)) else w
    case None =>
      match LastNamed(w.recent, hash, true)
      case Some(i) => w.(recent := SetCurrent(w.recent, i, VALID))
      case None => w
  }

  function DeleteFile(w: Files, hash: string): Files {
    match FirstNamed(w.checked, hash)
    case Some(i) => w.(checked := SetCurrent(w.checked, i, DELETED))
    case None =>
      match LastNamed(w.recent, hash, false)
      case Some(i) => w.(recent := w.recent[..i] + w.recent[i + 1..])
      case None => w
  }

  function MergeFiles(w: Files): Files {
    w.(checked := w.checked + w.recent, recent := [])
  }

  /** One sampled file of a validation round. */
  function CheckOne(w: Files, i: nat, check: Check): Files {
    if i < |w.checked| then
      var status := w.checked[i].file.current;
      if status == UNCONFIRMED || status == DELETED then w
      else w.(checked := SetCurrent(w.checked, i, Checked(status, check)))
    else w
  }

  // ----- The work report -----

  predicate Erasable(f: FileEntry) {
    f.current == DELETED && (f.origin == LOST || f.origin == DELETED || f.origin == UNCONFIRMED)
  }

  predicate Reportable(f: FileEntry) {
    || (f.current == VALID && f.origin == UNCONFIRMED)
    || (f.current == VALID && f.origin == LOST)
    || (f.current == LOST && f.origin == VALID)
    || (f.current == DELETED && f.origin == VALID)
  }

  function Purge(items: seq<Item>): (r: seq<Item>) {
    if items == [] then []
    else
      var n := |items| - 1;
      if Erasable(items[n].file) then Purge(items[..n]) else Purge(items[..n]) + [items[n]]
  }

  /** Every waiting status set to the current one. */
  function Waited(items: seq<Item>): (r: seq<Item>)
    ensures |r| == |items|
  {
    seq(|items|, i requires 0 <= i < |items| => items[i].(file := items[i].file.(waiting := items[i].file.current)))
  }

  /** Of the first REPORT_LIMIT reportable items, the positions. */
  function Queue(items: seq<Item>): (q: seq<nat>)
    ensures |q| <= REPORT_LIMIT && |q| <= |items|
    ensures forall k :: 0 <= k < |q| ==> q[k] < |items|
    decreases |items|, 1
  {
    if items == [] then []
    else
      var n := |items| - 1;
      if TakesLast(items) then Queue(items[..n]) + [n] else Queue(items[..n])
  }

  /** The last of the items is reported with those before it. */
  predicate TakesLast(items: seq<Item>)
    requires items != []
    decreases |items|, 0
  {
    Reportable(items[|items| - 1].file) && |Queue(items[..|items| - 1])| < REPORT_LIMIT
  }

  predicate CoversLast(items: seq<Item>)
    requires items != []
  {
    var f := items[|items| - 1].file;
    if TakesLast(items) then f.current == VALID else f.origin == VALID
  }

  /** What the size and the root of the report speak of. */
  function Covered(items: seq<Item>): seq<Item> {
    if items == [] then []
    else
      var n := |items| - 1;
      if CoversLast(items) then Covered(items[..n]) + [items[n]] else Covered(items[..n])
  }

  function CoveredAt(items: seq<Item>): set<nat> {
    if items == [] then {}
    else
      var n := |items| - 1;
      if CoversLast(items) then CoveredAt(items[..n]) + {n} else CoveredAt(items[..n])
  }

  /** The reported items, those now valid for added and the others for deleted. */
  function Taken(items: seq<Item>, valid: bool): seq<Item> {
    if items == [] then []
    else
      var n := |items| - 1;
      if TakesLast(items) && (items[n].file.current == VALID) == valid then Taken(items[..n], valid) + [items[n]]
      else Taken(items[..n], valid)
  }

  predicate Steady(f: FileEntry) {
    f.current == VALID && f.origin == VALID
  }

  /** What an upgrade report covers. */
  function SteadyOnes(items: seq<Item>): seq<Item> {
    if items == [] then []
    else
      var n := |items| - 1;
      if Steady(items[n].file) then SteadyOnes(items[..n]) + [items[n]] else SteadyOnes(items[..n])
  }

  function SteadyAt(items: seq<Item>): set<nat> {
    if items == [] then {}
    else
      var n := |items| - 1;
      if Steady(items[n].file) then SteadyAt(items[..n]) + {n} else SteadyAt(items[..n])
  }

  function TotalSize(items: seq<Item>): nat {
    if items == [] then 0 else TotalSize(items[..|items| - 1]) + items[|items| - 1].file.oldSize
  }

  function HashesOf(items: seq<Item>): seq<Byte> {
    if items == [] then [] else HashesOf(items[..|items| - 1]) + items[|items| - 1].file.hash
  }

  function Root(items: seq<Item>, sha: seq<Byte> -> Hash): Hash {
    if items == [] then ZERO_HASH else sha(HashesOf(items))
  }

  function ReportedText(f: FileEntry): (s: string)
    ensures s != ""
  {
    "{\"hash\":\"" + Hex(f.oldHash) + "\",\"size\":" + Decimal(f.oldSize) + "}"
  }

  /** The open list: the closing bracket comes at the end. */
  function OpenList(items: seq<Item>): (s: string)
    ensures |s| == 1 <==> items == []
  {
    if items == [] then "["
    else
      var n := |items| - 1;
      (if n == 0 then "[" else OpenList(items[..n]) + ",") + ReportedText(items[n].file)
  }

  datatype Report = Report(filesSize: int, filesRoot: Hash, addedText: string, deletedText: string,
                           covered: seq<Item>, added: seq<Item>, deleted: seq<Item>, upgrading: bool)

  function ReportOf(checked: seq<Item>, upgrading: bool, sha: seq<Byte> -> Hash): Report {
    if upgrading then
      var c := SteadyOnes(Purge(checked));
      Report(TotalSize(c), Root(c, sha), "[]", "[]", c, [], [], true)
    else
      var items := Waited(Purge(checked));
      var c := Covered(items);
      Report(TotalSize(c), Root(c, sha), OpenList(Taken(items, true)) + "]", OpenList(Taken(items, false)) + "]",
             c, Taken(items, true), Taken(items, false), false)
  }

  function AfterReport(w: Files, upgrading: bool): Files {
    var p := Purge(w.checked);
    if upgrading then w.(checked := p, reported := [])
    else w.(checked := Waited(p), reported := Queue(Waited(p)))
  }

  /** handle_report_result: what was waiting is now what the chain knows. */
  function Settle(items: seq<Item>, at: seq<nat>): (r: seq<Item>)
    ensures |r| == |items|
  {
    seq(|items|, i requires 0 <= i < |items| =>
      if i in at then items[i].(file := items[i].file.(origin := items[i].file.waiting)) else items[i])
  }

  function AfterResult(w: Files): Files {
    w.(checked := Settle(w.checked, w.reported), reported := [])
  }

  /** What the loop over the checked files keeps: indexes to hash, size, reported indexes, texts, and the items
      behind them. */
  datatype Tally = Tally(valid: set<nat>, size: int, reported: seq<nat>, addedText: string, deletedText: string,
                         covered: seq<Item>, added: seq<Item>, deleted: seq<Item>)

  ghost predicate Tallied(items: seq<Item>, t: Tally) {
    && t.valid == CoveredAt(items) && t.covered == Covered(items) && t.size == TotalSize(t.covered)
    && t.reported == Queue(items)
    && t.added == Taken(items, true) && t.addedText == OpenList(t.added)
    && t.deleted == Taken(items, false) && t.deletedText == OpenList(t.deleted)
  }

  lemma NothingTaken()
    ensures Tallied([], Tally({}, 0, [], "[", "[", [], [], []))
  {
  }

  /** What one more item adds to the queue, the covered items and the two lists. */
  lemma TakeOneMore(items: seq<Item>, i: nat)
    requires i < |items|
    ensures var it, p := items[i], items[..i];
            var takes, valid := |Queue(p)| < REPORT_LIMIT && Reportable(it.file), it.file.current == VALID;
            var covers := if takes then valid else it.file.origin == VALID;
            && Queue(items[..i + 1]) == (if takes then Queue(p) + [i] else Queue(p))
            && Covered(items[..i + 1]) == (if covers then Covered(p) + [it] else Covered(p))
            && CoveredAt(items[..i + 1]) == (if covers then CoveredAt(p) + {i} else CoveredAt(p))
            && Taken(items[..i + 1], true) == (if takes && valid then Taken(p, true) + [it] else Taken(p, true))
            && Taken(items[..i + 1], false) == (if takes && !valid then Taken(p, false) + [it] else Taken(p, false))
    ensures i !in CoveredAt(items[..i])
  {
    assert items[..i + 1][..i] == items[..i];
    CoveredAtBelow(items[..i]);
  }

  lemma CoveredPrefixes(items: seq<Item>) returns (prefix: nat -> seq<Item>)
    ensures prefix(0) == [] && prefix(|items|) == Covered(items)
    ensures forall j: nat :: j in CoveredAt(items) ==> j < |items|
    ensures forall j: nat :: j < |items| ==>
                               prefix(j + 1) == if j in CoveredAt(items) then prefix(j) + [items[j]] else prefix(j)
  {
    prefix := (j: nat) => if j <= |items| then Covered(items[..j]) else [];
    assert items[..|items|] == items;
    CoveredAtBelow(items);
    forall j: nat | j < |items|
      ensures prefix(j + 1) == if j in CoveredAt(items) then prefix(j) + [items[j]] else prefix(j)
    {
      CoveredAtPrefix(items, j);
      assert items[..j + 1][..j] == items[..j];
    }
  }

  lemma WaitedAt(items: seq<Item>, i: nat)
    requires i < |items|
    ensures Waited(items)[i] == items[i].(file := items[i].file.(waiting := items[i].file.current))
  {
  }

  lemma OpenListSnoc(items: seq<Item>, it: Item)
    ensures OpenList(items + [it]) == (if items == [] then OpenList(items) else OpenList(items) + ",") + ReportedText(it.file)
  {
    hide ReportedText;
    assert (items + [it])[..|items|] == items;
  }

  lemma TotalSizeSnoc(items: seq<Item>, it: Item)
    ensures TotalSize(items + [it]) == TotalSize(items) + it.file.oldSize
  {
    assert (items + [it])[..|items|] == items;
  }

  lemma {:induction false} CoveredAtPrefix(items: seq<Item>, j: nat)
    requires j < |items|
    ensures j in CoveredAt(items) <==> CoversLast(items[..j + 1])
  {
    var n := |items| - 1;
    CoveredAtBelow(items[..n]);
    if j < n {
      CoveredAtPrefix(items[..n], j);
      assert items[..n][..j + 1] == items[..j + 1];
    } else {
      assert items[..j + 1] == items;
    }
  }

  lemma {:induction false} CoveredAtBelow(items: seq<Item>)
    ensures forall j :: j in CoveredAt(items) ==> j < |items|
  {
    if items != [] {
      CoveredAtBelow(items[..|items| - 1]);
    }
  }

  lemma {:induction false} SteadyAtPrefix(items: seq<Item>)
    ensures forall j: nat :: j in SteadyAt(items) <==> j < |items| && Steady(items[j].file)
  {
    if items != [] {
      SteadyAtPrefix(items[..|items| - 1]);
    }
  }

  /** The Workload object, as far as it keeps files. */
  class Workload {
    var checkedFiles: seq<Item>
    var newFiles: seq<Item>
    var reportedFilesIdx: seq<nat>
    var nextId: nat

    ghost function State(): Files
      reads this
    {
      Files(checkedFiles, newFiles, reportedFilesIdx, nextId)
    }

    constructor ()
      ensures State() == Files([], [], [], 0)
    {
      checkedFiles, newFiles, reportedFilesIdx, nextId := [], [], [], 0;
    }

    method AddNewFile(f: FileEntry)
      modifies this
      ensures State() == AddFile(old(State()), f)
    {
      var entry := f.(current := UNCONFIRMED, waiting := UNCONFIRMED, origin := UNCONFIRMED);
      newFiles := newFiles + [Item(nextId, entry)];
      nextId := nextId + 1;
    }

    method Confirm(hash: string) returns (confirmed: bool)
      modifies this
      ensures State() == ConfirmFile(old(State()), hash)
      ensures confirmed <==> LastNamed(old(checkedFiles), hash, false).Some? || LastNamed(old(newFiles), hash, true).Some?
    {
      hide LastNamed, Named;
      confirmed := false;
      var i := |checkedFiles|;
      assert checkedFiles[..i] == checkedFiles;
      while i > 0 && !confirmed
        invariant 0 <= i <= |checkedFiles|
        invariant newFiles == old(newFiles) && reportedFilesIdx == old(reportedFilesIdx) && nextId == old(nextId)
        invariant !confirmed ==> checkedFiles == old(checkedFiles)
                                 && LastNamed(checkedFiles, hash, false) == LastNamed(checkedFiles[..i], hash, false)
        invariant confirmed ==> LastNamed(old(checkedFiles), hash, false).Some? && State() == ConfirmFile(old(State()), hash)
      {
        LastNamedStep(checkedFiles, i, hash, false);
        i := i - 1;
        if Named(checkedFiles[i], hash) {
          if checkedFiles[i].file.current == UNCONFIRMED {
            checkedFiles := SetCurrent(checkedFiles, i, VALID);
          }
          confirmed := true;
        }
      }
      if !confirmed {
        NoneNamed(hash);
        i := |newFiles|;
        assert newFiles[..i] == newFiles;
        while i > 0 && !confirmed
          invariant 0 <= i <= |newFiles|
          invariant checkedFiles == old(checkedFiles) && reportedFilesIdx == old(reportedFilesIdx) && nextId == old(nextId)
          invariant !confirmed ==> newFiles == old(newFiles)
                                   && LastNamed(newFiles, hash, true) == LastNamed(newFiles[..i], hash, true)
          invariant confirmed ==> LastNamed(old(newFiles), hash, true).Some? && State() == ConfirmFile(old(State()), hash)
        {
          LastNamedStep(newFiles, i, hash, true);
          i := i - 1;
          if Named(newFiles[i], hash) {
            if newFiles[i].file.current == UNCONFIRMED {
              newFiles := SetCurrent(newFiles, i, VALID);
              confirmed := true;
            }
          }
        }
      }
    }

    method Delete(hash: string) returns (deleted: bool)
      modifies this
      ensures State() == DeleteFile(old(State()), hash)
      ensures deleted <==> FirstNamed(old(checkedFiles), hash).Some? || LastNamed(old(newFiles), hash, false).Some?
    {
      hide LastNamed, Named;
      deleted := false;
      var i := 0;
      while i < |checkedFiles| && !deleted
        invariant i <= |checkedFiles|
        invariant newFiles == old(newFiles) && reportedFilesIdx == old(reportedFilesIdx) && nextId == old(nextId)
        invariant !deleted ==> checkedFiles == old(checkedFiles)
        invariant !deleted ==> FirstNamed(checkedFiles, hash) ==
                               match FirstNamed(checkedFiles[i..], hash) case None => None case Some(k) => Some(k + i)
        invariant deleted ==> FirstNamed(old(checkedFiles), hash).Some? && State() == DeleteFile(old(State()), hash)
      {
        assert checkedFiles[i..][1..] == checkedFiles[i + 1..];
        if Named(checkedFiles[i], hash) {
          checkedFiles := SetCurrent(checkedFiles, i, DELETED);
          deleted := true;
        }
        i := i + 1;
      }
      if !deleted {
        NoneNamed(hash);
        i := |newFiles|;
        assert newFiles[..i] == newFiles;
        while i > 0 && !deleted
          invariant 0 <= i <= |newFiles|
          invariant checkedFiles == old(checkedFiles) && reportedFilesIdx == old(reportedFilesIdx) && nextId == old(nextId)
          invariant !deleted ==> newFiles == old(newFiles)
                                 && LastNamed(newFiles, hash, false) == LastNamed(newFiles[..i], hash, false)
          invariant deleted ==> LastNamed(old(newFiles), hash, false).Some? && State() == DeleteFile(old(State()), hash)
        {
          LastNamedStep(newFiles, i, hash, false);
          i := i - 1;
          if Named(newFiles[i], hash) {
            newFiles := newFiles[..i] + newFiles[i + 1..];
            deleted := true;
          }
        }
      }
    }

    method Merge()
      modifies this
      ensures State() == MergeFiles(old(State()))
    {
      if |newFiles| > 0 {
        checkedFiles := checkedFiles + newFiles;
        newFiles := [];
      }
    }

    method Check(i: nat, text: Option<string>, wanted: seq<nat>, fetch: string -> Fetch, sha: seq<Byte> -> Hash)
      modifies this
      ensures State() == CheckOne(old(State()), i,
                                  if i < |old(checkedFiles)| then CheckFile(text, Hex(old(checkedFiles)[i].file.hash), wanted, fetch, sha)
                                  else Whole)
    {
      if i >= |checkedFiles| {
        return;
      }
      var f := checkedFiles[i].file;
      var status, check := ValidateFile(f.current, text, Hex(f.hash), wanted, fetch, sha);
      checkedFiles := SetCurrent(checkedFiles, i, status);
    }

    /** The file part of gen_work_report. */
    method Generate(upgrading: bool, sha: seq<Byte> -> Hash) returns (r: Report)
      modifies this
      ensures r == ReportOf(old(checkedFiles), upgrading, sha)
      ensures State() == AfterReport(old(State()), upgrading)
    {
      EraseDeleted();
      reportedFilesIdx := [];
      if upgrading {
        r := CountSteady(sha);
      } else {
        r := FillQueue(sha);
      }
    }

    method EraseDeleted()
      modifies this`checkedFiles
      ensures checkedFiles == Purge(old(checkedFiles))
    {
      ghost var k: nat := 0;
      var i: nat := 0;
      while i < |checkedFiles|
        invariant k <= |old(checkedFiles)| && i <= |checkedFiles|
        invariant checkedFiles[..i] == Purge(old(checkedFiles)[..k])
        invariant checkedFiles[i..] == old(checkedFiles)[k..]
        decreases |checkedFiles| - i
      {
        assert checkedFiles[i] == checkedFiles[i..][0] == old(checkedFiles)[k];
        assert old(checkedFiles)[..k + 1][..k] == old(checkedFiles)[..k];
        assert checkedFiles[i + 1..] == checkedFiles[i..][1..] == old(checkedFiles)[k..][1..] == old(checkedFiles)[k + 1..];
        if Erasable(checkedFiles[i].file) {
          checkedFiles := checkedFiles[..i] + checkedFiles[i + 1..];
        } else {
          assert checkedFiles[..i + 1] == checkedFiles[..i] + [checkedFiles[i]];
          i := i + 1;
        }
        k := k + 1;
      }
      assert checkedFiles[..i] == checkedFiles && old(checkedFiles)[..k] == old(checkedFiles);
    }

    method RootOfIndexes(valid: set<nat>, ghost covered: seq<Item>, sha: seq<Byte> -> Hash, ghost prefix: nat -> seq<Item>)
      returns (root: Hash)
      requires forall j: nat :: j in valid ==> j < |checkedFiles|
      requires prefix(0) == [] && prefix(|checkedFiles|) == covered
      requires forall j: nat :: j < |checkedFiles| ==>
                                  prefix(j + 1) == if j in valid then prefix(j) + [checkedFiles[j]] else prefix(j)
      ensures root == Root(covered, sha)
    {
      var buffer: seq<Byte> := [];
      var j: nat := 0;
      while j < |checkedFiles|
        invariant j <= |checkedFiles| && buffer == HashesOf(prefix(j))
        invariant |buffer| == HASH_LENGTH * |prefix(j)|
      {
        if j in valid {
          assert (prefix(j) + [checkedFiles[j]])[..|prefix(j)|] == prefix(j);
          buffer := buffer + checkedFiles[j].file.hash;
        }
        j := j + 1;
      }
      root := if |buffer| == 0 then ZERO_HASH else sha(buffer);
    }

    method CountSteady(sha: seq<Byte> -> Hash) returns (r: Report)
      ensures var c := SteadyOnes(checkedFiles);
              r == Report(TotalSize(c), Root(c, sha), "[]", "[]", c, [], [], true)
    {
      var valid: set<nat>, size: nat := {}, 0;
      var covered: seq<Item> := [];
      var i: nat := 0;
      while i < |checkedFiles|
        invariant i <= |checkedFiles|
        invariant valid == SteadyAt(checkedFiles[..i]) && covered == SteadyOnes(checkedFiles[..i]) && size == TotalSize(covered)
      {
        assert checkedFiles[..i + 1][..i] == checkedFiles[..i];
        if Steady(checkedFiles[i].file) {
          valid := valid + {i};
          size := size + checkedFiles[i].file.oldSize;
          assert (covered + [checkedFiles[i]])[..|covered|] == covered;
          covered := covered + [checkedFiles[i]];
        }
        i := i + 1;
      }
      assert checkedFiles[..i] == checkedFiles;
      SteadyAtPrefix(checkedFiles);
      ghost var items := checkedFiles;
      ghost var prefix := (j: nat) => if j <= |items| then SteadyOnes(items[..j]) else [];
      forall j: nat | j < |items| ensures prefix(j + 1) == if j in valid then prefix(j) + [items[j]] else prefix(j) {
        assert items[..j + 1][..j] == items[..j];
      }
      var root := RootOfIndexes(valid, covered, sha, prefix);
      r := Report(size, root, "[]", "[]", covered, [], [], true);
    }

    method FillQueue(sha: seq<Byte> -> Hash) returns (r: Report)
      requires reportedFilesIdx == []
      modifies this`checkedFiles, this`reportedFilesIdx
      ensures checkedFiles == Waited(old(checkedFiles)) && reportedFilesIdx == Queue(checkedFiles)
      ensures var c := Covered(checkedFiles);
              r == Report(TotalSize(c), Root(c, sha), OpenList(Taken(checkedFiles, true)) + "]",
                          OpenList(Taken(checkedFiles, false)) + "]", c, Taken(checkedFiles, true), Taken(checkedFiles, false), false)
    {
      hide Queue, CoveredAt, Covered, Taken, TotalSize, OpenList, Root, Waited;
      var t := TallyAll();
      reportedFilesIdx := t.reported;
      ghost var prefix := CoveredPrefixes(checkedFiles);
      var root := RootOfIndexes(t.valid, t.covered, sha, prefix);
      r := Report(t.size, root, t.addedText + "]", t.deletedText + "]", t.covered, t.added, t.deleted, false);
    }

    /** The loop over the checked files, which also writes their waiting status. */
    method TallyAll() returns (t: Tally)
      modifies this`checkedFiles
      ensures checkedFiles == Waited(old(checkedFiles)) && Tallied(checkedFiles, t)
    {
      hide Tallied, Waited;
      ghost var items := Waited(checkedFiles);
      t := Tally({}, 0, [], "[", "[", [], [], []);
      var i: nat := 0;
      NothingTaken();
      while i < |checkedFiles|
        invariant i <= |checkedFiles| == |items| == |old(checkedFiles)|
        invariant forall k :: 0 <= k < i ==> checkedFiles[k] == items[k]
        invariant forall k :: i <= k < |items| ==> checkedFiles[k] == old(checkedFiles)[k]
        invariant Tallied(items[..i], t)
      {
        WaitedAt(old(checkedFiles), i);
        var it := checkedFiles[i].(file := checkedFiles[i].file.(waiting := checkedFiles[i].file.current));
        checkedFiles := checkedFiles[i := it];
        t := CountItem(items, i, it, t);
        i := i + 1;
      }
      assert items[..i] == items == checkedFiles;
    }

    /** One turn of the loop over the checked files. */
    method CountItem(ghost items: seq<Item>, i: nat, it: Item, t: Tally) returns (t': Tally)
      requires i < |items| && it == items[i] && Tallied(items[..i], t)
      ensures Tallied(items[..i + 1], t')
    {
      hide Queue, CoveredAt, Covered, Taken, TotalSize, OpenList, ReportedText, CoversLast, TakesLast;
      TakeOneMore(items, i);
      TotalSizeSnoc(t.covered, it);
      var f := it.file;
      var valid, size, covered := t.valid, t.size, t.covered;
      if f.origin == VALID {
        size := size + f.oldSize;
        valid := valid + {i};
      }
      if |t.reported| < REPORT_LIMIT && Reportable(f) {
        if f.current == LOST || f.current == DELETED {
          OpenListSnoc(t.deleted, it);
          var comma := if |t.deletedText| != 1 then t.deletedText + "," else t.deletedText;
          t' := t.(valid := valid - {i}, size := size - f.oldSize, reported := t.reported + [i],
          deletedText := comma + ReportedText(f), deleted := t.deleted + [it]);
        } else {
          OpenListSnoc(t.added, it);
          var comma := if |t.addedText| != 1 then t.addedText + "," else t.addedText;
          t' := t.(valid := valid + {i}, size := size + f.oldSize, reported := t.reported + [i],
          addedText := comma + ReportedText(f), added := t.added + [it], covered := covered + [it]);
        }
      } else {
        t' := t.(valid := valid, size := size, covered := if f.origin == VALID then covered + [it] else covered);
      }
    }

    method HandleResult()
      modifies this
      ensures State() == AfterResult(old(State()))
    {
      var k: nat := 0;
      while k < |reportedFilesIdx|
        invariant k <= |reportedFilesIdx| && reportedFilesIdx == old(reportedFilesIdx)
        invariant newFiles == old(newFiles) && nextId == old(nextId)
        invariant checkedFiles == Settle(old(checkedFiles), reportedFilesIdx[..k])
      {
        var i := reportedFilesIdx[k];
        assert reportedFilesIdx[..k + 1] == reportedFilesIdx[..k] + [i];
        if i < |checkedFiles| {
          checkedFiles := checkedFiles[i := checkedFiles[i].(file := checkedFiles[i].file.(origin := checkedFiles[i].file.waiting))];
        }
        assert checkedFiles == Settle(old(checkedFiles), reportedFilesIdx[..k + 1]);
        k := k + 1;
      }
      assert reportedFilesIdx[..k] == reportedFilesIdx;
      reportedFilesIdx := [];
    }
  }
}
