/** How the application spreads space over disks (src/app/process/Srd.cpp). */
module SrdAllocation {
  import opened Bytes
  import opened Text

  function Sum(s: seq<nat>): nat {
    if s == [] then 0 else Sum(s[..|s| - 1]) + s[|s| - 1]
  }

  lemma {:induction false} SumUpdate(s: seq<nat>, i: nat, v: nat)
    requires i < |s|
    ensures Sum(s[i := v]) == Sum(s) - s[i] + v
  {
    var n := |s| - 1;
    if i < n {
      SumUpdate(s[..n], i, v);
      assert s[i := v][..n] == s[..n][i := v];
    } else {
      assert s[i := v][..n] == s[..n];
    }
  }

  lemma {:induction false} SumOfZeros(s: seq<nat>)
    requires forall i :: 0 <= i < |s| ==> s[i] == 0
    ensures Sum(s) == 0
  {
    if s != [] {
      SumOfZeros(s[..|s| - 1]);
    }
  }

  lemma {:induction false} SumBound(s: seq<nat>, i: nat)
    requires i < |s|
    ensures s[i] <= Sum(s)
  {
    if i < |s| - 1 {
      SumBound(s[..|s| - 1], i);
    }
  }

  lemma {:induction false} SomePositive(s: seq<nat>) returns (i: nat)
    requires Sum(s) > 0
    ensures i < |s| && s[i] > 0
  {
    if s[|s| - 1] > 0 {
      i := |s| - 1;
    } else {
      i := SomePositive(s[..|s| - 1]);
    }
  }

  /** The shares after some full rounds and one round that got as far as disk p. */
  predicate Shares(room: seq<nat>, taken: seq<nat>, round: nat, p: nat) {
    && |taken| == |room|
    && forall i :: 0 <= i < |room| ==> taken[i] == Min(room[i], if i < p then round + 1 else round)
  }

  /** Nobody gets more than there is, and one with room left is at most one behind any other. */
  predicate Fair(room: seq<nat>, taken: seq<nat>) {
    && |taken| == |room|
    && (forall i :: 0 <= i < |room| ==> taken[i] <= room[i])
    && (forall i, j :: 0 <= i < |room| && 0 <= j < |room| && taken[i] < room[i] ==> taken[j] <= taken[i] + 1)
  }

  lemma SharesAreFair(room: seq<nat>, taken: seq<nat>, round: nat, p: nat)
    requires Shares(room, taken, round, p)
    ensures Fair(room, taken)
  {
  }

  lemma {:induction false} SumLeft(room: seq<nat>, taken: seq<nat>, left: seq<nat>)
    requires |room| == |taken| == |left| && forall i :: 0 <= i < |room| ==> taken[i] + left[i] == room[i]
    ensures Sum(taken) + Sum(left) == Sum(room)
  {
    if room != [] {
      var n := |room| - 1;
      SumLeft(room[..n], taken[..n], left[..n]);
    }
  }

  /** There are rounds to go while units are to be given out. */
  lemma RoundsLeft(room: seq<nat>, taken: seq<nat>, left: seq<nat>, round: nat, p: nat, acc: nat)
    requires Shares(room, taken, round, p) && |left| == |room|
    requires forall i :: 0 <= i < |room| ==> taken[i] + left[i] == room[i]
    requires acc > 0 && Sum(taken) + acc <= Sum(room)
    ensures room != [] && round < Sum(room)
  {
    SumLeft(room, taken, left);
    var i := SomePositive(left);
    SumBound(room, i);
  }

  /** The cyclic loop: one unit each to the disks with room left, round after round. It ends for any disks. */
  method RoundRobin(room: seq<nat>, wanted: nat) returns (granted: nat, taken: seq<nat>)
    ensures granted == Min(Sum(room), wanted)
    ensures Sum(taken) == granted && Fair(room, taken)
    ensures exists round: nat, p: nat :: p <= |room| && Shares(room, taken, round, p)
  {
    hide Sum;
    granted := Min(Sum(room), wanted);
    var left := room;
    taken := seq(|room|, _ => 0);
    var acc, it: nat := granted, 0;
    ghost var round: nat := 0;
    SumOfZeros(taken);
    while acc > 0
      invariant it <= |room| && (it == |room| ==> room == [])
      invariant |left| == |room| && Shares(room, taken, round, it)
      invariant forall i :: 0 <= i < |room| ==> taken[i] + left[i] == room[i]
      invariant Sum(taken) + acc == granted
      invariant acc > 0 ==> room != [] && round < Sum(room)
      decreases Sum(room) - round, |room| - it
    {
      if left[it] > 0 {
        SumUpdate(taken, it, taken[it] + 1);
        taken := taken[it := taken[it] + 1];
        left := left[it := left[it] - 1];
        acc := acc - 1;
      }
      it := it + 1;
      if it == |room| {
        it, round := 0, round + 1;
      }
      if acc > 0 {
        RoundsLeft(room, taken, left, round, it, acc);
      }
    }
    SharesAreFair(room, taken, round, it);
  }

  // ----- The disks and their room -----

  type FsId = b: seq<Byte> | |b| == 8 witness seq(8, _ => 0)

  /** What asking for a path gives: its directory cannot be made, statfs fails, or the disk. */
  datatype Asked = NoDirectory | NoStat | Disk(id: FsId)

  /** The disk as the text tells it: as many digits as the id has bytes, so half of them. */
  function Told(id: FsId): (t: string)
    ensures |t| == 8
  {
    Hex(id)[..8]
  }

  /** Two disks are told apart exactly by their first four bytes. */
  lemma ToldApart(a: FsId, b: FsId)
    ensures Told(a) == Told(b) <==> a[..4] == b[..4]
  {
    HexFront(a);
    HexFront(b);
    UnhexHex(a[..4]);
    UnhexHex(b[..4]);
  }

  lemma HexFront(a: FsId)
    ensures Told(a) == Hex(a[..4])
  {
    forall i: nat | i < 4 ensures Hex(a)[2 * i] == Hex(a[..4])[2 * i] && Hex(a)[2 * i + 1] == Hex(a[..4])[2 * i + 1] {
      HexAt(a, i);
      HexAt(a[..4], i);
    }
    hide Hex;
    forall k: nat | k < 8 ensures Told(a)[k] == Hex(a[..4])[k] {
      assert k == 2 * (k / 2) || k == 2 * (k / 2) + 1;
    }
  }

  /** The paths before the first failure of statfs, with which the loop ends. */
  function Reached(paths: seq<string>, ask: string -> Asked): (n: nat)
    ensures n <= |paths|
    ensures forall i :: 0 <= i < n ==> !ask(paths[i]).NoStat?
    ensures n < |paths| ==> ask(paths[n]).NoStat?
  {
    if paths == [] || ask(paths[0]).NoStat? then 0 else 1 + Reached(paths[1..], ask)
  }

  predicate SameDisk(ask: string -> Asked, p: string, q: string) {
    ask(p).Disk? && ask(q).Disk? && Told(ask(p).id) == Told(ask(q).id)
  }

  function Valid(paths: seq<string>, ask: string -> Asked, seen: set<string>): seq<string> {
    if paths == [] || ask(paths[0]).NoStat? then []
    else if ask(paths[0]).NoDirectory? || Told(ask(paths[0]).id) in seen then Valid(paths[1..], ask, seen)
    else [paths[0]] + Valid(paths[1..], ask, seen + {Told(ask(paths[0]).id)})
  }

  method ValidPaths(paths: seq<string>, ask: string -> Asked) returns (chosen: seq<string>)
    ensures chosen == Valid(paths, ask, {})
  {
    hide Told;
    chosen := [];
    var seen: set<string> := {};
    var i: nat := 0;
    EmptyLeft(Valid(paths, ask, {}));
    while i < |paths|
      invariant i <= |paths| && Valid(paths, ask, {}) == chosen + Valid(paths[i..], ask, seen)
    {
      assert paths[i..][0] == paths[i] && paths[i..][1..] == paths[i + 1..];
      var d := ask(paths[i]);
      if d.NoStat? {
        EmptyRight(chosen);
        return;
      }
      if d.Disk? && Told(d.id) !in seen {
        Associative(chosen, [paths[i]], Valid(paths[i + 1..], ask, seen + {Told(d.id)}));
        chosen := chosen + [paths[i]];
        seen := seen + {Told(d.id)};
      }
      i := i + 1;
    }
    EmptyRight(chosen);
  }

  /** What is chosen lies before the first failure, and every disk there has its first path chosen. */
  lemma {:induction false} ValidCovers(paths: seq<string>, ask: string -> Asked, seen: set<string>, p: string)
    ensures p in Valid(paths, ask, seen) ==>
              p in paths[..Reached(paths, ask)] && ask(p).Disk? && Told(ask(p).id) !in seen
    ensures p in paths[..Reached(paths, ask)] && ask(p).Disk? && Told(ask(p).id) !in seen ==>
              exists c :: c in Valid(paths, ask, seen) && SameDisk(ask, c, p)
  {
    hide Told;
    if paths != [] && !ask(paths[0]).NoStat? {
      var first, rest := paths[0], paths[1..];
      assert paths[..Reached(paths, ask)] == [first] + rest[..Reached(rest, ask)];
      if ask(first).NoDirectory? || Told(ask(first).id) in seen {
        ValidCovers(rest, ask, seen, p);
      } else {
        var v := Valid(rest, ask, seen + {Told(ask(first).id)});
        ValidCovers(rest, ask, seen + {Told(ask(first).id)}, p);
        assert Valid(paths, ask, seen) == [first] + v;
        if p in paths[..Reached(paths, ask)] && ask(p).Disk? && Told(ask(p).id) !in seen {
          var c := first;
          if Told(ask(p).id) != Told(ask(first).id) {
            c :| c in v && SameDisk(ask, c, p);
          }
          assert c in [first] + v && SameDisk(ask, c, p);
        }
      }
    }
  }

  predicate Apart(ask: string -> Asked, v: seq<string>) {
    forall k, l :: 0 <= k < l < |v| ==> !SameDisk(ask, v[k], v[l])
  }

  /** No two chosen paths are on one disk. */
  lemma {:induction false} ValidApart(paths: seq<string>, ask: string -> Asked, seen: set<string>)
    ensures Apart(ask, Valid(paths, ask, seen))
  {
    hide Told;
    if paths != [] && !ask(paths[0]).NoStat? {
      if ask(paths[0]).NoDirectory? || Told(ask(paths[0]).id) in seen {
        ValidApart(paths[1..], ask, seen);
        assert Valid(paths, ask, seen) == Valid(paths[1..], ask, seen);
      } else {
        var more := seen + {Told(ask(paths[0]).id)};
        var v := Valid(paths[1..], ask, more);
        ValidApart(paths[1..], ask, more);
        forall l | 0 <= l < |v| ensures !SameDisk(ask, paths[0], v[l]) {
          ValidCovers(paths[1..], ask, more, v[l]);
        }
      }
    }
  }

  /** Of several paths on one disk the first is chosen. */
  lemma {:induction false} ValidFirst(paths: seq<string>, ask: string -> Asked, seen: set<string>, i: nat, j: nat)
    requires i < j < |paths| && paths[j] in Valid(paths, ask, seen) && paths[j] !in paths[..j]
    ensures !SameDisk(ask, paths[i], paths[j])
  {
    hide Told;
    var first, rest := paths[0], paths[1..];
    assert first in paths[..j] && rest[j - 1] == paths[j];
    forall p | p in rest[..j - 1] ensures p in paths[..j] {
      var k :| 0 <= k < j - 1 && rest[k] == p;
      assert paths[..j][k + 1] == p;
    }
    var more := if ask(first).NoDirectory? || Told(ask(first).id) in seen then seen else seen + {Told(ask(first).id)};
    assert paths[j] in Valid(rest, ask, more);
    if i == 0 {
      ValidCovers(rest, ask, more, paths[j]);
    } else {
      assert rest[i - 1] == paths[i];
      ValidFirst(rest, ask, more, i - 1, j - 1);
    }
  }

  /** No path is chosen twice. */
  lemma ValidDistinct(paths: seq<string>, ask: string -> Asked)
    ensures Distinct(Valid(paths, ask, {}))
  {
    hide Told, Valid;
    var v := Valid(paths, ask, {});
    ValidApart(paths, ask, {});
    forall k, l | 0 <= k < l < |v| ensures v[k] != v[l] {
      ValidCovers(paths, ask, {}, v[k]);
      assert SameDisk(ask, v[k], v[k]) && !SameDisk(ask, v[k], v[l]);
    }
  }

  /** No two disks among the paths have the same first four bytes. */
  ghost predicate ToldAll(paths: seq<string>, ask: string -> Asked) {
    forall p, q :: p in paths && q in paths && ask(p).Disk? && ask(q).Disk? && ask(p).id[..4] == ask(q).id[..4] ==> ask(p) == ask(q)
  }

  /** Every disk before the first failure has a path chosen exactly when those disks differ in their first four bytes. */
  lemma EveryDiskChosen(paths: seq<string>, ask: string -> Asked)
    ensures var before := paths[..Reached(paths, ask)];
            ToldAll(before, ask) <==>
            forall p :: p in before && ask(p).Disk? ==> exists c :: c in Valid(paths, ask, {}) && ask(c) == ask(p)
  {
    hide Told, Valid, Reached, ToldAll;
    var before, v := paths[..Reached(paths, ask)], Valid(paths, ask, {});
    if ToldAll(before, ask) {
      forall p | p in before && ask(p).Disk? ensures exists c :: c in v && ask(c) == ask(p) {
        ChosenWhenTold(paths, ask, p);
      }
    }
    if forall p :: p in before && ask(p).Disk? ==> exists c :: c in v && ask(c) == ask(p) {
      forall p, q | p in before && q in before && ask(p).Disk? && ask(q).Disk? && ask(p).id[..4] == ask(q).id[..4] ensures ask(p) == ask(q) {
        var c :| c in v && ask(c) == ask(p);
        var d :| d in v && ask(d) == ask(q);
        ToldApart(ask(c).id, ask(d).id);
        ChosenApart(paths, ask, c, d);
      }
      AllTold(before, ask);
    }
  }

  lemma AllTold(paths: seq<string>, ask: string -> Asked)
    requires forall p, q :: p in paths && q in paths && ask(p).Disk? && ask(q).Disk? && ask(p).id[..4] == ask(q).id[..4] ==> ask(p) == ask(q)
    ensures ToldAll(paths, ask)
  {
  }

  lemma ChosenWhenTold(paths: seq<string>, ask: string -> Asked, p: string)
    requires ToldAll(paths[..Reached(paths, ask)], ask) && p in paths[..Reached(paths, ask)] && ask(p).Disk?
    ensures exists c :: c in Valid(paths, ask, {}) && ask(c) == ask(p)
  {
    hide Told, Valid, Reached;
    ValidCovers(paths, ask, {}, p);
    var c :| c in Valid(paths, ask, {}) && SameDisk(ask, c, p);
    ValidCovers(paths, ask, {}, c);
    ToldApart(ask(c).id, ask(p).id);
    assert ask(c) == ask(p);
  }

  lemma ChosenApart(paths: seq<string>, ask: string -> Asked, c: string, d: string)
    requires c in Valid(paths, ask, {}) && d in Valid(paths, ask, {}) && SameDisk(ask, c, d)
    ensures c == d
  {
    hide Told, Valid;
    var v := Valid(paths, ask, {});
    var k :| 0 <= k < |v| && v[k] == c;
    var l :| 0 <= l < |v| && v[l] == d;
    assert SameDisk(ask, v[k], v[l]) && SameDisk(ask, v[l], v[k]);
    ValidApart(paths, ask, {});
  }

  /** What may be used of the free space. */
  function Usable(free: nat, reserved: nat): nat {
    if free <= reserved then 0 else free - reserved
  }

  function UsableAll(free: seq<nat>, reserved: nat): (r: seq<nat>)
    ensures |r| == |free|
  {
    seq(|free|, i requires 0 <= i < |free| => Usable(free[i], reserved))
  }

  function Count(tasks: seq<string>, path: string): nat {
    multiset(tasks)[path]
  }

  /** While tasks are handed out, a path with tasks left is at most one behind any other. */
  ghost predicate Interleaved(paths: seq<string>, increased: seq<nat>, tasks: seq<string>)
    requires |paths| == |increased|
  {
    forall k :: 0 <= k <= |tasks| ==> Fair(increased, CountsOf(paths, tasks[..k]))
  }

  function CountsOf(paths: seq<string>, tasks: seq<string>): (r: seq<nat>)
    ensures |r| == |paths|
  {
    seq(|paths|, i requires 0 <= i < |paths| => Count(tasks, paths[i]))
  }

  lemma CountsStep(paths: seq<string>, tasks: seq<string>, it: nat)
    requires Distinct(paths) && it < |paths|
    ensures CountsOf(paths, tasks + [paths[it]]) == CountsOf(paths, tasks)[it := Count(tasks, paths[it]) + 1]
  {
  }

  /** One entry for each unit, again in rounds. */
  method ExpandTasks(paths: seq<string>, increased: seq<nat>) returns (tasks: seq<string>)
    requires |paths| == |increased| && Distinct(paths)
    ensures |tasks| == Sum(increased) && CountsOf(paths, tasks) == increased
    ensures forall t :: t in tasks ==> t in paths
    ensures Interleaved(paths, increased, tasks)
  {
    hide Sum, Count, Fair;
    tasks := [];
    var left := increased;
    var acc, it: nat := Sum(increased), 0;
    ghost var round: nat := 0;
    NoCounts(paths, increased);
    SumOfZeros(CountsOf(paths, []));
    while acc > 0
      invariant it <= |paths| && (it == |paths| ==> paths == [])
      invariant |left| == |increased| && Shares(increased, CountsOf(paths, tasks), round, it)
      invariant forall i :: 0 <= i < |increased| ==> CountsOf(paths, tasks)[i] + left[i] == increased[i]
      invariant Sum(CountsOf(paths, tasks)) + acc == Sum(increased) && |tasks| + acc == Sum(increased)
      invariant forall t :: t in tasks ==> t in paths
      invariant Interleaved(paths, increased, tasks)
      invariant acc > 0 ==> paths != [] && round < Sum(increased)
      decreases Sum(increased) - round, |paths| - it
    {
      ghost var before := tasks;
      if left[it] > 0 {
        CountsStep(paths, tasks, it);
        SumUpdate(CountsOf(paths, tasks), it, CountsOf(paths, tasks)[it] + 1);
        tasks := tasks + [paths[it]];
        left := left[it := left[it] - 1];
        acc := acc - 1;
      }
      it := it + 1;
      SharesAreFair(increased, CountsOf(paths, tasks), round, it);
      InterleavedMore(paths, increased, before, tasks);
      if it == |paths| {
        it, round := 0, round + 1;
      }
      if acc > 0 {
        RoundsLeft(increased, CountsOf(paths, tasks), left, round, it, acc);
      }
    }
    AllTaken(increased, CountsOf(paths, tasks), left);
  }

  lemma NoCounts(paths: seq<string>, increased: seq<nat>)
    requires |paths| == |increased|
    ensures forall i :: 0 <= i < |paths| ==> CountsOf(paths, [])[i] == 0
    ensures Shares(increased, CountsOf(paths, []), 0, 0) && Interleaved(paths, increased, [])
  {
  }

  lemma InterleavedMore(paths: seq<string>, increased: seq<nat>, before: seq<string>, tasks: seq<string>)
    requires |paths| == |increased| && Interleaved(paths, increased, before)
    requires before <= tasks && |tasks| <= |before| + 1 && Fair(increased, CountsOf(paths, tasks))
    ensures Interleaved(paths, increased, tasks)
  {
    hide Fair, CountsOf;
    forall k | 0 <= k <= |tasks| ensures Fair(increased, CountsOf(paths, tasks[..k])) {
      if k <= |before| {
        assert tasks[..k] == before[..k];
      } else {
        assert tasks[..k] == tasks;
      }
    }
  }

  lemma {:induction false} ZeroSum(s: seq<nat>)
    requires Sum(s) == 0
    ensures forall i :: 0 <= i < |s| ==> s[i] == 0
  {
    if s != [] {
      ZeroSum(s[..|s| - 1]);
    }
  }

  lemma AllTaken(room: seq<nat>, taken: seq<nat>, left: seq<nat>)
    requires |room| == |taken| == |left| && forall i :: 0 <= i < |room| ==> taken[i] + left[i] == room[i]
    requires Sum(taken) == Sum(room)
    ensures taken == room
  {
    SumLeft(room, taken, left);
    ZeroSum(left);
  }

  /** srd_change for a growth: what is done this turn, unit by unit, and what is left for the next. */
  method PlanIncrease(paths: seq<string>, free: seq<nat>, reserved: nat, change: nat)
    returns (tasks: seq<string>, leftover: nat)
    requires |paths| == |free| && Distinct(paths)
    ensures |tasks| + leftover == change && |tasks| == Min(Sum(UsableAll(free, reserved)), change)
    ensures Fair(UsableAll(free, reserved), CountsOf(paths, tasks))
    ensures forall t :: t in tasks ==> t in paths
    ensures Interleaved(paths, CountsOf(paths, tasks), tasks)
    ensures forall i :: 0 <= i < |paths| && CountsOf(paths, tasks)[i] > 0 ==> CountsOf(paths, tasks)[i] + reserved <= free[i]
    ensures leftover > 0 ==> forall i :: 0 <= i < |paths| ==> free[i] <= CountsOf(paths, tasks)[i] + reserved
  {
    var room := UsableAll(free, reserved);
    var granted, increased := RoundRobin(room, change);
    leftover := change - granted;
    tasks := ExpandTasks(paths, increased);
    if leftover > 0 {
      AllTaken(room, increased, seq(|room|, i requires 0 <= i < |room| => room[i] - increased[i]));
    }
  }

  /** get_decrease_srd_info: how much can be taken back at all, and from where. */
  method PlanDecrease(held: seq<nat>, wanted: nat) returns (size: nat, decreased: seq<nat>)
    ensures size == Min(Sum(held), wanted) && Sum(decreased) == size && Fair(held, decreased)
  {
    size, decreased := RoundRobin(held, wanted);
  }
}
