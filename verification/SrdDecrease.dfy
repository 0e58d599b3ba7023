/** Taking space back inside the enclave (src/enclave/srd/Srd.cpp). */
module SrdDecrease {
  import opened Bytes
  import opened SrdAllocation
  import opened Text

  // ----- Which entries are chosen -----

  /** The given indexes and the last s of a list of the given length. */
  function Layer(length: nat, given: set<nat>, s: nat): set<nat> {
    given + set j: nat | j < length && InLast(j, length, s)
  }

  predicate InLast(j: nat, length: nat, s: nat) {
    length <= j + s
  }

  function Layers(lengths: seq<nat>, given: seq<set<nat>>, s: nat): (r: seq<set<nat>>)
    requires |lengths| == |given|
    ensures |r| == |given|
  {
    seq(|given|, i requires 0 <= i < |given| => Layer(lengths[i], given[i], s))
  }

  lemma LayersAt(lengths: seq<nat>, given: seq<set<nat>>, s: nat)
    requires |lengths| == |given|
    ensures forall k :: 0 <= k < |given| ==> Layers(lengths, given, s)[k] == Layer(lengths[k], given[k], s)
  {
    hide Layer;
  }

  function Cards(chosen: seq<set<nat>>): nat {
    if chosen == [] then 0 else Cards(chosen[..|chosen| - 1]) + |chosen[|chosen| - 1]|
  }

  ghost predicate InRange(lengths: seq<nat>, given: seq<set<nat>>) {
    |given| == |lengths| && forall i :: 0 <= i < |given| ==> forall j <- given[i] :: j < lengths[i]
  }

  lemma {:induction false} CardsUpdate(chosen: seq<set<nat>>, i: nat, c: set<nat>)
    requires i < |chosen|
    ensures Cards(chosen[i := c]) == Cards(chosen) - |chosen[i]| + |c|
  {
    var n := |chosen| - 1;
    if i < n {
      CardsUpdate(chosen[..n], i, c);
      assert chosen[i := c][..n] == chosen[..n][i := c];
    } else {
      assert chosen[i := c][..n] == chosen[..n];
    }
  }

  lemma LayerNext(length: nat, given: set<nat>, s: nat)
    ensures Layer(length, given, s + 1) == if length > s then Layer(length, given, s) + {length - s - 1} else Layer(length, given, s)
  {
  }

  /** What is chosen beyond the given entries is the end of the list: whatever stands behind such an entry is chosen
      too, and there are as many of them as layers, or all. */
  lemma ChosenFromTheBack(length: nat, given: set<nat>, s: nat, j: nat)
    requires j < length && j !in given
    ensures j in Layer(length, given, s) <==> length - j <= s
    ensures j in Layer(length, given, s) ==> forall k :: j <= k < length ==> k in Layer(length, given, s)
    ensures given <= Layer(length, given, s)
  {
  }

  lemma LayerCard(length: nat, given: set<nat>, s: nat)
    ensures |Layer(length, given, s)| <= |Layer(length, given, s + 1)| <= |Layer(length, given, s)| + 1
  {
    LayerNext(length, given, s);
    var a := Layer(length, given, s);
    if length > s && length - s - 1 in a {
      assert a + {length - s - 1} == a;
    }
  }

  lemma {:induction false} RangeCard(n: nat, c: set<nat>)
    requires forall j: nat :: j in c <==> j < n
    ensures |c| == n
  {
    if n == 0 {
      assert c == {};
    } else {
      RangeCard(n - 1, c - {n - 1});
    }
  }

  /** With layers enough everything is chosen. */
  lemma {:induction false} AllChosen(lengths: seq<nat>, given: seq<set<nat>>, s: nat)
    requires InRange(lengths, given) && forall i :: 0 <= i < |lengths| ==> lengths[i] <= s
    ensures Cards(Layers(lengths, given, s)) == Sum(lengths)
  {
    if lengths != [] {
      var n := |lengths| - 1;
      AllChosen(lengths[..n], given[..n], s);
      assert Layers(lengths, given, s)[..n] == Layers(lengths[..n], given[..n], s);
      RangeCard(lengths[n], Layer(lengths[n], given[n], s));
    }
  }

  /** One layer more is at most one entry a path. */
  lemma {:induction false} LayerAdds(lengths: seq<nat>, given: seq<set<nat>>, s: nat)
    requires |lengths| == |given|
    ensures Cards(Layers(lengths, given, s)) <= Cards(Layers(lengths, given, s + 1)) <= Cards(Layers(lengths, given, s)) + |lengths|
  {
    if lengths != [] {
      var n := |lengths| - 1;
      LayerAdds(lengths[..n], given[..n], s);
      assert Layers(lengths, given, s)[..n] == Layers(lengths[..n], given[..n], s);
      assert Layers(lengths, given, s + 1)[..n] == Layers(lengths[..n], given[..n], s + 1);
      LayerCard(lengths[n], given[n], s);
    }
  }

  /** The least number of layers with which the wanted number is reached. */
  ghost predicate Least(lengths: seq<nat>, given: seq<set<nat>>, wanted: int, s: nat)
    requires |lengths| == |given|
  {
    && Cards(Layers(lengths, given, s)) >= wanted
    && (s > 0 ==> Cards(Layers(lengths, given, s - 1)) < wanted)
  }

  /** Too many are chosen only by less than one a path, unless the given ones were too many already. */
  lemma Overshoot(lengths: seq<nat>, given: seq<set<nat>>, wanted: int, s: nat)
    requires |lengths| == |given| && Least(lengths, given, wanted, s)
    ensures s > 0 ==> Cards(Layers(lengths, given, s)) - wanted < |lengths|
    ensures s == 0 <==> Cards(given) >= wanted
  {
    hide Cards, Layers;
    NoLayer(lengths, given);
    if s > 0 {
      LayerAdds(lengths, given, s - 1);
      LayersGrow(lengths, given, s - 1);
    }
  }

  /** The punishment of validate_srd: twice as many go as failed, or all there are, and less than one a path more. */
  lemma Punishment(lengths: seq<nat>, failed: seq<set<nat>>, s: nat)
    requires InRange(lengths, failed) && 0 < Cards(failed)
    requires Least(lengths, failed, Min(2 * Cards(failed), Sum(lengths)), s)
    ensures var wanted := Min(2 * Cards(failed), Sum(lengths));
            wanted <= Cards(Layers(lengths, failed, s)) < wanted + |lengths|
  {
    hide Cards, Layers, Sum, InRange;
    GivenWithin(lengths, failed);
    Overshoot(lengths, failed, Min(2 * Cards(failed), Sum(lengths)), s);
    NoLayer(lengths, failed);
    if lengths == [] {
      NoCards();
    }
  }

  lemma NoCards()
    ensures Cards([]) == 0
  {
  }

  lemma {:induction false} GivenWithin(lengths: seq<nat>, given: seq<set<nat>>)
    requires InRange(lengths, given)
    ensures Cards(given) <= Sum(lengths) && |given| == |lengths|
  {
    if lengths != [] {
      var n := |lengths| - 1;
      GivenWithin(lengths[..n], given[..n]);
      SetBelow(given[n], lengths[n]);
    }
  }

  lemma SetBelow(c: set<nat>, n: nat)
    requires forall j <- c :: j < n
    ensures |c| <= n
  {
    var all := Layer(n, {}, n);
    RangeCard(n, all);
    SubsetCard(c, all);
  }

  lemma {:induction false} SubsetCard(a: set<nat>, b: set<nat>)
    requires a <= b
    ensures |a| <= |b|
    decreases b
  {
    if a != {} {
      var x :| x in a;
      SubsetCard(a - {x}, b - {x});
    }
  }

  lemma NoLayer(lengths: seq<nat>, given: seq<set<nat>>)
    requires |lengths| == |given|
    ensures Layers(lengths, given, 0) == given
  {
    forall i | 0 <= i < |given| ensures Layer(lengths[i], given[i], 0) == given[i] {
    }
  }

  lemma {:induction false} LayersGrow(lengths: seq<nat>, given: seq<set<nat>>, s: nat)
    requires |lengths| == |given|
    ensures Cards(given) <= Cards(Layers(lengths, given, s))
  {
    hide Cards, Layers;
    NoLayer(lengths, given);
    if s > 0 {
      LayersGrow(lengths, given, s - 1);
      LayerAdds(lengths, given, s - 1);
    }
  }

  /** The least number is unique. */
  lemma LeastUnique(lengths: seq<nat>, given: seq<set<nat>>, wanted: int, s: nat, t: nat)
    requires |lengths| == |given| && Least(lengths, given, wanted, s) && Least(lengths, given, wanted, t)
    ensures s == t
  {
    hide Cards, Layers;
    if s < t {
      LayersOrdered(lengths, given, s, t - 1);
    } else if t < s {
      LayersOrdered(lengths, given, t, s - 1);
    }
  }

  lemma {:induction false} LayersOrdered(lengths: seq<nat>, given: seq<set<nat>>, s: nat, t: nat)
    requires |lengths| == |given| && s <= t
    ensures Cards(Layers(lengths, given, s)) <= Cards(Layers(lengths, given, t))
    decreases t
  {
    hide Cards, Layers;
    if s < t {
      LayersOrdered(lengths, given, s, t - 1);
      LayerAdds(lengths, given, t - 1);
    }
  }

  // ----- When exactly what was asked for goes -----

  /** Too many are chosen exactly when no number of layers has the wanted number of entries. */
  lemma ExactWhen(lengths: seq<nat>, given: seq<set<nat>>, wanted: int, s: nat)
    requires |lengths| == |given| && Least(lengths, given, wanted, s)
    ensures Cards(Layers(lengths, given, s)) == wanted <==> exists r: nat :: Cards(Layers(lengths, given, r)) == wanted
  {
    hide Cards, Layers;
    if r: nat :| Cards(Layers(lengths, given, r)) == wanted {
      if r < s {
        LayersOrdered(lengths, given, r, s - 1);
      } else {
        LayersOrdered(lengths, given, s, r);
      }
    }
  }

  /** What r layers hold when nothing is given. */
  function Level(lengths: seq<nat>, r: nat): nat {
    if lengths == [] then 0 else Level(lengths[..|lengths| - 1], r) + Min(lengths[|lengths| - 1], r)
  }

  function Nothing(n: nat): (given: seq<set<nat>>)
    ensures |given| == n
  {
    seq(n, _ => {})
  }

  lemma {:induction false} LayersOfNothing(lengths: seq<nat>, r: nat)
    ensures Cards(Layers(lengths, Nothing(|lengths|), r)) == Level(lengths, r)
  {
    if lengths != [] {
      var n := |lengths| - 1;
      LayersOfNothing(lengths[..n], r);
      assert Layers(lengths, Nothing(n + 1), r)[..n] == Layers(lengths[..n], Nothing(n), r);
      LayerOfNothing(lengths[n], r);
    }
  }

  lemma {:induction false} LayerOfNothing(length: nat, r: nat)
    ensures |Layer(length, {}, r)| == Min(length, r)
  {
    hide Layer;
    if r == 0 {
      LayerFresh(length, 0);
    } else {
      LayerOfNothing(length, r - 1);
      LayerNext(length, {}, r - 1);
      LayerFresh(length, r - 1);
    }
  }

  lemma LayerFresh(length: nat, r: nat)
    ensures Layer(length, {}, 0) == {}
    ensures length > r ==> length - r - 1 !in Layer(length, {}, r)
  {
  }

  /** With nothing given, as when the application asks, a change is met exactly when it is such a level of the lengths. */
  lemma ExactWithoutGiven(lengths: seq<nat>, change: int, s: nat)
    requires Least(lengths, Nothing(|lengths|), change, s)
    ensures Cards(Layers(lengths, Nothing(|lengths|), s)) == change <==> exists r: nat :: Level(lengths, r) == change
  {
    hide Cards, Layers, Level;
    ExactWhen(lengths, Nothing(|lengths|), change, s);
    forall r: nat ensures Cards(Layers(lengths, Nothing(|lengths|), r)) == Level(lengths, r) {
      LayersOfNothing(lengths, r);
    }
    if r: nat :| Level(lengths, r) == change {
      assert Cards(Layers(lengths, Nothing(|lengths|), r)) == change;
    }
    if r: nat :| Cards(Layers(lengths, Nothing(|lengths|), r)) == change {
      assert Level(lengths, r) == change;
    }
  }

  /** The bound is reached: of n paths with one hash each all hashes go when one is asked for. */
  lemma OvershootIsTight(n: nat)
    requires n > 0
    ensures var lengths, given := Ones(n), Nothing(n);
            InRange(lengths, given) && Least(lengths, given, 1, 1) && Cards(Layers(lengths, given, 1)) == n
    ensures n > 1 ==> forall r: nat :: Cards(Layers(Ones(n), Nothing(n), r)) != 1
  {
    LayersOfNothing(Ones(n), 0);
    LayersOfNothing(Ones(n), 1);
    LevelOfOnes(n, 0);
    LevelOfOnes(n, 1);
    hide Cards, Layers, Level, Ones;
    if n > 1 {
      ExactWhen(Ones(n), Nothing(n), 1, 1);
    }
  }

  function Ones(n: nat): (lengths: seq<nat>)
    ensures |lengths| == n
  {
    seq(n, _ => 1)
  }

  lemma {:induction false} LevelOfOnes(n: nat, r: nat)
    ensures Level(Ones(n), r) == n * Min(1, r)
  {
    if n > 0 {
      LevelOfOnes(n - 1, r);
      assert Ones(n)[..n - 1] == Ones(n - 1);
    }
  }

  lemma LayersInRange(lengths: seq<nat>, given: seq<set<nat>>, s: nat)
    requires InRange(lengths, given)
    ensures InRange(lengths, Layers(lengths, given, s))
  {
  }

  // ----- What is left -----

  /** The hashes from position j on whose index is not gone, in order. */
  function Survivors(hs: seq<Hash>, gone: set<nat>, j: nat): seq<Hash>
    decreases |hs| - j
  {
    if j >= |hs| then []
    else if j in gone then Survivors(hs, gone, j + 1)
    else [hs[j]] + Survivors(hs, gone, j + 1)
  }

  /** The hashes gone, from the back. */
  function Removed(hs: seq<Hash>, gone: set<nat>, j: nat): seq<Hash>
    decreases |hs| - j
  {
    if j >= |hs| then []
    else if j in gone then Removed(hs, gone, j + 1) + [hs[j]]
    else Removed(hs, gone, j + 1)
  }

  function KeptIndexes(length: nat, gone: set<nat>, j: nat): seq<nat>
    decreases length - j
  {
    if j >= length then []
    else if j in gone then KeptIndexes(length, gone, j + 1)
    else [j] + KeptIndexes(length, gone, j + 1)
  }

  lemma {:induction false} KeptInOrder(length: nat, gone: set<nat>, j: nat)
    ensures var k := KeptIndexes(length, gone, j);
            && (forall a, b :: 0 <= a < b < |k| ==> k[a] < k[b])
            && (forall x: nat :: x in k <==> j <= x < length && x !in gone)
    decreases length - j
  {
    if j < length {
      KeptInOrder(length, gone, j + 1);
      var tail := KeptIndexes(length, gone, j + 1);
      forall a | 0 <= a < |tail| ensures j < tail[a] {
        assert tail[a] in tail;
      }
    }
  }

  /** The survivors are the hashes at the kept indexes, which ascend. */
  lemma {:induction false} SurvivorsKept(hs: seq<Hash>, gone: set<nat>, j: nat)
    ensures var s, k := Survivors(hs, gone, j), KeptIndexes(|hs|, gone, j);
            |s| == |k| && forall a :: 0 <= a < |s| ==> k[a] < |hs| && s[a] == hs[k[a]]
    decreases |hs| - j
  {
    if j < |hs| {
      SurvivorsKept(hs, gone, j + 1);
      if j !in gone {
        OneMoreKept(hs, Survivors(hs, gone, j + 1), KeptIndexes(|hs|, gone, j + 1), j);
      }
    }
  }

  lemma OneMoreKept(hs: seq<Hash>, s: seq<Hash>, k: seq<nat>, j: nat)
    requires |s| == |k| && j < |hs| && forall a :: 0 <= a < |s| ==> k[a] < |hs| && s[a] == hs[k[a]]
    ensures var s', k' := [hs[j]] + s, [j] + k;
            |s'| == |k'| && forall a :: 0 <= a < |s'| ==> k'[a] < |hs| && s'[a] == hs[k'[a]]
  {
  }

  /** The indexes gone, from the back. */
  function GoneIndexes(length: nat, gone: set<nat>, j: nat): seq<nat>
    decreases length - j
  {
    if j >= length then []
    else if j in gone then GoneIndexes(length, gone, j + 1) + [j]
    else GoneIndexes(length, gone, j + 1)
  }

  lemma {:induction false} GoneInOrder(length: nat, gone: set<nat>, j: nat)
    ensures var g := GoneIndexes(length, gone, j);
            && (forall a, b :: 0 <= a < b < |g| ==> g[a] > g[b])
            && (forall x: nat :: x in g <==> j <= x < length && x in gone)
    decreases length - j
  {
    if j < length {
      GoneInOrder(length, gone, j + 1);
      var front := GoneIndexes(length, gone, j + 1);
      forall a | 0 <= a < |front| ensures front[a] > j {
        assert front[a] in front;
      }
    }
  }

  /** The removed are the hashes at the indexes gone, which descend: the file deleted is the one whose entry left. */
  lemma {:induction false} RemovedGone(hs: seq<Hash>, gone: set<nat>, j: nat)
    ensures var r, g := Removed(hs, gone, j), GoneIndexes(|hs|, gone, j);
            |r| == |g| && forall a :: 0 <= a < |r| ==> g[a] < |hs| && r[a] == hs[g[a]]
    decreases |hs| - j
  {
    if j < |hs| {
      RemovedGone(hs, gone, j + 1);
    }
  }

  /** Kept and removed together are the list again. */
  lemma {:induction false} NothingElseGoes(hs: seq<Hash>, gone: set<nat>, j: nat)
    requires j <= |hs|
    ensures multiset(hs[j..]) == multiset(Survivors(hs, gone, j)) + multiset(Removed(hs, gone, j))
    decreases |hs| - j
  {
    if j < |hs| {
      NothingElseGoes(hs, gone, j + 1);
      assert hs[j..] == [hs[j]] + hs[j + 1..];
    }
  }

  lemma {:induction false} RemovedCount(hs: seq<Hash>, gone: set<nat>, j: nat)
    requires forall x <- gone :: x < |hs|
    ensures |Removed(hs, gone, j)| == |set x | x in gone && x >= j|
    ensures |Survivors(hs, gone, j)| + |Removed(hs, gone, j)| == if j < |hs| then |hs| - j else 0
    decreases |hs| - j
  {
    if j < |hs| {
      RemovedCount(hs, gone, j + 1);
      var a, b := set x | x in gone && x >= j, set x | x in gone && x >= j + 1;
      assert a == if j in gone then b + {j} else b;
    } else {
      assert (set x | x in gone && x >= j) == {};
    }
  }

  lemma NeverMoreThanAll(lengths: seq<nat>, given: seq<set<nat>>, change: int)
    requires InRange(lengths, given) && change > Sum(lengths)
    ensures forall r: nat :: Cards(Layers(lengths, given, r)) != change
  {
    hide Cards, Layers, Sum;
    forall r: nat ensures Cards(Layers(lengths, given, r)) != change {
      LayersInRange(lengths, given, r);
      GivenWithin(lengths, Layers(lengths, given, r));
    }
  }

  /** As many entries go from the lists as are chosen. */
  lemma {:induction false} RemovedAll(hashes: seq<seq<Hash>>, chosen: seq<set<nat>>)
    requires InRange(LengthsOf(hashes), chosen)
    ensures Sum(LengthsOf(hashes)) == Sum(LengthsOf(AllSurvivors(hashes, chosen))) + Cards(chosen)
    ensures Sum(LengthsOf(AllRemoved(hashes, chosen))) == Cards(chosen)
  {
    if hashes != [] {
      var n := |hashes| - 1;
      assert InRange(LengthsOf(hashes[..n]), chosen[..n]);
      RemovedAll(hashes[..n], chosen[..n]);
      RemovedCount(hashes[n], chosen[n], 0);
      assert (set x | x in chosen[n] && x >= 0) == chosen[n];
      assert LengthsOf(hashes)[..n] == LengthsOf(hashes[..n]);
      assert LengthsOf(AllSurvivors(hashes, chosen))[..n] == LengthsOf(AllSurvivors(hashes[..n], chosen[..n]));
      assert LengthsOf(AllRemoved(hashes, chosen))[..n] == LengthsOf(AllRemoved(hashes[..n], chosen[..n]));
    }
  }

  /** Of the lists exactly the number asked for goes when it is zero, with which the decrease returns at once whatever is
      given, or some number of layers has as many entries; else more goes, or all there is. */
  lemma TakesWhatIsAsked(hashes: seq<seq<Hash>>, given: seq<set<nat>>, change: int, s: nat)
    requires InRange(LengthsOf(hashes), given) && Min(change, Sum(LengthsOf(hashes))) != 0
    requires Least(LengthsOf(hashes), given, Min(change, Sum(LengthsOf(hashes))), s)
    ensures var lengths, chosen := LengthsOf(hashes), Layers(LengthsOf(hashes), given, s);
            var taken := Sum(lengths) - Sum(LengthsOf(AllSurvivors(hashes, chosen)));
            && taken == Cards(chosen)
            && (taken == change <==> exists r: nat :: Cards(Layers(lengths, given, r)) == change)
            && Min(change, Sum(lengths)) <= taken <= Sum(lengths)
            && (taken < Min(change, Sum(lengths)) + |lengths| || (taken == Cards(given) && s == 0))
  {
    var lengths, chosen := LengthsOf(hashes), Layers(LengthsOf(hashes), given, s);
    var wanted := Min(change, Sum(lengths));
    LayersInRange(lengths, given, s);
    RemovedAll(hashes, chosen);
    hide Cards, Layers, Sum, InRange, LengthsOf, AllSurvivors;
    GivenWithin(lengths, chosen);
    ExactWhen(lengths, given, wanted, s);
    Overshoot(lengths, given, wanted, s);
    NoLayer(lengths, given);
    if r: nat :| Cards(Layers(lengths, given, r)) == change {
      LayersInRange(lengths, given, r);
      GivenWithin(lengths, Layers(lengths, given, r));
    }
  }

  // ----- The record of assigned space -----

  /** srd_info_json: a path without a record reads as zero, and no record falls below zero. */
  type Record = map<string, nat>

  function Recorded(r: Record, path: string): nat {
    if path in r then r[path] else 0
  }

  function Adjust(r: Record, path: string, change: int): Record {
    var v := Recorded(r, path) + change;
    r[path := if v < 0 then 0 else v]
  }

  /** How many of the files could be deleted. */
  function Successes(path: string, hashes: seq<Hash>, deletable: (string, Hash) -> bool): (n: nat)
    ensures n <= |hashes|
  {
    if hashes == [] then 0
    else Successes(path, hashes[..|hashes| - 1], deletable) + (if deletable(path, hashes[|hashes| - 1]) then 1 else 0)
  }

  /** It is the number of positions whose file could be deleted. */
  lemma {:induction false} SuccessesCount(path: string, hashes: seq<Hash>, deletable: (string, Hash) -> bool)
    ensures Successes(path, hashes, deletable) == |set k: nat | k < |hashes| && deletable(path, hashes[k])|
  {
    var all := set k: nat | k < |hashes| && deletable(path, hashes[k]);
    if hashes == [] {
      assert all == {};
    } else {
      var n := |hashes| - 1;
      SuccessesCount(path, hashes[..n], deletable);
      var less := set k: nat | k < |hashes[..n]| && deletable(path, hashes[..n][k]);
      assert all == if deletable(path, hashes[n]) then less + {n} else less;
    }
  }

  function AllRemoved(hashes: seq<seq<Hash>>, chosen: seq<set<nat>>): (r: seq<seq<Hash>>)
    requires |hashes| == |chosen|
    ensures |r| == |hashes|
  {
    seq(|hashes|, i requires 0 <= i < |hashes| => Removed(hashes[i], chosen[i], 0))
  }

  function AllSurvivors(hashes: seq<seq<Hash>>, chosen: seq<set<nat>>): (r: seq<seq<Hash>>)
    requires |hashes| == |chosen|
    ensures |r| == |hashes|
  {
    seq(|hashes|, i requires 0 <= i < |hashes| => Survivors(hashes[i], chosen[i], 0))
  }

  /** Of each list exactly what is not kept is removed. */
  ghost predicate Apportioned(before: seq<seq<Hash>>, kept: seq<seq<Hash>>, removed: seq<seq<Hash>>) {
    && |kept| == |removed| == |before|
    && forall i :: 0 <= i < |before| ==> multiset(before[i]) == multiset(kept[i]) + multiset(removed[i])
  }

  lemma AllApportioned(hashes: seq<seq<Hash>>, chosen: seq<set<nat>>)
    requires |hashes| == |chosen|
    ensures Apportioned(hashes, AllSurvivors(hashes, chosen), AllRemoved(hashes, chosen))
  {
    hide Survivors, Removed;
    forall i | 0 <= i < |hashes|
      ensures multiset(hashes[i]) == multiset(Survivors(hashes[i], chosen[i], 0)) + multiset(Removed(hashes[i], chosen[i], 0))
    {
      NothingElseGoes(hashes[i], chosen[i], 0);
      assert hashes[i][0..] == hashes[i];
    }
  }

  /** The record after the removal: each path with removed entries is lowered by their number. */
  function RecordAfter(r: Record, paths: seq<string>, removed: seq<seq<Hash>>): Record
    requires |paths| == |removed|
  {
    if paths == [] then r
    else
      var n := |paths| - 1;
      var before := RecordAfter(r, paths[..n], removed[..n]);
      if removed[n] == [] then before else Adjust(before, paths[n], -|removed[n]|)
  }

  function TotalSuccesses(paths: seq<string>, removed: seq<seq<Hash>>, deletable: (string, Hash) -> bool): nat
    requires |paths| == |removed|
  {
    if paths == [] then 0
    else
      var n := |paths| - 1;
      TotalSuccesses(paths[..n], removed[..n], deletable) + Successes(paths[n], removed[n], deletable)
  }

  function LengthsOf(hashes: seq<seq<Hash>>): (r: seq<nat>)
    ensures |r| == |hashes|
  {
    seq(|hashes|, i requires 0 <= i < |hashes| => |hashes[i]|)
  }

  /** The lists of hashes by path, in map order, and the record of assigned space. */
  class Srd {
    var paths: seq<string>
    var hashes: seq<seq<Hash>>
    var record: Record

    ghost predicate Valid()
      reads this
    {
      |paths| == |hashes| && Distinct(paths)
    }

    /** srd_decrease: the given indexes and then layer after layer from the back. */
    method Decrease(change: int, given: seq<set<nat>>, deletable: (string, Hash) -> bool) returns (deleted: nat)
      requires Valid() && InRange(LengthsOf(hashes), given)
      modifies this`hashes, this`record
      ensures Valid()
      ensures var wanted := Min(change, Sum(LengthsOf(old(hashes))));
              if wanted == 0 then deleted == 0 && hashes == old(hashes) && record == old(record)
              else
                exists s: nat ::
                  && Least(LengthsOf(old(hashes)), given, wanted, s)
                  && (var chosen := Layers(LengthsOf(old(hashes)), given, s);
                      var removed := AllRemoved(old(hashes), chosen);
                      && hashes == AllSurvivors(old(hashes), chosen) && Apportioned(old(hashes), hashes, removed)
                      && record == RecordAfter(old(record), paths, removed)
                      && deleted == TotalSuccesses(paths, removed, deletable))
      ensures var lengths := LengthsOf(old(hashes));
              (change == 0 || exists r: nat :: Cards(Layers(lengths, given, r)) == change) <==>
              Sum(lengths) - Sum(LengthsOf(hashes)) == change
    {
      hide Sum, Cards, Layers, AllRemoved, AllSurvivors, RecordAfter, TotalSuccesses, Apportioned;
      var total := SumOfLengths();
      var wanted := Min(change, total);
      ghost var lengths := LengthsOf(hashes);
      if wanted == 0 {
        if change > total {
          NeverMoreThanAll(lengths, given, change);
        }
        return 0;
      }
      var chosen := Choose(wanted, given);
      ghost var s: nat :| Least(lengths, given, wanted, s) && chosen == Layers(lengths, given, s);
      TakesWhatIsAsked(hashes, given, change, s);
      AllApportioned(hashes, chosen);
      var removed := Remove(chosen);
      deleted := DeleteFiles(removed, deletable);
    }

    method SumOfLengths() returns (total: nat)
      ensures total == Sum(LengthsOf(hashes))
    {
      total := 0;
      var i: nat := 0;
      while i < |hashes|
        invariant i <= |hashes| && total == Sum(LengthsOf(hashes)[..i])
      {
        assert LengthsOf(hashes)[..i + 1][..i] == LengthsOf(hashes)[..i];
        total := total + |hashes[i]|;
        i := i + 1;
      }
      assert LengthsOf(hashes)[..i] == LengthsOf(hashes);
    }

    method CountGiven(given: seq<set<nat>>) returns (n: nat)
      ensures n == Cards(given)
    {
      n := 0;
      var i: nat := 0;
      while i < |given|
        invariant i <= |given| && n == Cards(given[..i])
      {
        assert given[..i + 1][..i] == given[..i];
        n := n + |given[i]|;
        i := i + 1;
      }
      assert given[..i] == given;
    }

    method Choose(wanted: int, given: seq<set<nat>>) returns (chosen: seq<set<nat>>)
      requires InRange(LengthsOf(hashes), given) && wanted <= Sum(LengthsOf(hashes))
      ensures exists s: nat :: Least(LengthsOf(hashes), given, wanted, s) && chosen == Layers(LengthsOf(hashes), given, s)
    {
      hide Cards, Sum, Layer, Layers;
      ghost var lengths := LengthsOf(hashes);
      chosen := given;
      var number := CountGiven(given);
      NoLayer(lengths, given);
      var acc: nat := 1;
      var end := false;
      while number < wanted && !end
        invariant acc >= 1 && chosen == Layers(lengths, given, acc - 1) && number == Cards(chosen)
        invariant acc > 1 ==> Cards(Layers(lengths, given, acc - 2)) < wanted
        invariant end ==> forall i :: 0 <= i < |hashes| ==> |hashes[i]| < acc - 1
        invariant !end ==> acc <= Sum(lengths) + 1
        decreases Sum(lengths) + 2 - acc
      {
        chosen, number, end := AddLayer(acc, given, chosen, number);
        acc := acc + 1;
      }
      if end {
        AllChosen(lengths, given, acc - 1);
      }
      assert Least(lengths, given, wanted, acc - 1);
    }

    /** One turn of the loop: the entry acc from the back of every path that has one. */
    method AddLayer(acc: nat, given: seq<set<nat>>, before: seq<set<nat>>, count: nat)
      returns (chosen: seq<set<nat>>, number: nat, end: bool)
      requires acc >= 1 && |given| == |hashes|
      requires before == Layers(LengthsOf(hashes), given, acc - 1) && count == Cards(before)
      ensures chosen == Layers(LengthsOf(hashes), given, acc) && number == Cards(chosen)
      ensures end ==> forall k :: 0 <= k < |hashes| ==> |hashes[k]| < acc
      ensures !end ==> acc <= Sum(LengthsOf(hashes))
    {
      hide Cards, Sum, Layer, Layers;
      chosen, number, end := before, count, true;
      ghost var lengths := LengthsOf(hashes);
      LayersAt(lengths, given, acc - 1);
      var i: nat := 0;
      while i < |hashes|
        invariant i <= |hashes| && |chosen| == |hashes| && number == Cards(chosen)
        invariant forall k :: 0 <= k < |chosen| ==>
                                chosen[k] == Layer(lengths[k], given[k], if k < i then acc else acc - 1)
        invariant end ==> forall k :: 0 <= k < i ==> |hashes[k]| < acc
        invariant !end ==> acc <= Sum(lengths)
      {
        LayerNext(lengths[i], given[i], acc - 1);
        if |hashes[i]| >= acc {
          var index := |hashes[i]| - acc;
          if index !in chosen[i] {
            CardsUpdate(chosen, i, chosen[i] + {index});
            chosen := chosen[i := chosen[i] + {index}];
            number := number + 1;
          } else {
            assert chosen[i] + {index} == chosen[i];
          }
          end := false;
          SumBound(lengths, i);
        }
        i := i + 1;
      }
      LayersAt(lengths, given, acc);
    }

    /** Erases the chosen entries, the largest index first, and lists them. */
    method Remove(chosen: seq<set<nat>>) returns (removed: seq<seq<Hash>>)
      requires Valid() && |chosen| == |hashes|
      modifies this`hashes
      ensures hashes == AllSurvivors(old(hashes), chosen) && removed == AllRemoved(old(hashes), chosen)
    {
      removed := [];
      var i: nat := 0;
      while i < |hashes|
        invariant i <= |hashes| == |old(hashes)| && |removed| == i
        invariant forall k :: 0 <= k < i ==> hashes[k] == Survivors(old(hashes)[k], chosen[k], 0)
        invariant forall k :: i <= k < |hashes| ==> hashes[k] == old(hashes)[k]
        invariant forall k :: 0 <= k < i ==> removed[k] == Removed(old(hashes)[k], chosen[k], 0)
      {
        var entry, gone := EraseFromBack(hashes[i], chosen[i]);
        hashes := hashes[i := entry];
        removed := removed + [gone];
        i := i + 1;
      }
    }

    method EraseFromBack(entry: seq<Hash>, chosen: set<nat>) returns (rest: seq<Hash>, gone: seq<Hash>)
      ensures rest == Survivors(entry, chosen, 0) && gone == Removed(entry, chosen, 0)
    {
      rest, gone := entry, [];
      var j: nat := |entry|;
      while j > 0
        invariant j <= |entry| && gone == Removed(entry, chosen, j)
        invariant rest == entry[..j] + Survivors(entry, chosen, j)
      {
        j := j - 1;
        if j in chosen {
          gone := gone + [entry[j]];
          rest := rest[..j] + rest[j + 1..];
        } else {
          assert entry[..j + 1] == entry[..j] + [entry[j]];
        }
      }
    }

    method DeleteFiles(removed: seq<seq<Hash>>, deletable: (string, Hash) -> bool) returns (deleted: nat)
      requires |paths| == |removed|
      modifies this`record
      ensures record == RecordAfter(old(record), paths, removed)
      ensures deleted == TotalSuccesses(paths, removed, deletable)
    {
      deleted := 0;
      var i: nat := 0;
      while i < |paths|
        invariant i <= |paths| && record == RecordAfter(old(record), paths[..i], removed[..i])
        invariant deleted == TotalSuccesses(paths[..i], removed[..i], deletable)
      {
        assert paths[..i + 1][..i] == paths[..i] && removed[..i + 1][..i] == removed[..i];
        if |removed[i]| > 0 {
          var k: nat, n: nat := 0, 0;
          while k < |removed[i]|
            invariant k <= |removed[i]| && n == Successes(paths[i], removed[i][..k], deletable)
          {
            assert removed[i][..k + 1][..k] == removed[i][..k];
            if deletable(paths[i], removed[i][k]) {
              n := n + 1;
            }
            k := k + 1;
          }
          assert removed[i][..k] == removed[i];
          deleted := deleted + n;
          record := Adjust(record, paths[i], -|removed[i]|);
        }
        i := i + 1;
      }
      assert paths[..i] == paths && removed[..i] == removed;
    }

    /** One path of srd_update_metadata: from the back, and recorded only where the file could be deleted. */
    method PopBack(i: nat, wanted: nat, deletable: (string, Hash) -> bool) returns (gone: seq<Hash>)
      requires Valid() && i < |paths|
      modifies this`hashes, this`record
      ensures Valid()
      ensures var entry := old(hashes)[i];
              var n := Min(wanted, |entry|);
              && hashes == old(hashes)[i := entry[..|entry| - n]]
              && gone == Backwards(entry[|entry| - n..])
              && (var k: int := Successes(paths[i], gone, deletable);
                  record == if k == 0 then old(record) else Adjust(old(record), paths[i], -k))
    {
      gone := [];
      hide Backwards, Successes;
      ghost var entry := hashes[i];
      var left := Min(wanted, |hashes[i]|);
      ghost var n := left;
      assert entry[..|entry|] == entry && entry[|entry|..] == [];
      NothingGone(paths[i], deletable);
      while left > 0
        invariant 0 <= left <= n <= |entry| && |gone| == n - left
        invariant |hashes| == |paths| && hashes[i] == entry[..|entry| - |gone|]
        invariant forall k :: 0 <= k < |hashes| && k != i ==> hashes[k] == old(hashes)[k]
        invariant gone == Backwards(entry[|entry| - |gone|..])
        invariant var k: int := Successes(paths[i], gone, deletable);
                  record == if k == 0 then old(record) else Adjust(old(record), paths[i], -k)
      {
        var last := hashes[i][|hashes[i]| - 1];
        BackwardsMore(entry, |entry| - |gone| - 1);
        assert entry[..|entry| - |gone|][..|entry| - |gone| - 1] == entry[..|entry| - |gone| - 1];
        hashes := hashes[i := hashes[i][..|hashes[i]| - 1]];
        SuccessesMore(paths[i], gone, last, deletable);
        gone := gone + [last];
        if deletable(paths[i], last) {
          record := Adjust(record, paths[i], -1);
        }
        left := left - 1;
      }
    }
  }

  lemma SuccessesMore(path: string, gone: seq<Hash>, last: Hash, deletable: (string, Hash) -> bool)
    ensures Successes(path, gone + [last], deletable) == Successes(path, gone, deletable) + if deletable(path, last) then 1 else 0
  {
    assert (gone + [last])[..|gone|] == gone;
  }

  lemma NothingGone(path: string, deletable: (string, Hash) -> bool)
    ensures Backwards([]) == [] && Successes(path, [], deletable) == 0
  {
  }

  function Backwards(hs: seq<Hash>): (r: seq<Hash>)
    ensures |r| == |hs|
  {
    if hs == [] then [] else Backwards(hs[1..]) + [hs[0]]
  }

  lemma BackwardsMore(hs: seq<Hash>, j: nat)
    requires j < |hs|
    ensures Backwards(hs[j..]) == Backwards(hs[j + 1..]) + [hs[j]]
  {
    assert hs[j..][1..] == hs[j + 1..];
  }

  lemma {:induction false} BackwardsAt(hs: seq<Hash>, k: nat)
    requires k < |hs|
    ensures Backwards(hs)[k] == hs[|hs| - 1 - k]
  {
    if k < |hs| - 1 {
      BackwardsAt(hs[1..], k);
    }
  }
}
