/** The check of one file in validate_meaningful_file (src/enclave/validator/Validator.cpp). */
module MerkleValidate {
  import opened Bytes
  import opened Text
  import opened FileModel
  import opened Json
  import opened JsonRoundTrip
  import opened MerkleText
  import opened MerkleScan
  import opened MerkleSeal
  import opened MerkleShape
  import opened MerkleFiles
  import opened MerkleCheck
  import MerkleUnseal

  /** What the worker gets when it asks for a block. */
  datatype Fetch = Offline | Missing | Found(data: seq<Byte>)

  /** Unsafe: a read past the end of a text. */
  datatype Check = Whole | Damaged | Interrupted | Unsafe

  /** The loop over the sampled blocks. An odd or empty leaf text is skipped and the cursor left before it. */
  function CheckBlocks(text: string, c: Cursor, wanted: seq<nat>, fetch: string -> Fetch, sha: seq<Byte> -> Hash): Check
    decreases |wanted|
  {
    if wanted == [] then Whole
    else match Advance(text, c, wanted[0])
         case None => Damaged
         case Some(a) =>
           match Find(text, SIZE_TAG, a.pos)
           case None => Damaged
           case Some(e) =>
             var leaf := text[a.pos..e];
             match fetch(BlockName(wanted[0], leaf))
             case Offline => Interrupted
             case Missing => Damaged
             case Found(data) =>
               if |leaf| % 2 != 0 || |leaf| == 0 then CheckBlocks(text, a, wanted[1..], fetch, sha)
               else if |leaf| < 2 * HASH_LENGTH then Unsafe
               else if Unhex(leaf)[..HASH_LENGTH] != sha(data) then Damaged
               else CheckBlocks(text, Cursor(e, a.seen), wanted[1..], fetch, sha)
  }

  /** The whole check: the stored text must be there, parse to the right root and be a valid tree. */
  function CheckFile(text: Option<string>, root: string, wanted: seq<nat>, fetch: string -> Fetch,
                     sha: seq<Byte> -> Hash): Check
  {
    match text
    case None => Damaged
    case Some(s) =>
      match LoadText(s)
      case Fault => Unsafe
      case Parsed(j, _) =>
        if ToText(Get(j, "hash")) != root then Damaged
        else match Validate(j, sha)
             case Success => CheckBlocks(s, Cursor(0, 0), wanted, fetch, sha)
             case OverRead => Unsafe
             case _ => Damaged
  }

  /** The current status after a check: only valid and lost turn into each other. */
  function Checked(status: char, check: Check): (r: char)
    ensures r != status ==> (status == VALID && r == LOST) || (status == LOST && r == VALID)
  {
    if status == VALID && check == Damaged then LOST
    else if status == LOST && check == Whole then VALID
    else status
  }

  /** The status of a file after its turn in a validation round. */
  function StatusAfter(status: char, text: Option<string>, root: string, wanted: seq<nat>, fetch: string -> Fetch,
                       sha: seq<Byte> -> Hash): char {
    if status == UNCONFIRMED || status == DELETED then status else Checked(status, CheckFile(text, root, wanted, fetch, sha))
  }

  method ValidateFile(status: char, text: Option<string>, root: string, wanted: seq<nat>, fetch: string -> Fetch,
                      sha: seq<Byte> -> Hash)
    returns (status': char, check: Check)
    ensures status' == StatusAfter(status, text, root, wanted, fetch, sha)
    ensures check == if status == UNCONFIRMED || status == DELETED then Whole else CheckFile(text, root, wanted, fetch, sha)
  {
    hide CheckBlocks, Validate, LoadText;
    status', check := status, Whole;
    if status == UNCONFIRMED || status == DELETED {
      return;
    }
    var lost := if status == VALID then LOST else status;
    if text.None? {
      return lost, Damaged;
    }
    var s := text.value;
    var p := LoadText(s);
    if p.Fault? {
      return status, Unsafe;
    }
    if ToText(Get(p.value, "hash")) != root {
      return lost, Damaged;
    }
    var v := ValidateTree(p.value, sha);
    if v != Success {
      return if v == OverRead then status else lost, if v == OverRead then Unsafe else Damaged;
    }
    check := CheckSampled(s, wanted, fetch, sha);
    status' := if check == Damaged then lost else if check == Whole && status == LOST then VALID else status;
  }

  method CheckSampled(s: string, wanted: seq<nat>, fetch: string -> Fetch, sha: seq<Byte> -> Hash) returns (check: Check)
    ensures check == CheckBlocks(s, Cursor(0, 0), wanted, fetch, sha)
  {
    hide Advance, Find, Unhex;
    var at := Cursor(0, 0);
    var i: nat := 0;
    while i < |wanted|
      invariant i <= |wanted|
      invariant CheckBlocks(s, Cursor(0, 0), wanted, fetch, sha) == CheckBlocks(s, at, wanted[i..], fetch, sha)
    {
      assert wanted[i..][0] == wanted[i] && wanted[i..][1..] == wanted[i + 1..];
      var a := AdvanceCursor(s, at, wanted[i]);
      if a.None? {
        return Damaged;
      }
      var e := Find(s, SIZE_TAG, a.value.pos);
      if e.None? {
        return Damaged;
      }
      var leaf := s[a.value.pos..e.value];
      var got := fetch(BlockName(wanted[i], leaf));
      if !got.Found? {
        return if got.Offline? then Interrupted else Damaged;
      }
      if |leaf| % 2 != 0 || |leaf| == 0 {
        at := a.value;
      } else if |leaf| < 2 * HASH_LENGTH {
        return Unsafe;
      } else if Unhex(leaf)[..HASH_LENGTH] != sha(got.data) {
        return Damaged;
      } else {
        at := Cursor(e.value, a.value.seen);
      }
      i := i + 1;
    }
    check := Whole;
  }

  // ----- Against the leaves of the tree -----

  /** The same check with the leaf hashes given as a list. */
  function CheckLeaves(hashes: seq<string>, wanted: seq<nat>, fetch: string -> Fetch, sha: seq<Byte> -> Hash): Check
    decreases |wanted|
  {
    if wanted == [] then Whole
    else if wanted[0] >= |hashes| then Damaged
    else match fetch(BlockName(wanted[0], hashes[wanted[0]]))
         case Offline => Interrupted
         case Missing => Damaged
         case Found(data) =>
           if Hex(sha(data)) != hashes[wanted[0]] then Damaged
           else CheckLeaves(hashes, wanted[1..], fetch, sha)
  }

  lemma {:induction false} CheckFrom(text: string, ps: seq<nat>, hashes: seq<string>, c: Cursor, wanted: seq<nat>,
                                     fetch: string -> Fetch, sha: seq<Byte> -> Hash)
    requires Marked(text, ps) && LeafText(text, ps, hashes) && Between(c, ps)
    requires forall k :: 0 <= k < |hashes| ==> IsHashText(hashes[k])
    requires Ascending(wanted) && (wanted != [] ==> c.seen <= wanted[0])
    ensures CheckBlocks(text, c, wanted, fetch, sha) == CheckLeaves(hashes, wanted, fetch, sha)
    decreases |wanted|
  {
    hide At, Find, Advance, Unhex, Hex;
    if wanted != [] {
      var w := wanted[0];
      AdvanceTo(text, ps, c, w);
      if w < |ps| {
        var h := hashes[w];
        ReadLeaf(text, ps[w], h);
        CheckFrom(text, ps, hashes, Cursor(ps[w] + LEAF_SPAN, w + 1), wanted[1..], fetch, sha);
        var got := fetch(BlockName(w, h));
        if got.Found? {
          SameHash(h, sha(got.data));
          assert Unhex(h)[..HASH_LENGTH] == Unhex(h);
        }
      }
    }
  }

  /** The substring scan over the stored text decides as a walk over the leaves would. */
  lemma CheckRendered(t: Tree, wanted: seq<nat>, fetch: string -> Fetch, sha: seq<Byte> -> Hash)
    requires WellFormed(t) && Fits(t) && Ascending(wanted)
    ensures CheckFile(Some(Render(t)), t.hash, wanted, fetch, sha)
         == if HashesUp(t, sha) then CheckLeaves(Leaves(t), wanted, fetch, sha) else Damaged
  {
    hide Render, Leaves, WellFormed, Fits, HashesUp, LeafPos, Validate, Represents, CheckBlocks, CheckLeaves, Marked, LeafText;
    var text := Render(t);
    ReadTree(t, "\0", OfString);
    var j := LoadText(text).value;
    ValidateRead(j, t, sha);
    RootRead(j, t);
    TreeMarked(t);
    LeafHashes(t);
    assert At(text, 0, text);
    LeafTexts(text, 0, t);
    CheckFrom(text, LeafPos(t, 0), Leaves(t), Cursor(0, 0), wanted, fetch, sha);
  }

  lemma RootRead(j: Json, t: Tree)
    requires Represents(j, t) && WellFormed(t)
    ensures ToText(Get(j, "hash")) == t.hash
  {
    HashTextRead(t.hash);
  }

  /** The leaf texts of any text: from a leaf tag to the next size tag. */
  ghost predicate LongLeaves(text: string) {
    forall p: nat, e: nat :: At(text, p, LEAF_TAG) && Find(text, SIZE_TAG, p + |LEAF_TAG|) == Some(e) ==>
                               e >= p + |LEAF_TAG| + 2 * HASH_LENGTH
  }

  lemma {:induction false} AdvanceLands(text: string, c: Cursor, wanted: nat)
    ensures var a := Advance(text, c, wanted); a.Some? ==> a.value.pos >= |LEAF_TAG| && At(text, a.value.pos - |LEAF_TAG|, LEAF_TAG)
    decreases |text| - c.pos
  {
    hide At;
    var f := Find(text, LEAF_TAG, c.pos);
    if f.Some? && c.seen < wanted {
      AdvanceLands(text, Cursor(f.value + |LEAF_TAG|, c.seen + 1), wanted);
    }
  }

  lemma LeafLength(text: string, from: nat)
    ensures var e := Find(text, SIZE_TAG, from); e.Some? ==> e.value <= |text| && |text[from..e.value]| == e.value - from
  {
  }

  /** Whatever the text, nothing is read past its end where all leaf texts are long enough, and only an answer that the
      store is offline interrupts the check. */
  lemma {:induction false} AnyTextIsSafe(text: string, c: Cursor, wanted: seq<nat>, fetch: string -> Fetch, sha: seq<Byte> -> Hash)
    ensures LongLeaves(text) ==> CheckBlocks(text, c, wanted, fetch, sha) != Unsafe
    ensures (forall n :: !fetch(n).Offline?) ==> CheckBlocks(text, c, wanted, fetch, sha) != Interrupted
    decreases |wanted|
  {
    hide At, Find, Advance, Unhex, BlockName;
    if wanted != [] {
      AdvanceLands(text, c, wanted[0]);
      var a := Advance(text, c, wanted[0]);
      if a.Some? {
        var e := Find(text, SIZE_TAG, a.value.pos);
        if e.Some? {
          AnyTextIsSafe(text, a.value, wanted[1..], fetch, sha);
          AnyTextIsSafe(text, Cursor(e.value, a.value.seen), wanted[1..], fetch, sha);
          var p: nat := a.value.pos - |LEAF_TAG|;
          assert At(text, p, LEAF_TAG) && Find(text, SIZE_TAG, p + |LEAF_TAG|) == Some(e.value);
          LeafLength(text, a.value.pos);
        }
      }
    }
  }

  /** The file of block k is there and has the hash of leaf k. */
  predicate Sound(hashes: seq<string>, k: nat, fetch: string -> Fetch, sha: seq<Byte> -> Hash) {
    k < |hashes| && fetch(BlockName(k, hashes[k])).Found? && Hex(sha(fetch(BlockName(k, hashes[k])).data)) == hashes[k]
  }

  lemma {:induction false} WholeIfAllSound(hashes: seq<string>, wanted: seq<nat>, fetch: string -> Fetch, sha: seq<Byte> -> Hash)
    ensures CheckLeaves(hashes, wanted, fetch, sha) == Whole <==> forall i :: 0 <= i < |wanted| ==> Sound(hashes, wanted[i], fetch, sha)
    decreases |wanted|
  {
    hide Hex, BlockName;
    if wanted != [] {
      WholeIfAllSound(hashes, wanted[1..], fetch, sha);
      assert forall i :: 1 <= i < |wanted| ==> wanted[i] == wanted[1..][i - 1];
      if forall i :: 0 <= i < |wanted| ==> Sound(hashes, wanted[i], fetch, sha) {
        assert Sound(hashes, wanted[0], fetch, sha);
        forall i | 0 <= i < |wanted[1..]| ensures Sound(hashes, wanted[1..][i], fetch, sha) {
          assert wanted[1..][i] == wanted[i + 1];
        }
      }
    }
  }

  // ----- The status after a validation -----

  /** The first sampled leaf that is not sound. */
  ghost predicate FirstUnsound(hashes: seq<string>, wanted: seq<nat>, fetch: string -> Fetch, sha: seq<Byte> -> Hash, i: nat) {
    i < |wanted| && !Sound(hashes, wanted[i], fetch, sha) && forall k :: 0 <= k < i ==> Sound(hashes, wanted[k], fetch, sha)
  }

  predicate AnsweredOffline(hashes: seq<string>, k: nat, fetch: string -> Fetch) {
    k < |hashes| && fetch(BlockName(k, hashes[k])).Offline?
  }

  lemma {:induction false} LeavesDecide(hashes: seq<string>, wanted: seq<nat>, fetch: string -> Fetch, sha: seq<Byte> -> Hash)
    ensures var check := CheckLeaves(hashes, wanted, fetch, sha);
            && (check == Damaged <==>
                exists i: nat :: FirstUnsound(hashes, wanted, fetch, sha, i) && !AnsweredOffline(hashes, wanted[i], fetch))
            && (check == Interrupted <==>
                exists i: nat :: FirstUnsound(hashes, wanted, fetch, sha, i) && AnsweredOffline(hashes, wanted[i], fetch))
            && check != Unsafe
    decreases |wanted|
  {
    hide Sound, AnsweredOffline;
    if wanted != [] {
      var rest := wanted[1..];
      LeavesDecide(hashes, rest, fetch, sha);
      FirstLeaf(hashes, wanted, fetch, sha);
      if Sound(hashes, wanted[0], fetch, sha) {
        forall i: nat ensures FirstUnsound(hashes, rest, fetch, sha, i) ==> FirstUnsound(hashes, wanted, fetch, sha, i + 1) {
        }
        forall i: nat ensures FirstUnsound(hashes, wanted, fetch, sha, i) ==> i > 0 && FirstUnsound(hashes, rest, fetch, sha, i - 1) {
          if FirstUnsound(hashes, wanted, fetch, sha, i) {
            assert forall k :: 0 <= k < |rest| ==> rest[k] == wanted[k + 1];
          }
        }
      } else {
        assert FirstUnsound(hashes, wanted, fetch, sha, 0);
        forall i: nat | FirstUnsound(hashes, wanted, fetch, sha, i) ensures i == 0 {
        }
      }
    }
  }

  lemma FirstLeaf(hashes: seq<string>, wanted: seq<nat>, fetch: string -> Fetch, sha: seq<Byte> -> Hash)
    requires wanted != []
    ensures CheckLeaves(hashes, wanted, fetch, sha)
         == if Sound(hashes, wanted[0], fetch, sha) then CheckLeaves(hashes, wanted[1..], fetch, sha)
            else if AnsweredOffline(hashes, wanted[0], fetch) then Interrupted else Damaged
  {
    hide Hex, BlockName;
  }

  /** With a stored tree of the right root: a valid file is lost exactly when an inner hash is wrong or the first sampled
      leaf that is not sound is not answered as offline, a lost one is found again exactly when all inner hashes are right
      and all sampled leaves sound, and a file that is unconfirmed or deleted stays so. */
  lemma ValidationDecides(t: Tree, wanted: seq<nat>, fetch: string -> Fetch, sha: seq<Byte> -> Hash)
    requires WellFormed(t) && Fits(t) && Ascending(wanted)
    ensures var after := (status: char) => StatusAfter(status, Some(Render(t)), t.hash, wanted, fetch, sha);
            && (after(VALID) == LOST <==> !HashesUp(t, sha) ||
                                          exists i: nat :: FirstUnsound(Leaves(t), wanted, fetch, sha, i) && !AnsweredOffline(Leaves(t), wanted[i], fetch))
            && (after(VALID) == VALID || after(VALID) == LOST)
            && (after(LOST) == VALID <==> HashesUp(t, sha) && forall i :: 0 <= i < |wanted| ==> Sound(Leaves(t), wanted[i], fetch, sha))
            && (after(LOST) == LOST || after(LOST) == VALID)
            && after(UNCONFIRMED) == UNCONFIRMED && after(DELETED) == DELETED
  {
    hide CheckFile, CheckLeaves, Sound, AnsweredOffline, FirstUnsound, HashesUp, Leaves, Render, WellFormed, Fits;
    CheckRendered(t, wanted, fetch, sha);
    LeavesDecide(Leaves(t), wanted, fetch, sha);
    WholeIfAllSound(Leaves(t), wanted, fetch, sha);
  }

  /** Without a stored text, with another root in it or with a tree that fails the check, a valid file is lost and a lost
      one stays lost, whatever the blocks. */
  lemma NoTreeIsLost(status: char, text: Option<string>, root: string, wanted: seq<nat>, fetch: string -> Fetch, sha: seq<Byte> -> Hash)
    requires status == VALID || status == LOST
    requires text.Some? ==>
               && LoadText(text.value).Parsed?
               && (var j := LoadText(text.value).value;
                   ToText(Get(j, "hash")) != root || Validate(j, sha) == InvalidTree || Validate(j, sha) == MallocFailed)
    ensures StatusAfter(status, text, root, wanted, fetch, sha) == LOST
  {
    hide LoadText, Validate, CheckBlocks, Get, ToText;
  }

  /** A worker that has the given files and answers. */
  ghost predicate Serves(fetch: string -> Fetch, files: Directory) {
    forall n :: fetch(n) == if n in files then Found(files[n]) else Missing
  }

  /** A freshly sealed file passes the check exactly when no sampled block collided; then a valid file stays valid and
      a lost one is found again. */
  lemma SealedIsWhole(t: Tree, st: Progress, c: Crypto, ds: seq<seq<Byte>>, wanted: seq<nat>, fetch: string -> Fetch)
    requires Shaped(t) && st.text == "" && st.blocks == 0 && Holds(st.files, Leaves(t), ds) && |Leaves(t)| == |ds|
    requires SealNode(t, st, c).Sealed? && Fits(SealNode(t, st, c).stored)
    requires Serves(fetch, SealNode(t, st, c).now.files)
    requires Ascending(wanted) && forall i :: 0 <= i < |wanted| ==> wanted[i] < |ds|
    ensures var o := SealNode(t, st, c);
            var check := CheckFile(Some(o.now.text), o.tree.hash, wanted, fetch, c.sha);
            && o.now.blocks == |ds|
            && (check == Whole <==> forall i :: 0 <= i < |wanted| ==> !Collides(Leaves(t), ds, wanted[i], c))
            && (check == Whole ==> forall s :: s == VALID || s == LOST ==>
                                                 StatusAfter(s, Some(o.now.text), o.tree.hash, wanted, fetch, c.sha) == VALID)
  {
    hide *;
    var o := SealNode(t, st, c);
    SealedLeaves(t, st, c, ds, fetch);
    CheckRendered(o.stored, wanted, fetch, c.sha);
    WholeIfAllSound(Leaves(o.stored), wanted, fetch, c.sha);
    if CheckFile(Some(o.now.text), o.tree.hash, wanted, fetch, c.sha) == Whole {
      WholeIsValid(Some(o.now.text), o.tree.hash, wanted, fetch, c.sha);
    }
  }

  lemma WholeIsValid(text: Option<string>, root: string, wanted: seq<nat>, fetch: string -> Fetch, sha: seq<Byte> -> Hash)
    requires CheckFile(text, root, wanted, fetch, sha) == Whole
    ensures forall s :: s == VALID || s == LOST ==> StatusAfter(s, text, root, wanted, fetch, sha) == VALID
  {
    hide CheckFile;
  }

  lemma SealedLeaves(t: Tree, st: Progress, c: Crypto, ds: seq<seq<Byte>>, fetch: string -> Fetch)
    requires Shaped(t) && st.text == "" && st.blocks == 0 && Holds(st.files, Leaves(t), ds) && |Leaves(t)| == |ds|
    requires SealNode(t, st, c).Sealed?
    requires Serves(fetch, SealNode(t, st, c).now.files)
    ensures var o := SealNode(t, st, c);
            && o.now.text == Render(o.stored) && o.tree.hash == o.stored.hash && o.now.blocks == |ds|
            && WellFormed(o.stored) && HashesUp(o.stored, c.sha)
            && forall k: nat :: k < |ds| ==> (Sound(Leaves(o.stored), k, fetch, c.sha) <==> !Collides(Leaves(t), ds, k, c))
  {
    hide *;
    var o, hs := SealNode(t, st, c), Leaves(t);
    SealNodeWell(t, st, c);
    SealedFacts(t, st, c, o.tree, o.stored, o.now);
    MerkleUnseal.NothingSealed(st.files, hs, ds, c);
    SealNodeFiles(t, st, c, hs, ds);
    MerkleUnseal.AllSealed(o.now.files, hs, ds, c);
    forall k: nat | k < |ds| ensures Sound(Leaves(o.stored), k, fetch, c.sha) <==> !Collides(hs, ds, k, c) {
      SealedHashAt(ds, 0, |ds|, k, c);
      SealedBlockServed(o.now.files, hs, ds, k, c, fetch);
    }
  }

  lemma SealedFacts(t: Tree, st: Progress, c: Crypto, tree: Tree, stored: Tree, now: Progress)
    requires SealedWell(t, st, c, tree, stored, now) && st.text == "" && st.blocks == 0
    ensures now.text == Render(stored) && tree.hash == stored.hash && WellFormed(stored) && HashesUp(stored, c.sha)
    ensures now.blocks == |Leaves(t)|
  {
    hide Render, SameShape, WellFormed, HashesUp, SizesUp, Leaves;
    EmptyLeft(Render(stored));
  }

  lemma {:induction false} SealedHashAt(ds: seq<seq<Byte>>, a: nat, b: nat, k: nat, c: Crypto)
    requires a <= k < b <= |ds|
    ensures SealedHashes(ds, a, b, c)[k - a] == SealedHash(k, ds[k], c)
    decreases k - a
  {
    hide SealedHash;
    if k > a {
      SealedHashAt(ds, a + 1, b, k, c);
    }
  }

  lemma SealedBlockServed(files: Directory, hs: seq<string>, ds: seq<seq<Byte>>, k: nat, c: Crypto, fetch: string -> Fetch)
    requires |hs| == |ds| && k < |hs| && Serves(fetch, files)
    requires HoldsBut(files, HashesAfter(hs, ds, 0, |hs|, c), DataAfter(ds, 0, |hs|, c), Lost(hs, ds, |hs|, c))
    requires SealedHashes(ds, 0, |ds|, c)[k] == SealedHash(k, ds[k], c)
    ensures Sound(SealedHashes(ds, 0, |ds|, c), k, fetch, c.sha) <==> !Collides(hs, ds, k, c)
  {
    hide SealedHashes, BlockName, Hex, HoldsBut, Lost, Collides;
    var hs', ds', lost := HashesAfter(hs, ds, 0, |hs|, c), DataAfter(ds, 0, |hs|, c), Lost(hs, ds, |hs|, c);
    MerkleUnseal.LostIs(hs, ds, |hs|, k, c);
    LostIsGone(files, hs', ds', lost, k);
    if !Collides(hs, ds, k, c) {
      HoldsAt(files, hs', ds', lost, k);
      assert fetch(BlockName(k, SealedHash(k, ds[k], c))) == Found(c.seal(k, ds[k]));
    }
  }
}
