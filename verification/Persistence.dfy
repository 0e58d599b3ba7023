/** Values in the DB, large ones in pieces (src/enclave/persistence/Persistence.cpp). Bytes are characters here,
    as in a std::string. */
module Persistence {
  import opened Buffers
  import opened Bytes
  import opened Text
  import opened Json
  import opened JsonRoundTrip

  type Database = map<string, string>

  /** The piece index is a 32-bit counter. */
  function Cut(i: nat): nat {
    i % 0x1_0000_0000
  }

  function PieceKey(key: string, i: nat): string {
    key + "_" + Decimal(i)
  }

  function SumKey(key: string): string {
    key + "_sum"
  }

  function SumJson(count: nat, size: nat): Json {
    Object([Field("persist_size", Integral(size)), Field("persist_sum", Integral(count))])
  }

  function SumText(count: nat, size: nat): string {
    Strip(Dump(SumJson(count, size), 1))
  }

  /** The size of sealed data is a 32-bit number. */
  type Sealed = s: string | |s| < 0x1_0000_0000 witness ""

  // ----- Setting -----

  function PieceCount(value: string): nat {
    (|value| + THRESHOLD - 1) / THRESHOLD
  }

  function Piece(value: string, i: nat): (p: string)
    requires i < PieceCount(value)
    ensures 0 < |p| <= THRESHOLD
  {
    value[i * THRESHOLD..if (i + 1) * THRESHOLD <= |value| then (i + 1) * THRESHOLD else |value|]
  }

  function PutPieces(db: Database, key: string, value: string, i: nat): Database
    requires i <= PieceCount(value)
    decreases PieceCount(value) - i
  {
    if i == PieceCount(value) then db
    else PutPieces(db[PieceKey(key, Cut(i)) := Piece(value, i)], key, value, i + 1)
  }

  lemma PutNext(db: Database, key: string, value: string, i: nat)
    requires i < PieceCount(value)
    ensures PutPieces(db, key, value, i) == PutPieces(db[PieceKey(key, Cut(i)) := Piece(value, i)], key, value, i + 1)
  {
    hide PieceKey, Piece;
  }

  lemma PutEnd(db: Database, key: string, value: string)
    ensures PutPieces(db, key, value, PieceCount(value)) == db
  {
  }

  function DropPieces(db: Database, key: string, i: nat, count: nat): Database
    requires i <= count
    decreases count - i
  {
    if i == count then db else DropPieces(db - {PieceKey(key, i)}, key, i + 1, count)
  }

  function Offset(value: string, i: nat): (o: nat)
    ensures o <= |value|
  {
    if i * THRESHOLD <= |value| then i * THRESHOLD else |value|
  }

  lemma FirstPiece(value: string)
    ensures Offset(value, 0) == 0 && Cut(0) == 0 && (0 < PieceCount(value) <==> 0 < |value|)
  {
  }

  lemma NextPiece(value: string, i: nat)
    requires i < PieceCount(value)
    ensures var o, part := Offset(value, i), if |value| - Offset(value, i) < THRESHOLD then |value| - Offset(value, i) else THRESHOLD;
            && o + part <= |value| && Piece(value, i) == value[o..o + part]
            && Offset(value, i + 1) == o + part && (i + 1 < PieceCount(value) <==> o + part < |value|)
    ensures Cut(Cut(i) + 1) == Cut(i + 1)
  {
  }

  /** What stands under the sum key; the count is cut to 32 bits. */
  datatype SumRead = NoSum | Unreadable | Sum(count: nat, size: int)

  function ReadSum(db: Database, key: string): (r: SumRead)
    ensures r == NoSum <==> SumKey(key) !in db
  {
    if SumKey(key) !in db then NoSum
    else
      match LoadText(db[SumKey(key)])
      case Fault => Unreadable
      case Parsed(j, _) =>
        var count := ToInt(Get(j, "persist_sum"));
        Sum(count % 0x1_0000_0000, ToInt(Get(j, "persist_size")))
  }

  /** None where the old sum cannot be read. */
  function Stored(db: Database, key: string, value: string): Option<Database> {
    if |value| > THRESHOLD then
      Some(PutPieces(db, key, value, 0)[SumKey(key) := SumText(Cut(PieceCount(value)), |value|)])
    else
      match ReadSum(db, key)
      case NoSum => Some(db[key := value])
      case Unreadable => None
      case Sum(count, _) => Some((DropPieces(db, key, 0, count) - {SumKey(key)})[key := value])
  }

  // ----- Getting -----

  /** Overrun: a piece would be copied past the end of the buffer. */
  datatype Got = NotFound | Corrupt | Overrun | Found(value: string)

  /** The loop that copies the pieces; when it is strict it gives up at the first missing one, else it
      reports only whether the last one was there. */
  function Fill(db: Database, key: string, i: nat, count: nat, offset: nat, buffer: string, found: bool, strict: bool): Got
    requires i <= count && offset <= |buffer|
    decreases count - i
  {
    if i == count then (if found then Found(buffer) else NotFound)
    else
      var here := PieceKey(key, i) in db;
      var part := if here then db[PieceKey(key, i)] else "";
      if strict && !here then NotFound
      else if offset + |part| > |buffer| then Overrun
      else
        Fill(db, key, i + 1, count, offset + |part|, buffer[..offset] + part + buffer[offset + |part|..], here, strict)
  }

  function Fetched(db: Database, key: string, strict: bool): Got {
    match ReadSum(db, key)
    case NoSum => if key in db then Found(db[key]) else NotFound
    case Unreadable => Corrupt
    case Sum(count, size) => if size < 0 then Corrupt else Fill(db, key, 0, count, 0, Zeros(size), true, strict)
  }

  lemma FillStep(db: Database, key: string, i: nat, count: nat, offset: nat, buffer: string, found: bool, strict: bool)
    requires i < count && offset <= |buffer|
    ensures var here := PieceKey(key, i) in db;
            var part := if here then db[PieceKey(key, i)] else "";
            Fill(db, key, i, count, offset, buffer, found, strict)
            == if strict && !here then NotFound
            else if offset + |part| > |buffer| then Overrun
            else Fill(db, key, i + 1, count, offset + |part|, buffer[..offset] + part + buffer[offset + |part|..], here, strict)
  {
    hide PieceKey;
  }

  lemma FillEnd(db: Database, key: string, count: nat, offset: nat, buffer: string, found: bool, strict: bool)
    requires offset <= |buffer|
    ensures Fill(db, key, count, count, offset, buffer, found, strict) == if found then Found(buffer) else NotFound
  {
  }

  class Store {
    var db: Database

    constructor ()
      ensures db == map[]
    {
      db := map[];
    }

    /** persist_set_unsafe, and the part of persist_set for small values. */
    method SetUnsafe(key: string, value: string) returns (ok: bool)
      modifies this
      ensures var r := Stored(old(db), key, value);
              ok == r.Some? && db == if ok then r.value else old(db)
    {
      hide PutPieces, DropPieces, Dump, Strip, ReadSum, SumKey;
      ok := true;
      if |value| > THRESHOLD {
        var index := PutAllParts(key, value);
        db := db[SumKey(key) := Strip(Dump(SumJson(index, |value|), 1))];
      } else {
        var sum := ReadSum(db, key);
        if sum.Unreadable? {
          return false;
        }
        if sum.Sum? {
          DropParts(key, sum.count);
          db := db - {SumKey(key)};
        }
        db := db[key := value];
      }
    }

    method PutAllParts(key: string, value: string) returns (index: nat)
      modifies this
      ensures index == Cut(PieceCount(value)) && db == PutPieces(old(db), key, value, 0)
    {
      hide PieceKey, PutPieces, Piece, PieceCount, Cut, Offset;
      var offset: nat := 0;
      ghost var n: nat := 0;
      index := 0;
      FirstPiece(value);
      while |value| > offset
        invariant n <= PieceCount(value) && index == Cut(n)
        invariant offset == Offset(value, n) && (n < PieceCount(value) <==> offset < |value|)
        invariant PutPieces(old(db), key, value, 0) == PutPieces(db, key, value, n)
      {
        PutNext(db, key, value, n);
        NextPiece(value, n);
        var part := if |value| - offset < THRESHOLD then |value| - offset else THRESHOLD;
        db := db[PieceKey(key, index) := value[offset..offset + part]];
        offset := offset + part;
        index := Cut(index + 1);
        n := n + 1;
      }
      PutEnd(db, key, value);
    }

    method DropParts(key: string, count: nat)
      modifies this
      ensures db == DropPieces(old(db), key, 0, count)
    {
      hide PieceKey;
      var i: nat := 0;
      while i < count
        invariant i <= count
        invariant DropPieces(old(db), key, 0, count) == DropPieces(db, key, i, count)
      {
        db := db - {PieceKey(key, i)};
        i := i + 1;
      }
    }

    method Get(key: string, strict: bool) returns (got: Got)
      ensures got == Fetched(db, key, strict)
    {
      var sum := ReadSum(db, key);
      if sum.NoSum? {
        return if key in db then Found(db[key]) else NotFound;
      }
      if sum.Unreadable? || sum.size < 0 {
        return Corrupt;
      }
      got := CopyPieces(key, sum.count, sum.size, strict);
    }

    method CopyPieces(key: string, count: nat, size: nat, strict: bool) returns (got: Got)
      ensures got == Fill(db, key, 0, count, 0, Zeros(size), true, strict)
    {
      hide Fill, PieceKey;
      var buffer := new char[size](_ => '\0');
      assert buffer[..] == Zeros(size);
      var offset: nat, i: nat, found := 0, 0, true;
      while i < count
        invariant i <= count && offset <= size
        invariant Fill(db, key, 0, count, 0, Zeros(size), true, strict)
               == Fill(db, key, i, count, offset, buffer[..], found, strict)
      {
        FillStep(db, key, i, count, offset, buffer[..], found, strict);
        found := PieceKey(key, i) in db;
        var part := if found then db[PieceKey(key, i)] else "";
        if strict && !found {
          return NotFound;
        }
        if offset + |part| > size {
          return Overrun;
        }
        ghost var before := buffer[..];
        forall k | 0 <= k < |part| {
          buffer[offset + k] := part[k];
        }
        assert buffer[..] == before[..offset] + part + before[offset + |part|..];
        offset := offset + |part|;
        i := i + 1;
      }
      FillEnd(db, key, count, offset, buffer[..], found, strict);
      got := if found then Found(buffer[..]) else NotFound;
    }

    /** persist_set. */
    method Set(key: string, value: string, seal: string -> Sealed) returns (ok: bool)
      modifies this
      ensures var r := Stored(old(db), key, seal(value));
              ok == r.Some? && db == if ok then r.value else old(db)
    {
      hide PutPieces, PieceKey, DropPieces, Dump, Strip, ReadSum, SumKey;
      var sealed := seal(value);
      if |sealed| > THRESHOLD {
        var index := PutParts(key, sealed);
        db := db[SumKey(key) := Strip(Dump(SumJson(index, |sealed|), 1))];
        ok := true;
      } else {
        ok := SetUnsafe(key, sealed);
      }
    }

    /** The remaining size is cut to 32 bits, which changes nothing for a sealed value. */
    method PutParts(key: string, sealed: Sealed) returns (index: nat)
      modifies this
      ensures index == Cut(PieceCount(sealed)) && db == PutPieces(old(db), key, sealed, 0)
    {
      hide PieceKey, PutPieces;
      var offset: nat := 0;
      index := 0;
      while |sealed| > offset
        invariant index <= PieceCount(sealed)
        invariant offset == if index < PieceCount(sealed) then index * THRESHOLD else |sealed|
        invariant PutPieces(old(db), key, sealed, 0) == PutPieces(db, key, sealed, index)
      {
        PutNext(db, key, sealed, index);
        var left := (|sealed| - offset) % 0x1_0000_0000;
        var part := if left < THRESHOLD then left else THRESHOLD;
        db := db[PieceKey(key, index) := sealed[offset..offset + part]];
        offset := offset + part;
        index := index + 1;
      }
      PutEnd(db, key, sealed);
    }
  }

  // ----- Keys -----

  lemma LastUnderscore(a: string, x: string, b: string, y: string)
    requires a + "_" + x == b + "_" + y && '_' !in x && '_' !in y
    ensures a == b && x == y
  {
    var s := a + "_" + x;
    assert s[|a|] == '_' && s[|b|] == '_';
    assert forall k :: |a| < k < |s| ==> s[k] == x[k - |a| - 1] && s[k] != '_';
    assert forall k :: |b| < k < |s| ==> s[k] == y[k - |b| - 1] && s[k] != '_';
    assert |a| == |b|;
    assert a == s[..|a|] && b == s[..|b|] && x == s[|a| + 1..] && y == s[|b| + 1..];
  }

  /** One of the names under which the parts of a large value are kept. */
  ghost predicate PartName(key: string, name: string) {
    name == SumKey(key) || PieceName(key, name)
  }

  /** More pieces no sum can count. */
  const MAX_PIECES := 0xFFFF_FFFF

  ghost predicate PieceName(key: string, name: string) {
    exists i: nat :: i < MAX_PIECES && name == PieceKey(key, i)
  }

  ghost predicate Independent(a: string, b: string) {
    a != b && !PartName(a, b) && !PartName(b, a)
  }

  lemma PieceKeyInjective(a: string, i: nat, b: string, j: nat)
    requires PieceKey(a, i) == PieceKey(b, j)
    ensures a == b && i == j
  {
    assert '_' !in Decimal(i) && '_' !in Decimal(j);
    LastUnderscore(a, Decimal(i), b, Decimal(j));
    DecimalInjective(i, j);
  }

  lemma SumKeyInjective(a: string, b: string)
    requires SumKey(a) == SumKey(b)
    ensures a == b
  {
    assert SumKey(a)[..|a|] == a && SumKey(b)[..|b|] == b;
  }

  lemma PieceIsNoSum(a: string, i: nat, b: string)
    ensures PieceKey(a, i) != SumKey(b)
  {
    var d, sum := Decimal(i), "sum";
    assert '_' !in d && '_' !in sum && SumKey(b) == b + "_" + sum;
    assert IsDigit(d[0]) && sum[0] == 's';
    if PieceKey(a, i) == SumKey(b) {
      LastUnderscore(a, d, b, sum);
    }
  }

  lemma PartsApart(a: string, b: string, name: string)
    requires a != b && PartName(a, name)
    ensures !PartName(b, name)
  {
    hide PieceKey, SumKey;
    if PartName(b, name) {
      if name == SumKey(a) {
        if name == SumKey(b) {
          SumKeyInjective(a, b);
        } else {
          var j: nat :| j < MAX_PIECES && name == PieceKey(b, j);
          PieceIsNoSum(b, j, a);
        }
      } else {
        var i: nat :| i < MAX_PIECES && name == PieceKey(a, i);
        if name == SumKey(b) {
          PieceIsNoSum(a, i, b);
        } else {
          var j: nat :| j < MAX_PIECES && name == PieceKey(b, j);
          PieceKeyInjective(a, i, b, j);
        }
      }
    }
  }

  lemma KeyIsNoPart(key: string)
    ensures !PartName(key, key)
  {
    assert |SumKey(key)| > |key|;
    forall i: nat ensures |PieceKey(key, i)| > |key| {
    }
  }

  // ----- What a set leaves -----

  /** A set touches only the key and the names of its parts. */
  ghost predicate TouchesOnly(db: Database, db': Database, key: string) {
    forall name :: name != key && !PartName(key, name) ==>
                     (name in db <==> name in db') && (name in db ==> db[name] == db'[name])
  }

  lemma {:induction false} PutPiecesKeeps(db: Database, key: string, value: string, i: nat)
    requires i <= PieceCount(value)
    ensures var r := PutPieces(db, key, value, i);
            forall name :: (forall j: nat :: i <= j < PieceCount(value) ==> name != PieceKey(key, Cut(j))) ==>
                             (name in db <==> name in r) && (name in db ==> r[name] == db[name])
    decreases PieceCount(value) - i
  {
    hide PieceKey, Piece, Cut;
    if i < PieceCount(value) {
      var db' := db[PieceKey(key, Cut(i)) := Piece(value, i)];
      PutPiecesKeeps(db', key, value, i + 1);
      var r := PutPieces(db, key, value, i);
      forall name | forall j: nat :: i <= j < PieceCount(value) ==> name != PieceKey(key, Cut(j))
        ensures (name in db <==> name in r) && (name in db ==> r[name] == db[name])
      {
        assert name != PieceKey(key, Cut(i));
        assert forall j: nat :: i + 1 <= j < PieceCount(value) ==> name != PieceKey(key, Cut(j));
        assert (name in db' <==> name in r) && (name in db' ==> r[name] == db'[name]);
      }
    }
  }

  lemma {:induction false} PutPiecesThere(db: Database, key: string, value: string, i: nat)
    requires i <= PieceCount(value) && Storable(value)
    ensures var r := PutPieces(db, key, value, i);
            forall j: nat :: i <= j < PieceCount(value) ==> PieceKey(key, j) in r && r[PieceKey(key, j)] == Piece(value, j)
    decreases PieceCount(value) - i
  {
    hide PieceKey, Piece;
    if i < PieceCount(value) {
      var db' := db[PieceKey(key, Cut(i)) := Piece(value, i)];
      PutPiecesThere(db', key, value, i + 1);
      PutPiecesKeeps(db', key, value, i + 1);
      forall j: nat | i + 1 <= j < PieceCount(value) ensures PieceKey(key, i) != PieceKey(key, Cut(j)) {
        if PieceKey(key, i) == PieceKey(key, Cut(j)) {
          PieceKeyInjective(key, i, key, Cut(j));
        }
      }
    }
  }

  lemma {:induction false} DropPiecesKeeps(db: Database, key: string, i: nat, count: nat)
    requires i <= count <= MAX_PIECES
    ensures var r := DropPieces(db, key, i, count);
            forall name :: !PieceName(key, name) ==>
                             (name in db <==> name in r) && (name in db ==> r[name] == db[name])
    decreases count - i
  {
    hide PieceKey;
    if i < count {
      assert PieceName(key, PieceKey(key, i));
      DropPiecesKeeps(db - {PieceKey(key, i)}, key, i + 1, count);
    }
  }

  /** The value is there: as one entry without a sum, or as a sum and all its pieces. */
  ghost predicate Holds(db: Database, key: string, value: string) {
    if |value| > THRESHOLD then
      && SumKey(key) in db && db[SumKey(key)] == SumText(PieceCount(value), |value|)
      && forall i: nat :: i < PieceCount(value) ==> PieceKey(key, i) in db && db[PieceKey(key, i)] == Piece(value, i)
    else SumKey(key) !in db && key in db && db[key] == value
  }

  ghost predicate GoodSum(db: Database, key: string) {
    SumKey(key) in db ==> exists count: nat, size: nat :: Countable(count, size) && db[SumKey(key)] == SumText(count, size)
  }

  predicate Countable(count: nat, size: nat) {
    count < 0x1_0000_0000 && size < 0x8000_0000_0000_0000
  }

  /** As many pieces as 32 bits count. */
  predicate Storable(value: string) {
    Countable(PieceCount(value), |value|)
  }

  lemma ReadSumText(db: Database, key: string, count: nat, size: nat)
    requires SumKey(key) in db && db[SumKey(key)] == SumText(count, size) && Countable(count, size)
    ensures ReadSum(db, key) == Sum(count, size)
  {
    hide Get, SumJson, SumText, SumKey;
    SumTextReads(count, size);
    SumFields(count, size);
  }

  lemma SumTextReads(count: nat, size: nat)
    requires Countable(count, size)
    ensures SumText(count, size) != "" && LoadText(SumText(count, size)) == Parsed(SumJson(count, size), |SumText(count, size)|)
  {
    SumIsSound(count, size);
    hide Dump, Strip, Sound, Strippable, ParseNext;
    LoadStrippedDump(SumJson(count, size), "\0", OfString);
    NulIsNull();
    EmptyLeft("\0");
  }

  lemma NulIsNull()
    ensures ParseNext("\0", 0, OfString) == Parsed(Null, 0)
  {
    assert SkipWs("\0", 0) == 0;
    assert ParseValue("\0", 0, OfString) == ParseScalar("\0", 0, OfString);
  }

  lemma SumIsSound(count: nat, size: nat)
    requires Countable(count, size)
    ensures Sound(SumJson(count, size), OfString) && Strippable(SumJson(count, size))
  {
    hide StrLess, Word, Sound, Strippable, SoundFields, StrippableFields;
    var a, b := Field("persist_size", Integral(size)), Field("persist_sum", Integral(count));
    SumKeysOrdered();
    SoundNumbers(count, size);
    SoundCons(b, [], OfString);
    SoundCons(a, [b] + [], OfString);
    StrippableCons(b, []);
    StrippableCons(a, [b] + []);
    assert [a, b] == [a] + ([b] + []);
    assert KeysAscend([a, b]);
    ObjectSound([a, b]);
  }

  lemma SumKeysOrdered()
    ensures StrLess("persist_size", "persist_sum") && Word("persist_size") && Word("persist_sum")
    ensures SoundFields([], OfString) && StrippableFields([])
  {
    hide StrLess;
    SizeBeforeSum("persist_size", "persist_sum");
  }

  lemma SizeBeforeSum(size: string, sum: string)
    requires size == "persist_size" && sum == "persist_sum"
    ensures StrLess(size, sum)
  {
    hide StrLess;
    var p, a, b := size[..9], size[9..], sum[9..];
    assert size == p + a && sum == p + b && a[0] == 'i' && b[0] == 'u';
    SharedPrefix(p, a, b);
  }

  lemma SoundNumbers(count: nat, size: nat)
    requires Countable(count, size)
    ensures Sound(Integral(count), OfString) && Sound(Integral(size), OfString)
    ensures Strippable(Integral(count)) && Strippable(Integral(size))
  {
  }

  lemma ObjectSound(fs: seq<Field>)
    requires KeysAscend(fs) && SoundFields(fs, OfString) && StrippableFields(fs)
    ensures Sound(Object(fs), OfString) && Strippable(Object(fs))
  {
    hide KeysAscend, SoundFields, StrippableFields;
  }

  lemma SumFields(count: nat, size: nat)
    ensures Get(SumJson(count, size), "persist_sum") == Integral(count)
    ensures Get(SumJson(count, size), "persist_size") == Integral(size)
  {
    var a, b := Field("persist_size", Integral(size)), Field("persist_sum", Integral(count));
    assert [a, b][1..] == [b];
    assert "persist_size"[9] != "persist_sum"[9];
    assert Lookup([a, b], "persist_sum") == Lookup([b], "persist_sum");
  }

  /** After a successful set the value is there, the sum readable, and no other name touched. */
  lemma SetHolds(db: Database, key: string, value: string)
    requires GoodSum(db, key) && Storable(value)
    ensures Stored(db, key, value).Some?
    ensures var db' := Stored(db, key, value).value;
            Holds(db', key, value) && GoodSum(db', key) && TouchesOnly(db, db', key)
  {
    hide Stored, Holds, GoodSum, TouchesOnly;
    if |value| > THRESHOLD {
      LargeHolds(db, key, value);
    } else {
      SmallHolds(db, key, value);
    }
  }

  lemma LargeHolds(db: Database, key: string, value: string)
    requires Storable(value) && |value| > THRESHOLD
    ensures Stored(db, key, value).Some?
    ensures var db' := Stored(db, key, value).value;
            Holds(db', key, value) && GoodSum(db', key) && TouchesOnly(db, db', key)
  {
    hide PieceKey, SumKey, SumText, ReadSum, Piece, PutPieces;
    LargeStored(db, key, value);
    PutPiecesKeeps(db, key, value, 0);
    PutPiecesThere(db, key, value, 0);
    forall i: nat ensures PieceKey(key, i) != SumKey(key) {
      PieceIsNoSum(key, i, key);
    }
    forall name: string, j: nat | j < PieceCount(value) && name == PieceKey(key, Cut(j)) ensures PieceName(key, name) {
      assert Cut(j) < MAX_PIECES;
    }
  }

  lemma SmallHolds(db: Database, key: string, value: string)
    requires GoodSum(db, key) && |value| <= THRESHOLD
    ensures Stored(db, key, value).Some?
    ensures var db' := Stored(db, key, value).value;
            Holds(db', key, value) && GoodSum(db', key) && TouchesOnly(db, db', key)
  {
    KeyIsNoPart(key);
    hide PieceKey, SumKey, SumText, ReadSum, DropPieces;
    if SumKey(key) in db {
      var count: nat, size: nat :| Countable(count, size) && db[SumKey(key)] == SumText(count, size);
      ReadSumText(db, key, count, size);
      DropPiecesKeeps(db, key, 0, count);
    }
  }

  lemma StorableCounts(value: string)
    requires Storable(value)
    ensures Countable(PieceCount(value), |value|)
  {
  }

  /** The pieces tile the value: after i of them the buffer starts with the first i times THRESHOLD characters. */
  lemma {:induction false} FillHolds(db: Database, key: string, value: string, i: nat, buffer: string, strict: bool)
    requires |value| > THRESHOLD && Holds(db, key, value) && i <= PieceCount(value) && |buffer| == |value|
    requires var at := Offset(value, i); buffer[..at] == value[..at]
    ensures Fill(db, key, i, PieceCount(value), Offset(value, i), buffer, true, strict) == Found(value)
    decreases PieceCount(value) - i
  {
    hide PieceKey, SumKey, SumText;
    var at := Offset(value, i);
    if i < PieceCount(value) {
      var part := Piece(value, i);
      OffsetNext(value, i);
      var next := buffer[..at] + part + buffer[at + |part|..];
      assert next[..at + |part|] == value[..at] + value[at..at + |part|] == value[..at + |part|];
      FillHolds(db, key, value, i + 1, next, strict);
    } else {
      assert buffer[..at] == buffer && value[..at] == value;
    }
  }

  lemma OffsetNext(value: string, i: nat)
    requires i < PieceCount(value)
    ensures Offset(value, i) == i * THRESHOLD && Offset(value, i + 1) == Offset(value, i) + |Piece(value, i)|
    ensures Piece(value, i) == value[Offset(value, i)..Offset(value, i + 1)]
  {
  }

  /** What is there is what a get returns: no copy leaves the buffer. */
  lemma GetHolds(db: Database, key: string, value: string, strict: bool)
    requires Holds(db, key, value) && Storable(value)
    ensures Fetched(db, key, strict) == Found(value)
  {
    hide Piece, PieceKey, SumKey, SumText, ReadSum;
    if |value| > THRESHOLD {
      StorableCounts(value);
      ReadSumText(db, key, PieceCount(value), |value|);
      FillHolds(db, key, value, 0, Zeros(|value|), strict);
    }
  }

  // ----- What a get finds in any database -----

  /** Of the first n pieces those that are there, one behind the other. */
  function Joined(db: Database, key: string, n: nat): string {
    if n == 0 then ""
    else Joined(db, key, n - 1) + if PieceKey(key, n - 1) in db then db[PieceKey(key, n - 1)] else ""
  }

  ghost predicate AllThere(db: Database, key: string, n: nat) {
    forall i: nat :: i < n ==> PieceKey(key, i) in db
  }

  predicate LastThere(db: Database, key: string, n: nat) {
    n == 0 || PieceKey(key, n - 1) in db
  }

  lemma {:induction false} JoinedGrows(db: Database, key: string, m: nat, n: nat)
    requires m <= n
    ensures |Joined(db, key, m)| <= |Joined(db, key, n)|
  {
    hide PieceKey;
    if m < n {
      JoinedGrows(db, key, m, n - 1);
    }
  }

  lemma {:induction false} FillIs(db: Database, key: string, i: nat, count: nat, buffer: string, found: bool, strict: bool)
    requires i <= count && |Joined(db, key, i)| <= |buffer| && found == LastThere(db, key, i) && (strict ==> AllThere(db, key, i))
    requires buffer == Joined(db, key, i) + Zeros(|buffer| - |Joined(db, key, i)|)
    ensures var r, all := Fill(db, key, i, count, |Joined(db, key, i)|, buffer, found, strict), Joined(db, key, count);
            && (r.Found? <==> |all| <= |buffer| && if strict then AllThere(db, key, count) else LastThere(db, key, count))
            && (r.Found? ==> r.value == all + Zeros(|buffer| - |all|))
            && (r == Overrun ==> |all| > |buffer|)
            && (!strict && |all| > |buffer| ==> r == Overrun)
            && r != Corrupt
    decreases count - i
  {
    hide PieceKey;
    var at := Joined(db, key, i);
    if i < count {
      var here := PieceKey(key, i) in db;
      var part := if here then db[PieceKey(key, i)] else "";
      assert Joined(db, key, i + 1) == at + part;
      JoinedGrows(db, key, i + 1, count);
      FillStep(db, key, i, count, |at|, buffer, found, strict);
      if !(strict && !here) && |at + part| <= |buffer| {
        var next := buffer[..|at|] + part + buffer[|at| + |part|..];
        assert buffer[..|at|] == at && buffer[|at| + |part|..] == Zeros(|buffer| - |at + part|);
        FillIs(db, key, i + 1, count, next, here, strict);
      }
    }
  }

  /** What a get finds, whatever the database: without a sum the plain entry; with one that cannot be read or claims a
      negative size nothing; else the pieces that are there, filled up with zeros to the size claimed, provided that
      they fit and that, for the strict form, all are there, for the other the last one. */
  lemma WhatAGetFinds(db: Database, key: string, strict: bool)
    ensures SumKey(key) !in db ==> Fetched(db, key, strict) == if key in db then Found(db[key]) else NotFound
    ensures SumKey(key) in db ==>
              var p, r := LoadText(db[SumKey(key)]), Fetched(db, key, strict);
              && (r == Corrupt <==> p.Fault? || ToInt(Get(p.value, "persist_size")) < 0)
              && (p.Parsed? && r != Corrupt ==>
                    var count, size := ToInt(Get(p.value, "persist_sum")) % 0x1_0000_0000, ToInt(Get(p.value, "persist_size"));
                    var all := Joined(db, key, count);
                    && (r.Found? <==> |all| <= size && if strict then AllThere(db, key, count) else LastThere(db, key, count))
                    && (r.Found? ==> r.value == all + Zeros(size - |all|))
                    && (r == Overrun ==> |all| > size) && (!strict && |all| > size ==> r == Overrun))
  {
    hide PieceKey, SumKey, Fill, LoadText, Get;
    if SumKey(key) in db {
      var p := LoadText(db[SumKey(key)]);
      if p.Parsed? && ToInt(Get(p.value, "persist_size")) >= 0 {
        EmptyLeft(Zeros(ToInt(Get(p.value, "persist_size"))));
        FillIs(db, key, 0, ToInt(Get(p.value, "persist_sum")) % 0x1_0000_0000, Zeros(ToInt(Get(p.value, "persist_size"))), true, strict);
      }
    }
  }

  /** A set fails only for a small value over a sum that cannot be read. */
  lemma SetFailsWhen(db: Database, key: string, value: string)
    ensures Stored(db, key, value).None? <==> |value| <= THRESHOLD && SumKey(key) in db && LoadText(db[SumKey(key)]).Fault?
  {
    hide PieceKey, SumKey, LoadText, DropPieces, PutPieces, SumText;
  }

  /** A set of an independent key leaves a value alone. */
  lemma OtherHolds(db: Database, db': Database, key: string, other: string, value: string)
    requires TouchesOnly(db, db', key) && Independent(key, other) && Holds(db, other, value) && Storable(value)
    ensures Holds(db', other, value)
  {
    PartsUntouched(db, db', key, other);
    hide Piece, PieceKey, SumKey, SumText, PartName;
  }

  lemma PartsUntouched(db: Database, db': Database, key: string, other: string)
    requires TouchesOnly(db, db', key) && Independent(key, other)
    ensures other in db <==> other in db'
    ensures other in db ==> db[other] == db'[other]
    ensures SumKey(other) in db <==> SumKey(other) in db'
    ensures SumKey(other) in db ==> db[SumKey(other)] == db'[SumKey(other)]
    ensures forall i: nat :: i < MAX_PIECES && PieceKey(other, i) in db ==> PieceKey(other, i) in db' && db[PieceKey(other, i)] == db'[PieceKey(other, i)]
  {
    hide PieceKey, SumKey;
    assert PartName(other, SumKey(other));
    PartsApart(other, key, SumKey(other));
    forall i: nat | i < MAX_PIECES && PieceKey(other, i) in db
      ensures PieceKey(other, i) in db' && db[PieceKey(other, i)] == db'[PieceKey(other, i)]
    {
      assert PartName(other, PieceKey(other, i));
      PartsApart(other, key, PieceKey(other, i));
    }
  }

  lemma OtherGood(db: Database, db': Database, key: string, other: string)
    requires TouchesOnly(db, db', key) && Independent(key, other) && GoodSum(db, other)
    ensures GoodSum(db', other)
  {
    PartsUntouched(db, db', key, other);
    hide PieceKey, SumKey, SumText, PartName;
  }

  // ----- What a small value clears away -----

  lemma {:induction false} DropPiecesClears(db: Database, key: string, i: nat, count: nat)
    requires i <= count
    ensures var r := DropPieces(db, key, i, count);
            && (forall name :: name in r <==> name in db && forall j: nat :: i <= j < count ==> name != PieceKey(key, j))
            && (forall name :: name in r ==> r[name] == db[name])
    decreases count - i
  {
    hide PieceKey;
    if i < count {
      var r := DropPieces(db, key, i, count);
      var less := db - {PieceKey(key, i)};
      DropPiecesClears(less, key, i + 1, count);
      assert r == DropPieces(less, key, i + 1, count);
      forall name ensures name in r <==> name in db && forall j: nat :: i <= j < count ==> name != PieceKey(key, j) {
        assert name in less <==> name in db && name != PieceKey(key, i);
        assert name in r <==> name in less && forall j: nat :: i + 1 <= j < count ==> name != PieceKey(key, j);
      }
    }
  }

  /** A small value over a large one: every piece that the sum counted and the sum itself are gone, the value stands
      under the key, and every other entry is as it was. */
  lemma SmallClears(db: Database, key: string, value: string)
    requires |value| <= THRESHOLD && ReadSum(db, key).Sum?
    ensures var r, count := Stored(db, key, value), ReadSum(db, key).count;
            && r.Some? && key in r.value && r.value[key] == value
            && (forall name :: name != key ==>
                                 (name in r.value <==> name in db && name != SumKey(key) && forall j: nat :: j < count ==> name != PieceKey(key, j))
                                 && (name in r.value ==> r.value[name] == db[name]))
  {
    DropPiecesClears(db, key, 0, ReadSum(db, key).count);
    KeyIsNoPart(key);
    hide DropPieces, PieceKey, SumKey, ReadSum;
  }

  /** Once a small value follows, no piece and no sum of a large one is left. */
  lemma LargeLeavesNothing(db: Database, key: string, large: string, small: string)
    requires Storable(large) && |large| > THRESHOLD && |small| <= THRESHOLD
    ensures Stored(db, key, large).Some?
    ensures var r := Stored(Stored(db, key, large).value, key, small);
            && r.Some? && SumKey(key) !in r.value
            && forall i: nat :: i < PieceCount(large) ==> PieceKey(key, i) !in r.value
  {
    hide Stored, DropPieces, PieceKey, SumKey, SumText, ReadSum, GoodSum, TouchesOnly;
    LargeHolds(db, key, large);
    var db' := Stored(db, key, large).value;
    ReadSumText(db', key, PieceCount(large), |large|);
    SmallClears(db', key, small);
    KeyIsNoPart(key);
    assert PartName(key, SumKey(key));
    forall i: nat | i < PieceCount(large) ensures PieceKey(key, i) != key {
      assert PieceName(key, PieceKey(key, i));
    }
  }

  // ----- Histories -----

  datatype Write = Write(key: string, value: string)

  function Replay(db: Database, writes: seq<Write>): Option<Database>
    decreases |writes|
  {
    if writes == [] then Some(db)
    else match Stored(db, writes[0].key, writes[0].value)
         case None => None
         case Some(db') => Replay(db', writes[1..])
  }

  function LastValue(writes: seq<Write>, key: string, otherwise: Option<string>): Option<string> {
    if writes == [] then otherwise
    else LastValue(writes[1..], key, if writes[0].key == key then Some(writes[0].value) else otherwise)
  }

  ghost predicate KeysIndependent(writes: seq<Write>, key: string) {
    && (forall i :: 0 <= i < |writes| ==> writes[i].key == key || Independent(writes[i].key, key))
    && (forall i, j :: 0 <= i < |writes| && 0 <= j < |writes| ==>
                         writes[i].key == writes[j].key || Independent(writes[i].key, writes[j].key))
  }

  ghost predicate AllStorable(writes: seq<Write>) {
    forall i :: 0 <= i < |writes| ==> Storable(writes[i].value)
  }

  /** The key has the value, or nothing at all when none is given. */
  ghost predicate Has(db: Database, key: string, value: Option<string>) {
    match value
    case Some(v) => Holds(db, key, v)
    case None => key !in db && SumKey(key) !in db
  }

  lemma {:induction false} HistoryHolds(db: Database, writes: seq<Write>, key: string, before: Option<string>)
    requires KeysIndependent(writes, key) && AllStorable(writes) && Has(db, key, before) && (before.Some? ==> Storable(before.value))
    requires forall i :: 0 <= i < |writes| ==> GoodSum(db, writes[i].key)
    ensures Replay(db, writes).Some? && Has(Replay(db, writes).value, key, LastValue(writes, key, before))
    decreases |writes|
  {
    hide Independent, GoodSum, Stored, Holds, Storable, TouchesOnly, SumKey;
    if writes != [] {
      var w := writes[0];
      SetHolds(db, w.key, w.value);
      var db' := Stored(db, w.key, w.value).value;
      forall i | 0 <= i < |writes| ensures GoodSum(db', writes[i].key) {
        if writes[i].key != w.key {
          OtherGood(db, db', w.key, writes[i].key);
        }
      }
      var now := if w.key == key then Some(w.value) else before;
      if w.key != key {
        OtherHas(db, db', w.key, key, before);
      }
      HistoryHolds(db', writes[1..], key, now);
    }
  }

  lemma OtherHas(db: Database, db': Database, key: string, other: string, value: Option<string>)
    requires TouchesOnly(db, db', key) && Independent(key, other) && Has(db, other, value) && (value.Some? ==> Storable(value.value))
    ensures Has(db', other, value)
  {
    PartsUntouched(db, db', key, other);
    if value.Some? {
      OtherHolds(db, db', key, other, value.value);
    }
  }

  lemma {:induction false} LastIsStorable(writes: seq<Write>, key: string, before: Option<string>)
    requires AllStorable(writes) && (before.Some? ==> Storable(before.value))
    ensures LastValue(writes, key, before).Some? ==> Storable(LastValue(writes, key, before).value)
  {
    hide Storable;
    if writes != [] {
      LastIsStorable(writes[1..], key, if writes[0].key == key then Some(writes[0].value) else before);
    }
  }

  /** A get after these sets, in a DB that was empty, returns the value set last, or finds nothing if none was. */
  ghost predicate GivesLast(writes: seq<Write>, key: string, strict: bool) {
    var r := Replay(map[], writes);
    && r.Some?
    && Fetched(r.value, key, strict)
       == match LastValue(writes, key, None) case Some(v) => Found(v) case None => NotFound
  }

  /** After any history of small and large sets of independent keys, a get returns the value set last, and
      finds nothing for a key never set. */
  lemma LastSetIsGot(writes: seq<Write>, key: string, strict: bool)
    requires KeysIndependent(writes, key) && AllStorable(writes)
    ensures GivesLast(writes, key, strict)
  {
    hide Independent, Holds, Storable, Stored, Fill, LastValue;
    HistoryHolds(map[], writes, key, None);
    LastIsStorable(writes, key, None);
    var r := Replay(map[], writes).value;
    match LastValue(writes, key, None) {
      case Some(v) => GetHolds(r, key, v, strict);
      case None =>
    }
  }

  /** With sealing in front and unsealing behind. */
  lemma SealedRoundTrip(db: Database, key: string, value: string, seal: string -> Sealed, unseal: string -> Option<string>)
    requires GoodSum(db, key) && unseal(seal(value)) == Some(value)
    ensures Stored(db, key, seal(value)).Some?
    ensures var got := Fetched(Stored(db, key, seal(value)).value, key, true);
            got.Found? && unseal(got.value) == Some(value)
  {
    hide Stored, Fetched, Holds;
    SetHolds(db, key, seal(value));
    GetHolds(Stored(db, key, seal(value)).value, key, seal(value), true);
  }

  /** A large set deletes neither the pieces beyond its own nor the plain value. */
  lemma StaleStays(db: Database, key: string, value: string, i: nat)
    requires |value| > THRESHOLD
    ensures var db' := Stored(db, key, value).value;
            && (i >= PieceCount(value) && PieceKey(key, i) in db ==>
                  PieceKey(key, i) in db' && db'[PieceKey(key, i)] == db[PieceKey(key, i)])
            && (key in db ==> key in db' && db'[key] == db[key])
  {
    hide PieceKey, SumKey, SumText, Piece, PutPieces;
    PutPiecesKeeps(db, key, value, 0);
    PieceIsNoSum(key, i, key);
    LongerSum(key);
    forall j: nat | j < PieceCount(value)
      ensures key != PieceKey(key, Cut(j)) && (i >= PieceCount(value) ==> PieceKey(key, i) != PieceKey(key, Cut(j)))
    {
      LongerKey(key, Cut(j));
      if i >= PieceCount(value) && PieceKey(key, i) == PieceKey(key, Cut(j)) {
        PieceKeyInjective(key, i, key, Cut(j));
      }
    }
  }

  lemma LongerKey(key: string, i: nat)
    ensures |PieceKey(key, i)| > |key|
  {
  }

  // ----- Without independence -----

  /** Whatever the sets of the given keys, a get of one of them returns its last value. */
  ghost predicate AlwaysLast(keys: set<string>, strict: bool) {
    forall writes: seq<Write>, key ::
      key in keys && AllStorable(writes) && (forall i :: 0 <= i < |writes| ==> writes[i].key in keys) ==> GivesLast(writes, key, strict)
  }

  /** Independence is exactly what it takes: of two keys of which one is a part name of the other, a small value
      under the former is lost by a large one under the latter. */
  lemma IndependenceIsExact(keys: set<string>, strict: bool)
    ensures AlwaysLast(keys, strict) <==> forall a, b :: a in keys && b in keys && a != b ==> Independent(a, b)
  {
    hide Independent, GivesLast, Storable, PartName;
    if forall a, b :: a in keys && b in keys && a != b ==> Independent(a, b) {
      forall writes: seq<Write>, key | key in keys && AllStorable(writes) && forall i :: 0 <= i < |writes| ==> writes[i].key in keys
        ensures GivesLast(writes, key, strict)
      {
        LastSetIsGot(writes, key, strict);
      }
    }
    if AlwaysLast(keys, strict) {
      forall a, b | a in keys && b in keys && a != b ensures Independent(a, b) {
        NotOverwritten(keys, a, b, strict);
        NotOverwritten(keys, b, a, strict);
        NeitherPart(a, b);
      }
    }
  }

  lemma NeitherPart(a: string, b: string)
    requires a != b && !PartName(a, b) && !PartName(b, a)
    ensures Independent(a, b)
  {
  }

  lemma NotOverwritten(keys: set<string>, a: string, b: string, strict: bool)
    requires AlwaysLast(keys, strict) && a in keys && b in keys && a != b
    ensures !PartName(a, b)
  {
    if PartName(a, b) {
      var i: nat :| i < MAX_PIECES && (b == PieceKey(a, i) || b == SumKey(a));
      var writes := [Write(b, ""), Write(a, Large(i))];
      SmallIsStorable();
      hide Storable, GivesLast, Large;
      assert GivesLast(writes, b, strict);
      PartIsOverwritten(a, b, i, strict);
    }
  }

  /** A value with a piece i. */
  function Large(i: nat): (value: string)
    ensures |value| == (if i == 0 then 1 else i) * THRESHOLD + 1
    ensures i < MAX_PIECES ==> Storable(value) && |value| > THRESHOLD && i < PieceCount(value)
  {
    seq((if i == 0 then 1 else i) * THRESHOLD + 1, _ => 'x')
  }

  lemma PartIsOverwritten(a: string, b: string, i: nat, strict: bool)
    requires a != b && i < MAX_PIECES && (b == PieceKey(a, i) || b == SumKey(a))
    ensures !GivesLast([Write(b, ""), Write(a, Large(i))], b, strict)
  {
    hide PieceKey, SumKey, Large, Storable, SumText, Piece, Fill;
    var value := Large(i);
    var writes := [Write(b, ""), Write(a, value)];
    var db := map[b := ""];
    var put := PutPieces(db, a, value, 0);
    var db' := put[SumKey(a) := SumText(PieceCount(value), |value|)];
    assert Replay(map[], writes) == Some(db') by { TwoWrites(a, b, value); }
    LastOfTwo(a, b, value);
    StorableCounts(value);
    PutPiecesKeeps(db, a, value, 0);
    PutPiecesThere(db, a, value, 0);
    PieceIsNoSum(a, i, a);
    SumTextReads(PieceCount(value), |value|);
    assert b in db' && db'[b] != "";
    assert SumKey(b) !in db' by {
      forall j: nat ensures SumKey(b) != PieceKey(a, j) {
        PieceIsNoSum(a, j, b);
      }
      LongerSum(b);
      if SumKey(b) == SumKey(a) {
        SumKeyInjective(a, b);
      }
    }
  }

  lemma LongerSum(key: string)
    ensures |SumKey(key)| > |key|
  {
  }

  lemma SmallIsStorable()
    ensures Storable("")
  {
  }

  lemma TwoWrites(a: string, b: string, value: string)
    requires |value| > THRESHOLD && Storable(value)
    ensures Replay(map[], [Write(b, ""), Write(a, value)])
         == Some(PutPieces(map[b := ""], a, value, 0)[SumKey(a) := SumText(PieceCount(value), |value|)])
  {
    hide PutPieces, SumText, SumKey, Stored;
    var writes, one := [Write(b, ""), Write(a, value)], [Write(a, value)];
    assert writes[1..] == one && one[1..] == [];
    FirstStored(b);
    LargeStored(map[b := ""], a, value);
    assert Replay(map[], writes) == Replay(map[b := ""], one);
    var db := PutPieces(map[b := ""], a, value, 0)[SumKey(a) := SumText(PieceCount(value), |value|)];
    assert Replay(map[b := ""], one) == Replay(db, []);
  }

  lemma FirstStored(key: string)
    ensures Stored(map[], key, "") == Some(map[key := ""])
  {
  }

  lemma LargeStored(db: Database, key: string, value: string)
    requires |value| > THRESHOLD && Storable(value)
    ensures Stored(db, key, value) == Some(PutPieces(db, key, value, 0)[SumKey(key) := SumText(PieceCount(value), |value|)])
  {
  }

  lemma LastOfTwo(a: string, b: string, value: string)
    requires a != b
    ensures LastValue([Write(b, ""), Write(a, value)], b, None) == Some("")
  {
    var writes, one := [Write(b, ""), Write(a, value)], [Write(a, value)];
    assert writes[1..] == one && one[1..] == [];
    assert LastValue(writes, b, None) == LastValue(one, b, Some(""));
    assert LastValue(one, b, Some("")) == LastValue([], b, Some(""));
  }

  // ----- The keys of the worker -----

  /** The tree and the entry of a sealed file, and what is kept about the worker itself. */
  predicate WorkerKey(key: string) {
    || IsHashText(key)
    || (|key| == 2 * HASH_LENGTH + 5 && IsHashText(key[..2 * HASH_LENGTH]) && key[2 * HASH_LENGTH..] == "_meta")
    || key in {"metadata", "wl_spec_info", "srd_info"}
  }

  lemma NeverPartName(a: string, key: string)
    requires WorkerKey(key)
    ensures !PartName(a, key)
  {
    assert '_' !in key || (key != "" && !IsDigit(key[|key| - 1]) && key[|key| - 1] != 'm') by { KeyEnd(key); }
    hide WorkerKey;
    assert SumKey(a)[|a|] == '_' && SumKey(a)[|a| + 3] == 'm';
    forall i: nat ensures PieceKey(a, i) != key {
      var d := Decimal(i);
      assert PieceKey(a, i)[|a|] == '_' && PieceKey(a, i)[|a| + |d|] == d[|d| - 1] && IsDigit(d[|d| - 1]);
    }
  }

  lemma KeyEnd(key: string)
    requires WorkerKey(key)
    ensures '_' !in key || (key != "" && !IsDigit(key[|key| - 1]) && key[|key| - 1] != 'm')
  {
    if IsHashText(key) {
      assert '_' !in key;
    } else if |key| == 2 * HASH_LENGTH + 5 && key[2 * HASH_LENGTH..] == "_meta" {
      assert key[|key| - 1] == key[2 * HASH_LENGTH..][4] == 'a';
    }
  }

  /** No key of the worker is a part name, so for the keys it uses a get always returns the value set last. */
  lemma WorkerReadsLast(writes: seq<Write>, key: string, strict: bool)
    requires WorkerKey(key) && AllStorable(writes) && forall i :: 0 <= i < |writes| ==> WorkerKey(writes[i].key)
    ensures GivesLast(writes, key, strict)
  {
    hide WorkerKey, GivesLast, Storable, PartName, Independent;
    forall a, b | WorkerKey(a) && WorkerKey(b) && a != b ensures Independent(a, b) {
      NeverPartName(a, b);
      NeverPartName(b, a);
      NeitherPart(a, b);
    }
    LastSetIsGot(writes, key, strict);
  }
}
