/** DpsBaseOptimize's compaction: pack the kept extents and rebuild the index. */
module BaseOptimize {
  import opened BaseIndex
  import opened BaseStore
  import opened Sorting

  // ---------- what is kept ----------

  /** A record the size count includes. */
  predicate Counted(item: Item, fileSize: nat) {
    item.id != 0 && item.offset < fileSize && item.size > 0
  }

  /** ActualSize: the sizes of the counted records among the first n items. */
  function ActualSize(ix: Index, n: nat, fileSize: nat): nat
    requires n <= |ix|
  {
    if n == 0 then 0
    else ActualSize(ix, n - 1, fileSize) + (if Counted(ix[n - 1], fileSize) then ix[n - 1].size else 0)
  }

  predicate Keep(item: Item, fileSize: nat, actual: nat) {
    Counted(item, fileSize) && item.size < actual
  }

  /** The items the rebuilt index starts from, in file order. */
  function Kept(ix: Index, n: nat, fileSize: nat, actual: nat): seq<Item>
    requires n <= |ix|
  {
    if n == 0 then []
    else Kept(ix, n - 1, fileSize, actual) + (if Keep(ix[n - 1], fileSize, actual) then [ix[n - 1]] else [])
  }

  /** cmpsi. */
  predicate OffsetLe(a: Item, b: Item) {
    a.offset <= b.offset
  }

  lemma {:induction false} KeptFromIndex(ix: Index, n: nat, fileSize: nat, actual: nat)
    requires n <= |ix|
    ensures forall x :: x in Kept(ix, n, fileSize, actual) <==>
      exists p :: 0 <= p < n && ix[p] == x && Keep(ix[p], fileSize, actual)
  {
    if n == 0 {
    } else {
      KeptFromIndex(ix, n - 1, fileSize, actual);
      forall x ensures x in Kept(ix, n, fileSize, actual) <==>
        exists p :: 0 <= p < n && ix[p] == x && Keep(ix[p], fileSize, actual)
      {
        if p :| 0 <= p < n && ix[p] == x && Keep(ix[p], fileSize, actual) {
          if p < n - 1 {
            assert x in Kept(ix, n - 1, fileSize, actual);
          }
        }
      }
    }
  }

  lemma {:induction false} KeptPairwise(rel: (Item, Item) -> bool, ix: Index, n: nat, fileSize: nat, actual: nat)
    requires n <= |ix|
    requires forall p, q | 0 <= p < q < n && Keep(ix[p], fileSize, actual) && Keep(ix[q], fileSize, actual) ::
      rel(ix[p], ix[q]) && rel(ix[q], ix[p])
    ensures Pairwise(rel, Kept(ix, n, fileSize, actual))
  {
    if n == 0 {
    } else {
      KeptPairwise(rel, ix, n - 1, fileSize, actual);
      KeptFromIndex(ix, n - 1, fileSize, actual);
      var t := Kept(ix, n - 1, fileSize, actual);
      forall i | 0 <= i < |t| ensures t[i] in t { }
    }
  }

  // ---------- packing the data file ----------

  function TotalSize(recs: seq<Item>): nat {
    if recs == [] then 0 else TotalSize(recs[..|recs| - 1]) + recs[|recs| - 1].size
  }

  /** The records with their offsets made the running sums of their sizes. */
  function Packed(recs: seq<Item>): (packed: seq<Item>)
    ensures |packed| == |recs|
  {
    if recs == [] then []
    else
      var init := recs[..|recs| - 1];
      Packed(init) + [recs[|recs| - 1].(offset := TotalSize(init))]
  }

  ghost predicate InFile(recs: seq<Item>, fileSize: nat) {
    forall i | 0 <= i < |recs| :: recs[i].offset + recs[i].size <= fileSize
  }

  /** The records' extents, one after the other. */
  function PackedData(data: seq<byte>, recs: seq<Item>): (packed: seq<byte>)
    requires InFile(recs, |data|)
    ensures |packed| == TotalSize(recs)
  {
    if recs == [] then []
    else
      PackedData(data, recs[..|recs| - 1]) + Extent(data, recs[|recs| - 1].offset, recs[|recs| - 1].size)
  }

  /** Packed record i keeps its id and sizes, starts at the sum of the sizes before it, and its
      extent in the packed file is its old extent. */
  lemma {:induction false} PackedRecord(data: seq<byte>, recs: seq<Item>, i: nat)
    requires InFile(recs, |data|) && i < |recs|
    ensures Packed(recs)[i] == recs[i].(offset := TotalSize(recs[..i]))
    ensures TotalSize(recs[..i]) + recs[i].size <= TotalSize(recs)
    ensures Extent(PackedData(data, recs), TotalSize(recs[..i]), recs[i].size)
         == Extent(data, recs[i].offset, recs[i].size)
  {
    var init := recs[..|recs| - 1];
    if i == |recs| - 1 {
    } else {
      PackedRecord(data, init, i);
      assert init[..i] == recs[..i];
      var t := TotalSize(recs[..i]);
      assert Extent(PackedData(data, recs), t, recs[i].size) == Extent(PackedData(data, init), t, recs[i].size);
    }
  }

  lemma {:induction false} PackedApart(data: seq<byte>, recs: seq<Item>, i: nat, j: nat)
    requires InFile(recs, |data|) && i < j < |recs|
    ensures Packed(recs)[i].offset + recs[i].size <= Packed(recs)[j].offset
  {
    PackedRecord(data, recs, j);
    PackedRecord(data, recs, i);
    PackedRecord(data, recs[..j], i);
    assert recs[..j][..i] == recs[..i];
  }

  // ---------- rebuilding the index ----------

  /** The index step of the rebuild; unlike Store it always ends the chain at the item. */
  function StoreLast(ix: Index, item: Item): Index
    requires Shape(ix)
  {
    var c := Find(ix, item.id);
    if ix[c].id != item.id && Mishash(ix, item.id) && ix[c].id != 0 then Append(ix, c, item.(next := 0))
    else ix[c := item.(next := 0)]
  }

  lemma StoreLastKeepsWellFormed(ix: Index, item: Item)
    requires WellFormed(ix) && item.id != 0
    ensures WellFormed(StoreLast(ix, item))
  {
    var buckets :| Bucketed(ix, buckets);
    var c := Find(ix, item.id);
    FindStaysInBucket(ix, buckets, item.id);
    if ix[c].id != item.id && Mishash(ix, item.id) && ix[c].id != 0 {
      AppendKeeps(ix, buckets, c, item.(next := 0));
    } else {
      assert Bucketed(ix[c := item.(next := 0)], buckets);
    }
  }

  predicate NoFreeIds(recs: seq<Item>) {
    forall i | 0 <= i < |recs| :: recs[i].id != 0
  }

  function Rebuild(recs: seq<Item>): (ix: Index)
    requires NoFreeIds(recs)
    ensures WellFormed(ix)
  {
    if recs == [] then
      assert WellFormed(EmptyIndex()) by { EmptyIsSearchable(); }
      EmptyIndex()
    else
      var ix := Rebuild(recs[..|recs| - 1]);
      assert WellFormed(StoreLast(ix, recs[|recs| - 1])) by { StoreLastKeepsWellFormed(ix, recs[|recs| - 1]); }
      StoreLast(ix, recs[|recs| - 1])
  }

  /** The same record, wherever the two items link to. */
  predicate SameRecord(a: Item, b: Item) {
    a == b.(next := a.next)
  }

  ghost predicate AmongRecords(item: Item, recs: seq<Item>) {
    exists i :: 0 <= i < |recs| && SameRecord(item, recs[i])
  }

  ghost predicate InIndex(ix: Index, item: Item) {
    exists p: nat :: Live(ix, p) && SameRecord(ix[p], item)
  }

  /** The live items of the index are the records, up to links. */
  ghost predicate Holds(ix: Index, recs: seq<Item>) {
    && (forall p: nat | Live(ix, p) :: AmongRecords(ix[p], recs))
    && (forall i | 0 <= i < |recs| :: InIndex(ix, recs[i]))
  }

  ghost predicate FreeEnds(ix: Index) {
    forall p | 0 <= p < |ix| && ix[p].id == 0 :: ix[p].next == 0
  }

  predicate DifferentIds(a: Item, b: Item) {
    a.id != b.id
  }

  ghost predicate Rebuilt(ix: Index, recs: seq<Item>) {
    Holds(ix, recs) && Searchable(ix) && HeadOk(ix) && FreeEnds(ix)
  }

  lemma EmptyRebuilt()
    ensures Rebuilt(EmptyIndex(), [])
  {
    EmptyIsSearchable();
  }

  /** Rebuilding from records with distinct ids gives an index that holds exactly them. */
  lemma {:induction false} RebuildHolds(recs: seq<Item>)
    requires NoFreeIds(recs)
    requires Pairwise(DifferentIds, recs)
    ensures Rebuilt(Rebuild(recs), recs)
  {
    hide Rebuilt, EmptyIndex, StoreLast;
    if recs == [] {
      EmptyRebuilt();
    } else {
      var init, item := recs[..|recs| - 1], recs[|recs| - 1];
      RebuildHolds(init);
      RebuildOneMore(Rebuild(init), recs);
    }
  }

  lemma NewId(ix: Index, recs: seq<Item>)
    requires recs != [] && Holds(ix, recs[..|recs| - 1]) && Pairwise(DifferentIds, recs)
    ensures forall p: nat | Live(ix, p) :: ix[p].id != recs[|recs| - 1].id
  {
    var init := recs[..|recs| - 1];
    forall p: nat | Live(ix, p) ensures ix[p].id != recs[|recs| - 1].id {
      assert AmongRecords(ix[p], init);
      var i :| 0 <= i < |init| && SameRecord(ix[p], init[i]);
      assert DifferentIds(recs[i], recs[|recs| - 1]);
    }
  }

  lemma RebuildOneMore(ix: Index, recs: seq<Item>)
    requires recs != [] && Rebuilt(ix, recs[..|recs| - 1]) && Pairwise(DifferentIds, recs)
    requires recs[|recs| - 1].id != 0
    ensures Rebuilt(StoreLast(ix, recs[|recs| - 1]), recs)
  {
    hide Holds, HeadOk, FreeEnds, Pairwise, Linked, DistinctIds, Bucketed, Shape,
      Store, StoreLast, StoredAt, OneSlotChanged, Find;
    var init, item := recs[..|recs| - 1], recs[|recs| - 1];
    NewId(ix, recs);
    NewIdIsStored(ix, item);
    StoreKeepsFreeEnds(ix, item);
    StoreKeepsSearchable(ix, item);
    StoreChangesOneSlot(ix, item);
    HoldsOneMore(ix, Store(ix, item), StoredAt(ix, item.id), init, item);
    assert init + [item] == recs;
  }

  lemma StoreKeepsFreeEnds(ix: Index, item: Item)
    requires Shape(ix) && FreeEnds(ix) && item.id != 0
    ensures FreeEnds(Store(ix, item))
  {
  }

  lemma NewIdIsStored(ix: Index, item: Item)
    requires Shape(ix) && item.id != 0 && FreeEnds(ix)
    requires forall p: nat | Live(ix, p) :: ix[p].id != item.id
    ensures StoreLast(ix, item) == Store(ix, item)
    ensures StoredAt(ix, item.id) < |ix| ==> ix[StoredAt(ix, item.id)].id == 0
  {
    var c := Find(ix, item.id);
    assert !Live(ix, c) || ix[c].id != item.id;
  }

  lemma HoldsOneMore(ix: Index, ix': Index, s: nat, recs: seq<Item>, item: Item)
    requires OneSlotChanged(ix, ix', s, item) && Holds(ix, recs) && item.id != 0
    requires s < |ix| ==> ix[s].id == 0
    ensures Holds(ix', recs + [item])
  {
    var recs' := recs + [item];
    forall p: nat | Live(ix', p) ensures AmongRecords(ix'[p], recs') {
      if p == s {
        assert SameRecord(ix'[p], recs'[|recs|]);
      } else {
        assert Live(ix, p) && AmongRecords(ix[p], recs);
        var i :| 0 <= i < |recs| && SameRecord(ix[p], recs[i]);
        assert SameRecord(ix'[p], recs'[i]);
      }
    }
    forall i | 0 <= i < |recs'| ensures InIndex(ix', recs'[i]) {
      if i == |recs| {
        assert Live(ix', s) && SameRecord(ix'[s], recs'[i]);
      } else {
        assert InIndex(ix, recs[i]);
        var p: nat :| Live(ix, p) && SameRecord(ix[p], recs[i]);
        assert Live(ix', p) && SameRecord(ix'[p], recs'[i]);
      }
    }
  }

  /** Each live item is one of the records, and no two live items are the same one. */
  ghost predicate Draws(ix: Index, recs: seq<Item>, from: seq<nat>) {
    && |from| == |ix|
    && (forall p | 0 <= p < |ix| && ix[p].id != 0 :: from[p] < |recs| && SameRecord(ix[p], recs[from[p]]))
    && (forall p, q | 0 <= p < q < |ix| && ix[p].id != 0 && ix[q].id != 0 :: from[p] != from[q])
  }

  lemma {:induction false} RebuildDraws(recs: seq<Item>) returns (from: seq<nat>)
    requires NoFreeIds(recs)
    ensures Draws(Rebuild(recs), recs, from)
  {
    if recs == [] {
      from := seq(DPS_HASH_PRIME, i => 0);
    } else {
      var n := |recs| - 1;
      from := RebuildDraws(recs[..n]);
      from := DrawsOneMore(Rebuild(recs[..n]), recs, from);
    }
  }

  lemma DrawsOneMore(ix: Index, recs: seq<Item>, from: seq<nat>) returns (from': seq<nat>)
    requires recs != [] && Shape(ix) && Draws(ix, recs[..|recs| - 1], from) && recs[|recs| - 1].id != 0
    ensures Draws(StoreLast(ix, recs[|recs| - 1]), recs, from')
  {
    var n := |recs| - 1;
    var c := Find(ix, recs[n].id);
    if ix[c].id != recs[n].id && Mishash(ix, recs[n].id) && ix[c].id != 0 {
      from' := from + [n];
    } else {
      from' := from[c := n];
    }
  }

  // ---------- optimize ----------

  /** The kept records in offset order. */
  function Records(st: Files): seq<Item> {
    var fileSize := |st.data|;
    Sort(OffsetLe, Kept(st.index, |st.index|, fileSize, ActualSize(st.index, |st.index|, fileSize)))
  }

  ghost predicate KeptAt(st: Files, p: nat) {
    p < |st.index| && Keep(st.index[p], |st.data|, ActualSize(st.index, |st.index|, |st.data|))
  }

  ghost predicate KeptItem(st: Files, x: Item) {
    exists p: nat :: KeptAt(st, p) && st.index[p] == x
  }

  lemma RecordsMembers(st: Files)
    ensures forall x :: x in Records(st) <==> KeptItem(st, x)
    ensures forall i | 0 <= i < |Records(st)| :: KeptItem(st, Records(st)[i])
  {
    var fileSize := |st.data|;
    var actual := ActualSize(st.index, |st.index|, fileSize);
    var kept := Kept(st.index, |st.index|, fileSize, actual);
    KeptFromIndex(st.index, |st.index|, fileSize, actual);
    hide Kept, ActualSize, Sort;
    forall x ensures x in Records(st) <==> KeptItem(st, x) {
      assert x in Records(st) <==> x in multiset(Records(st));
      assert multiset(Records(st)) == multiset(kept);
      assert x in multiset(kept) <==> x in kept;
      if x in kept {
        var p :| 0 <= p < |st.index| && st.index[p] == x && Keep(st.index[p], fileSize, actual);
        assert KeptAt(st, p as nat);
      }
      if p: nat :| KeptAt(st, p) && st.index[p] == x {
        assert 0 <= p < |st.index| && st.index[p] == x && Keep(st.index[p], fileSize, actual);
      }
    }
    forall i | 0 <= i < |Records(st)| ensures KeptItem(st, Records(st)[i]) {
      assert Records(st)[i] in Records(st);
    }
  }

  lemma RecordsInFile(st: Files)
    requires ExtentsOk(st)
    ensures InFile(Records(st), |st.data|) && NoFreeIds(Records(st))
  {
    RecordsMembers(st);
    hide Records, ActualSize;
    forall i | 0 <= i < |Records(st)|
      ensures Records(st)[i].offset + Records(st)[i].size <= |st.data| && Records(st)[i].id != 0
    {
      assert KeptItem(st, Records(st)[i]);
      var p: nat :| KeptAt(st, p) && st.index[p] == Records(st)[i];
      assert Live(st.index, p);
    }
  }

  /** Sorted kept records do not overlap and have no room to overlap once sorted. */
  lemma RecordsSpaced(st: Files)
    requires ExtentsOk(st)
    ensures Spaced(Records(st))
  {
    var fileSize := |st.data|;
    var actual := ActualSize(st.index, |st.index|, fileSize);
    var kept := Kept(st.index, |st.index|, fileSize, actual);
    ApartKept(st, actual);
    SortPairwise(OffsetLe, Apart, kept);
    SortOrdered(OffsetLe, kept);
    RecordsNonEmpty(st);
    hide Kept, ActualSize, Sort;
    var recs := Records(st);
    forall i, j | 0 <= i < j < |recs| ensures recs[i].offset + recs[i].size <= recs[j].offset {
      assert Apart(recs[i], recs[j]);
    }
  }

  lemma ApartKept(st: Files, actual: nat)
    requires ExtentsOk(st)
    ensures Pairwise(Apart, Kept(st.index, |st.index|, |st.data|, actual))
  {
    var n, fileSize := |st.index|, |st.data|;
    forall p, q | 0 <= p < q < n && Keep(st.index[p], fileSize, actual) && Keep(st.index[q], fileSize, actual)
      ensures Apart(st.index[p], st.index[q]) && Apart(st.index[q], st.index[p])
    {
      assert Live(st.index, p as nat) && Live(st.index, q as nat);
    }
    KeptPairwise(Apart, st.index, n, fileSize, actual);
  }

  lemma RecordsNonEmpty(st: Files)
    ensures forall i | 0 <= i < |Records(st)| :: Records(st)[i].size > 0
  {
    RecordsMembers(st);
    hide Records, ActualSize;
    forall i | 0 <= i < |Records(st)| ensures Records(st)[i].size > 0 {
      assert KeptItem(st, Records(st)[i]);
      var p: nat :| KeptAt(st, p) && st.index[p] == Records(st)[i];
    }
  }

  ghost predicate Spaced(recs: seq<Item>) {
    forall i, j | 0 <= i < j < |recs| :: recs[i].offset + recs[i].size <= recs[j].offset
  }

  /** DpsBaseOptimize when the compaction branch runs. */
  function Optimize(st: Files): (st': Files)
    requires ExtentsOk(st)
  {
    assert InFile(Records(st), |st.data|) by { RecordsInFile(st); }
    var packed := Packed(Records(st));
    assert NoFreeIds(packed) by { PackedIds(st); }
    Files(Rebuild(packed), PackedData(st.data, Records(st)))
  }

  lemma PackedIds(st: Files)
    requires ExtentsOk(st)
    ensures NoFreeIds(Packed(Records(st)))
  {
    RecordsInFile(st);
    var packed := Packed(Records(st));
    forall i | 0 <= i < |packed| ensures packed[i].id != 0 {
      PackedRecord(st.data, Records(st), i);
    }
  }

  lemma OptimizeExtents(st: Files)
    requires ExtentsOk(st)
    ensures ExtentsOk(Optimize(st)) && WellFormed(Optimize(st).index)
    ensures |Optimize(st).data| == TotalSize(Records(st))
  {
    RecordsInFile(st);
    PackedIds(st);
    var recs := Records(st);
    var packed := Packed(recs);
    var st' := Optimize(st);
    var from := RebuildDraws(packed);
    hide Records, Rebuild, Packed, PackedData;
    forall p: nat | Live(st'.index, p) ensures st'.index[p].offset + st'.index[p].size <= |st'.data| {
      PackedRecord(st.data, recs, from[p]);
    }
    forall p: nat, q: nat | p < q && Live(st'.index, p) && Live(st'.index, q)
      ensures Apart(st'.index[p], st'.index[q])
    {
      PackedRecord(st.data, recs, from[p]);
      PackedRecord(st.data, recs, from[q]);
      if from[p] < from[q] {
        PackedApart(st.data, recs, from[p], from[q]);
      } else {
        PackedApart(st.data, recs, from[q], from[p]);
      }
    }
  }

  // ---------- which records survive ----------

  ghost predicate NonEmpty(st: Files, p: nat) {
    Live(st.index, p) && st.index[p].size > 0
  }

  lemma {:induction false} ActualOfTwo(ix: Index, n: nat, fileSize: nat, p: nat, q: nat)
    requires p < q < n <= |ix| && Counted(ix[p], fileSize) && Counted(ix[q], fileSize)
    ensures ActualSize(ix, n, fileSize) >= ix[p].size + ix[q].size
  {
    if n == q + 1 {
      ActualOfOne(ix, q, fileSize, p);
    } else {
      ActualOfTwo(ix, n - 1, fileSize, p, q);
    }
  }

  lemma {:induction false} ActualOfOne(ix: Index, n: nat, fileSize: nat, p: nat)
    requires p < n <= |ix| && Counted(ix[p], fileSize)
    ensures ActualSize(ix, n, fileSize) >= ix[p].size
    ensures (forall q | 0 <= q < n && q != p :: !Counted(ix[q], fileSize)) ==>
      ActualSize(ix, n, fileSize) == ix[p].size
  {
    if n == p + 1 {
      if forall q | 0 <= q < n && q != p :: !Counted(ix[q], fileSize) {
        ActualOfNone(ix, p, fileSize);
      }
    } else {
      ActualOfOne(ix, n - 1, fileSize, p);
    }
  }

  lemma {:induction false} ActualOfNone(ix: Index, n: nat, fileSize: nat)
    requires n <= |ix| && forall q | 0 <= q < n :: !Counted(ix[q], fileSize)
    ensures ActualSize(ix, n, fileSize) == 0
  {
    if n == 0 {
    } else {
      ActualOfNone(ix, n - 1, fileSize);
    }
  }

  /** A live non-empty record is kept exactly when it is not the only one. */
  lemma KeptUnlessAlone(st: Files, p: nat)
    requires ExtentsOk(st)
    ensures KeptAt(st, p) <==> NonEmpty(st, p) && exists q: nat :: q != p && NonEmpty(st, q)
  {
    var n, fileSize := |st.index|, |st.data|;
    forall q: nat | q < n ensures Counted(st.index[q], fileSize) <==> NonEmpty(st, q) {
      assert Live(st.index, q) ==> st.index[q].offset + st.index[q].size <= fileSize;
    }
    if NonEmpty(st, p) {
      if q: nat :| q != p && NonEmpty(st, q) {
        ActualOfTwo(st.index, n, fileSize, if p < q then p else q, if p < q then q else p);
      } else {
        ActualOfOne(st.index, n, fileSize, p);
      }
    }
  }

  /** The records of a valid store have distinct ids and survive packing with their bytes. */
  lemma RecordsDistinct(st: Files)
    requires DistinctIds(st.index)
    ensures Pairwise(DifferentIds, Packed(Records(st)))
  {
    var fileSize := |st.data|;
    var actual := ActualSize(st.index, |st.index|, fileSize);
    KeptPairwise(DifferentIds, st.index, |st.index|, fileSize, actual);
    SortPairwise(OffsetLe, DifferentIds, Kept(st.index, |st.index|, fileSize, actual));
    PackedPairwise(Records(st));
  }

  lemma {:induction false} PackedPairwise(recs: seq<Item>)
    requires Pairwise(DifferentIds, recs)
    ensures Pairwise(DifferentIds, Packed(recs))
    ensures forall i | 0 <= i < |recs| :: Packed(recs)[i].id == recs[i].id
  {
    if recs == [] {
    } else {
      PackedPairwise(recs[..|recs| - 1]);
    }
  }

  /** Compaction of a valid store: every live non-empty record that is not alone reads back its
      bytes, everything else is gone, and no record is hidden any more. */
  lemma OptimizeValid(st: Files)
    requires Valid(st)
    ensures var st' := Optimize(st);
      && Valid(st') && HeadOk(st'.index)
      && (forall p: nat | KeptAt(st, p) :: Lookup(st', st.index[p].id) == Some(RecordAt(st, p)))
      && (forall id | id != 0 && (forall p: nat | KeptAt(st, p) :: st.index[p].id != id) ::
            Lookup(st', id) == None)
  {
    var recs, st' := Records(st), Optimize(st);
    var packed := Packed(recs);
    OptimizeExtents(st);
    PackedIds(st);
    RecordsDistinct(st);
    RebuildHolds(packed);
    RecordsInFile(st);
    RecordsMembers(st);
    hide Records, Packed, PackedData, Rebuild, Lookup, ActualSize, ExtentsOk, Searchable, Holds;
    forall p: nat | KeptAt(st, p) ensures Lookup(st', st.index[p].id) == Some(RecordAt(st, p)) {
      assert st.index[p] in recs;
      var i :| 0 <= i < |recs| && recs[i] == st.index[p];
      KeptReadsBack(st, st', recs, p, i);
    }
    forall id | id != 0 && (forall p: nat | KeptAt(st, p) :: st.index[p].id != id)
      ensures Lookup(st', id) == None
    {
      NotKeptIsGone(st, st', recs, id);
    }
  }

  lemma KeptReadsBack(st: Files, st': Files, recs: seq<Item>, p: nat, i: nat)
    requires ExtentsOk(st) && Live(st.index, p) && InFile(recs, |st.data|) && i < |recs| && recs[i] == st.index[p]
    requires Valid(st') && HeadOk(st'.index) && Holds(st'.index, Packed(recs)) && st'.data == PackedData(st.data, recs)
    ensures Lookup(st', st.index[p].id) == Some(RecordAt(st, p))
  {
    PackedRecord(st.data, recs, i);
    assert InIndex(st'.index, Packed(recs)[i]);
    hide Packed, PackedData, Lookup, Searchable, Holds;
    var q: nat :| Live(st'.index, q) && SameRecord(st'.index[q], Packed(recs)[i]);
    assert st'.index[q].id == st.index[p].id;
    LookupIsLiveRecord(st', st.index[p].id);
    assert Live(st'.index, Hash(st'.index[q].id));
    assert RecordAt(st', q) == RecordAt(st, p);
  }

  lemma NotKeptIsGone(st: Files, st': Files, recs: seq<Item>, id: nat)
    requires Valid(st') && Holds(st'.index, Packed(recs)) && id != 0 && InFile(recs, |st.data|)
    requires forall i | 0 <= i < |recs| :: KeptItem(st, recs[i])
    requires forall p: nat | KeptAt(st, p) :: st.index[p].id != id
    ensures Lookup(st', id) == None
  {
    hide ActualSize, Lookup, Searchable, Packed, PackedData, ExtentsOk, KeptAt;
    forall q: nat | Live(st'.index, q) ensures st'.index[q].id != id {
      assert AmongRecords(st'.index[q], Packed(recs));
      var i :| 0 <= i < |Packed(recs)| && SameRecord(st'.index[q], Packed(recs)[i]);
      PackedRecord(st.data, recs, i);
      assert KeptItem(st, recs[i]);
    }
    LookupIsLiveRecord(st', id);
  }
}
