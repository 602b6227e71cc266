/** Which records the rebuilt index still finds after a compaction, in every reachable state. */
module BaseSurvivors {
  import opened BaseIndex
  import opened BaseChains
  import opened BaseStore
  import opened BaseReads
  import opened BaseOptimize

  // ---------- the rebuild, chain by chain ----------

  /** The chain of bucket h once the records are stored one after the other. */
  function Stacked(recs: seq<Item>, h: nat): (chain: seq<Item>)
    ensures chain != []
  {
    if recs == [] then [FREE_ITEM]
    else
      var chain, item := Stacked(recs[..|recs| - 1], h), recs[|recs| - 1];
      if Hash(item.id) == h then Stack(chain, item.(next := 0)) else chain
  }

  lemma StackIsChange(chain: seq<Item>, item: Item)
    requires chain != [] && item.id != 0
    ensures var k := if chain[0].id == 0 then 0 else EndOf(chain, item.id);
      Stack(chain, item)
        == if chain[0].id != 0 && chain[k].id != item.id && chain[k].id != 0
           then ChangedList(chain, k, chain[k], Extend(item))
           else ChangedList(chain, k, item, CutBehind)
  {
    var k := EndOf(chain, item.id);
    assert chain[..k] + [chain[k], item] == chain[..k + 1] + [item];
  }

  lemma StackOnOwnChain(ix: Index, item: Item)
    requires Shape(ix) && item.id != 0 && item.next == 0 && Shape(StoreLast(ix, item))
    ensures Items(StoreLast(ix, item), Hash(item.id)) == Stack(Items(ix, Hash(item.id)), item)
  {
    var chain, c := Items(ix, Hash(item.id)), Find(ix, item.id);
    EndsAtLast(ix, item.id);
    var end := ix[c].(next := 0);
    if ix[c].id != item.id && Mishash(ix, item.id) && ix[c].id != 0 {
      assert StoreLast(ix, item) == Changed(ix, c, end, Extend(item));
      FindChanges(ix, item.id, end, Extend(item));
    } else {
      assert StoreLast(ix, item) == Changed(ix, c, item, CutBehind);
      FindChanges(ix, item.id, item, CutBehind);
    }
    hide Items, Walk, Find, Changed;
    StackIsChange(chain, item);
  }

  lemma StackOnChains(ix: Index, item: Item, h: nat)
    requires WellFormed(ix) && item.id != 0 && h < DPS_HASH_PRIME
    ensures Shape(StoreLast(ix, item))
    ensures Items(StoreLast(ix, item), h)
         == if h == Hash(item.id) then Stack(Items(ix, h), item.(next := 0)) else Items(ix, h)
  {
    StoreLastKeepsWellFormed(ix, item);
    assert StoreLast(ix, item) == StoreLast(ix, item.(next := 0));
    if h == Hash(item.id) {
      StackOnOwnChain(ix, item.(next := 0));
    } else {
      var buckets :| Bucketed(ix, buckets);
      FindStaysInBucket(ix, buckets, item.id);
      OtherChain(ix, StoreLast(ix, item), buckets, Find(ix, item.id), h);
    }
  }

  lemma {:induction false} RebuildStacks(recs: seq<Item>, h: nat)
    requires NoFreeIds(recs) && h < DPS_HASH_PRIME
    ensures Items(Rebuild(recs), h) == Stacked(recs, h)
  {
    if recs == [] {
    } else {
      var init := recs[..|recs| - 1];
      RebuildStacks(init, h);
      hide StoreLast;
      StackOnChains(Rebuild(init), recs[|recs| - 1], h);
    }
  }

  // ---------- which records stay in their chain ----------

  /** A chain under construction: a free head, or items of the bucket with different ids. */
  ghost predicate OneOfEach(chain: seq<Item>, h: nat) {
    || chain == [FREE_ITEM]
    || (&& (forall k | 0 <= k < |chain| :: chain[k].id != 0 && Hash(chain[k].id) == h)
        && (forall k, m | 0 <= k < m < |chain| :: chain[k].id != chain[m].id))
  }

  lemma StackKeepsOneOfEach(chain: seq<Item>, item: Item, h: nat)
    requires chain != [] && OneOfEach(chain, h) && item.id != 0 && Hash(item.id) == h
    ensures OneOfEach(Stack(chain, item), h)
  {
  }

  lemma {:induction false} StackedIsOneOfEach(recs: seq<Item>, h: nat)
    requires NoFreeIds(recs)
    ensures OneOfEach(Stacked(recs, h), h)
  {
    if recs == [] {
    } else {
      var init, item := recs[..|recs| - 1], recs[|recs| - 1];
      StackedIsOneOfEach(init, h);
      if Hash(item.id) == h {
        StackKeepsOneOfEach(Stacked(init, h), item.(next := 0), h);
      }
    }
  }

  /** The chain of record i's bucket right after it was stored; record i is its last item. */
  function ChainAt(recs: seq<Item>, i: nat): (chain: seq<Item>)
    requires i < |recs|
    ensures chain != []
  {
    Stacked(recs[..i + 1], Hash(recs[i].id))
  }

  /** Record j repeats the id of record i or of a record ahead of it in its chain. */
  predicate Cuts(recs: seq<Item>, i: nat, j: nat)
    requires i < |recs| && j < |recs|
  {
    Hash(recs[j].id) == Hash(recs[i].id) && First(ChainAt(recs, i), recs[j].id) < |ChainAt(recs, i)|
  }

  /** Some later record before the n-th cuts record i off. */
  predicate CutBefore(recs: seq<Item>, i: nat, n: nat)
    requires i < |recs| && n <= |recs|
  {
    exists j :: i < j < n && Cuts(recs, i, j)
  }

  predicate CutOff(recs: seq<Item>, i: nat)
    requires i < |recs|
  {
    CutBefore(recs, i, |recs|)
  }

  ghost predicate AllDifferent(recs: seq<Item>) {
    forall i, j | 0 <= i < j < |recs| :: recs[i].(next := 0) != recs[j].(next := 0)
  }

  /** Up to record n: the chain still starts with what record i saw, or record i is not in it. */
  ghost predicate KeptOrLost(recs: seq<Item>, i: nat, n: nat)
    requires i < n <= |recs|
  {
    var chain, now := ChainAt(recs, i), Stacked(recs[..n], Hash(recs[i].id));
    if CutBefore(recs, i, n) then recs[i].(next := 0) !in now else chain <= now
  }

  lemma StoredIsLast(recs: seq<Item>, i: nat)
    requires NoFreeIds(recs) && i < |recs|
    ensures var chain := ChainAt(recs, i); chain[|chain| - 1] == recs[i].(next := 0)
  {
    assert recs[..i + 1][..i] == recs[..i];
  }

  lemma CutBeforeStep(recs: seq<Item>, i: nat, n: nat)
    requires i < n < |recs|
    ensures CutBefore(recs, i, n + 1) <==> CutBefore(recs, i, n) || Cuts(recs, i, n)
  {
    hide Cuts;
    if CutBefore(recs, i, n) {
      var j :| i < j < n && Cuts(recs, i, j);
      assert i < j < n + 1 && Cuts(recs, i, j);
    }
  }

  lemma {:induction false} Survival(recs: seq<Item>, i: nat, n: nat)
    requires NoFreeIds(recs) && AllDifferent(recs) && i < n <= |recs|
    ensures KeptOrLost(recs, i, n)
  {
    if n > i + 1 {
      Survival(recs, i, n - 1);
      assert recs[..n][..n - 1] == recs[..n - 1];
      StoredIsLast(recs, i);
      CutBeforeStep(recs, i, n - 1);
      var h, x, y := Hash(recs[i].id), recs[n - 1].(next := 0), recs[i].(next := 0);
      StackedIsOneOfEach(recs[..n - 1], h);
      var now := Stacked(recs[..n - 1], h);
      assert Stacked(recs[..n], h) == if Hash(x.id) == h then Stack(now, x) else now;
      assert x.id != 0 && y != x && y.id != 0;
      hide Stacked, CutBefore, OneOfEach, NoFreeIds, AllDifferent, Stack, First;
      if Hash(x.id) == h {
        OneMoreStacked(ChainAt(recs, i), now, x, y, h);
      }
    }
  }

  /** One more record: it keeps the prefix unless its id is in it, and never brings a record back. */
  lemma OneMoreStacked(chain: seq<Item>, now: seq<Item>, x: Item, y: Item, h: nat)
    requires chain != [] && now != [] && OneOfEach(now, h) && x.id != 0 && y != x && y.id != 0
    requires chain[|chain| - 1] == y
    ensures y !in now ==> y !in Stack(now, x)
    ensures chain <= now && First(chain, x.id) == |chain| ==> chain <= Stack(now, x)
    ensures chain <= now && First(chain, x.id) < |chain| ==> y !in Stack(now, x)
  {
  }

  /** A search of the rebuilt chain ends at record i exactly when nothing cut it off. */
  lemma FoundUnlessCutOff(recs: seq<Item>, i: nat)
    requires NoFreeIds(recs) && AllDifferent(recs) && i < |recs|
    ensures var chain := Stacked(recs, Hash(recs[i].id)); var k := First(chain, recs[i].id);
      (k < |chain| && chain[k] == recs[i].(next := 0)) <==> !CutOff(recs, i)
  {
    Survival(recs, i, |recs|);
    assert recs[..|recs|] == recs;
    StoredIsLast(recs, i);
    StackedIsOneOfEach(recs, Hash(recs[i].id));
    hide Stacked, CutBefore;
    var chain, before := Stacked(recs, Hash(recs[i].id)), ChainAt(recs, i);
    if !CutOff(recs, i) {
      assert chain[|before| - 1] == recs[i].(next := 0);
    }
  }

  lemma {:induction false} StackedFrom(recs: seq<Item>, h: nat, x: Item) returns (j: nat)
    requires x in Stacked(recs, h) && x.id != 0
    ensures j < |recs| && recs[j].(next := 0) == x
  {
    var init, item := recs[..|recs| - 1], recs[|recs| - 1];
    if x == item.(next := 0) {
      j := |recs| - 1;
    } else {
      j := StackedFrom(init, h, x);
    }
  }

  // ---------- only the ids matter ----------

  ghost predicate SameIds(a: seq<Item>, b: seq<Item>) {
    |a| == |b| && forall k | 0 <= k < |a| :: a[k].id == b[k].id
  }

  lemma {:induction false} FirstSameIds(a: seq<Item>, b: seq<Item>, id: nat)
    requires SameIds(a, b)
    ensures First(a, id) == First(b, id)
  {
    if a != [] {
      FirstSameIds(a[1..], b[1..], id);
    }
  }

  lemma {:induction false} StackedSameIds(a: seq<Item>, b: seq<Item>, h: nat)
    requires SameIds(a, b)
    ensures SameIds(Stacked(a, h), Stacked(b, h))
  {
    if a != [] {
      var a', b' := a[..|a| - 1], b[..|b| - 1];
      StackedSameIds(a', b', h);
      FirstSameIds(Stacked(a', h), Stacked(b', h), a[|a| - 1].id);
    }
  }

  lemma CutOffSameIds(a: seq<Item>, b: seq<Item>, i: nat)
    requires SameIds(a, b) && i < |a|
    ensures CutOff(a, i) <==> CutOff(b, i)
  {
    StackedSameIds(a[..i + 1], b[..i + 1], Hash(a[i].id));
    hide Stacked;
    forall j | i < j < |a| ensures Cuts(a, i, j) <==> Cuts(b, i, j) {
      FirstSameIds(ChainAt(a, i), ChainAt(b, i), a[j].id);
    }
  }

  // ---------- compaction ----------

  lemma PackedDifferent(st: Files)
    requires ExtentsOk(st)
    ensures AllDifferent(Packed(Records(st))) && SameIds(Packed(Records(st)), Records(st))
    ensures NoFreeIds(Packed(Records(st))) && InFile(Records(st), |st.data|)
  {
    var recs := Records(st);
    PackedIds(st);
    RecordsInFile(st);
    RecordsNonEmpty(st);
    hide Records, Packed, PackedData, TotalSize;
    var packed := Packed(recs);
    forall i | 0 <= i < |recs| ensures packed[i].id == recs[i].id && packed[i].size > 0 {
      PackedRecord(st.data, recs, i);
    }
    forall i, j | 0 <= i < j < |packed| ensures packed[i].(next := 0) != packed[j].(next := 0) {
      PackedApart(st.data, recs, i, j);
    }
  }

  /** The search in the compacted store for record i's id ends at record i, moved. */
  ghost predicate FoundAgain(st: Files, i: nat)
    requires ExtentsOk(st) && i < |Records(st)| && Shape(Optimize(st).index)
  {
    var recs, ix := Records(st), Optimize(st).index;
    SameRecord(ix[Find(ix, recs[i].id)], Packed(recs)[i])
  }

  /** Compaction, exactly, in every state: the i-th kept record in offset order is found again if and
      only if no later one repeats its id or the id of a record stored ahead of it in its chain; then
      it reads back its bytes. */
  lemma FoundAgainExact(st: Files, i: nat)
    requires ExtentsOk(st) && i < |Records(st)|
    ensures var st' := Optimize(st); var recs := Records(st);
      && ExtentsOk(st') && WellFormed(st'.index) && recs[i].id != 0
      && (FoundAgain(st, i) <==> !CutOff(recs, i))
      && (!CutOff(recs, i) ==> Lookup(st', recs[i].id) == Some(RecordOf(st.data, recs[i])))
  {
    var recs, st' := Records(st), Optimize(st);
    var packed, id := Packed(recs), recs[i].id;
    OptimizeExtents(st);
    PackedDifferent(st);
    PackedRecord(st.data, recs, i);
    CutOffSameIds(packed, recs, i);
    RebuildStacks(packed, Hash(id));
    FoundUnlessCutOff(packed, i);
    FindIsFirst(st'.index, id);
    StackedIsOneOfEach(packed, Hash(id));
    hide Records, Packed, PackedData, Rebuild, CutOff, Stacked;
    var chain := Stacked(packed, Hash(id));
    assert chain == ChainOf(st', id);
    assert First(chain, id) < |chain| ==> chain[0].id != 0;
  }

  /** An id is not found after a compaction exactly when every kept record of it was cut off. */
  lemma GoneExact(st: Files, id: nat)
    requires ExtentsOk(st) && id != 0
    ensures var st' := Optimize(st); var recs := Records(st);
      && ExtentsOk(st') && WellFormed(st'.index)
      && (Lookup(st', id) == None <==> forall i | 0 <= i < |recs| && recs[i].id == id :: CutOff(recs, i))
  {
    var recs, st' := Records(st), Optimize(st);
    OptimizeExtents(st);
    forall i | 0 <= i < |recs| && recs[i].id == id && !CutOff(recs, i) ensures Lookup(st', id) != None {
      FoundAgainExact(st, i);
    }
    if Lookup(st', id) != None {
      var i := FoundIsRecord(st, id);
      hide Optimize, CutOff, Records, Packed;
      FoundAgainExact(st, i);
    }
  }

  /** What a search finds in the compacted store is one of the kept records, moved. */
  lemma FoundIsRecord(st: Files, id: nat) returns (i: nat)
    requires ExtentsOk(st) && id != 0 && ExtentsOk(Optimize(st)) && WellFormed(Optimize(st).index)
    requires Lookup(Optimize(st), id) != None
    ensures i < |Records(st)| && Records(st)[i].id == id && FoundAgain(st, i)
  {
    var recs, st' := Records(st), Optimize(st);
    var packed := Packed(recs);
    PackedDifferent(st);
    RebuildStacks(packed, Hash(id));
    FindIsFirst(st'.index, id);
    hide Records, Packed, PackedData, Rebuild, Stacked;
    var chain := ChainOf(st', id);
    i := StackedFrom(packed, Hash(id), chain[First(chain, id)]);
  }

  /** The rebuild leaves no free head slot with live items in its bucket, cut off or not. */
  lemma {:induction false} RebuildHeadOk(recs: seq<Item>)
    requires NoFreeIds(recs)
    ensures HeadOk(Rebuild(recs))
  {
    if recs == [] {
      EmptyIsSearchable();
    } else {
      RebuildHeadOk(recs[..|recs| - 1]);
      hide Rebuild;
      StoreLastKeepsHeadOk(Rebuild(recs[..|recs| - 1]), recs[|recs| - 1]);
      assert Rebuild(recs) == StoreLast(Rebuild(recs[..|recs| - 1]), recs[|recs| - 1]) by { RebuildStep(recs); }
    }
  }

  lemma RebuildStep(recs: seq<Item>)
    requires NoFreeIds(recs) && recs != []
    ensures Rebuild(recs) == StoreLast(Rebuild(recs[..|recs| - 1]), recs[|recs| - 1])
  {
  }

  lemma StoreLastKeepsHeadOk(ix: Index, item: Item)
    requires WellFormed(ix) && HeadOk(ix) && item.id != 0
    ensures HeadOk(StoreLast(ix, item))
  {
    var c, ix' := Find(ix, item.id), StoreLast(ix, item);
    var buckets :| Bucketed(ix, buckets);
    FindStaysInBucket(ix, buckets, item.id);
    assert Live(ix', Hash(item.id));
    forall p: nat | Live(ix', p) ensures Live(ix', Hash(ix'[p].id)) {
      if ix'[p].id != item.id {
        assert Live(ix, p) && ix[p].id == ix'[p].id;
        assert Live(ix, Hash(ix[p].id));
      }
    }
  }

  /** Compaction in every state: kept records that are not cut off read back their bytes, an id is
      gone exactly when all its kept records were cut off, nothing is hidden any more, and distinct
      ids stay distinct. */
  lemma OptimizePreserves(st: Files)
    requires Invariant(st)
    ensures var st' := Optimize(st); var recs := Records(st);
      && Invariant(st') && HeadOk(st'.index) && (Valid(st) ==> Valid(st'))
      && (forall p: nat | KeptAt(st, p) && !CutOffAt(st, p) ::
            Lookup(st', st.index[p].id) == Some(RecordAt(st, p)))
      && (forall id | id != 0 ::
            Lookup(st', id) == None <==> forall i | 0 <= i < |recs| && recs[i].id == id :: CutOff(recs, i))
  {
    var st', recs := Optimize(st), Records(st);
    OptimizeExtents(st);
    PackedDifferent(st);
    RebuildHeadOk(Packed(recs));
    if Valid(st) {
      OptimizeValid(st);
    }
    hide Optimize, Records, Packed, Lookup, KeptAt, CutOff, Rebuild, CutOffAt, HeadOk, Searchable, RecordAt;
    forall p: nat | KeptAt(st, p) && !CutOffAt(st, p)
      ensures Lookup(st', st.index[p].id) == Some(RecordAt(st, p))
    {
      KeptReads(st, p);
    }
    forall id | id != 0
      ensures Lookup(st', id) == None <==> forall i | 0 <= i < |recs| && recs[i].id == id :: CutOff(recs, i)
    {
      GoneExact(st, id);
    }
  }

  lemma KeptReads(st: Files, p: nat)
    requires Invariant(st) && KeptAt(st, p) && !CutOffAt(st, p)
    ensures Invariant(Optimize(st)) && Live(st.index, p)
    ensures Lookup(Optimize(st), st.index[p].id) == Some(RecordAt(st, p))
  {
    KeptUnlessAlone(st, p);
    hide KeptAt, Optimize, Lookup, CutOff;
    SurvivesExactly(st, p);
  }

  /** A live record is cut off by the records stored after it. */
  ghost predicate CutOffAt(st: Files, p: nat)
    requires p < |st.index|
  {
    exists i :: 0 <= i < |Records(st)| && Records(st)[i] == st.index[p] && CutOff(Records(st), i)
  }

  ghost predicate Survives(st: Files, p: nat)
    requires ExtentsOk(st) && p < |st.index| && Shape(Optimize(st).index)
  {
    exists i :: 0 <= i < |Records(st)| && Records(st)[i] == st.index[p] && FoundAgain(st, i)
  }

  /** A live non-empty record survives compaction, in every state, exactly when it is not the only
      one and no later record cuts it off; the only one is gone, and in a valid state nothing is cut
      off. */
  lemma SurvivesExactly(st: Files, p: nat)
    requires Invariant(st) && NonEmpty(st, p)
    ensures var st' := Optimize(st);
      && Invariant(st')
      && (Survives(st, p) <==> (exists q: nat :: q != p && NonEmpty(st, q)) && !CutOffAt(st, p))
      && (Survives(st, p) ==> Lookup(st', st.index[p].id) == Some(RecordAt(st, p)))
      && ((forall q: nat | q != p :: !NonEmpty(st, q)) ==> Lookup(st', st.index[p].id) == None)
      && (Valid(st) ==> !CutOffAt(st, p))
  {
    OptimizeExtents(st);
    KeptUnlessAlone(st, p);
    hide Optimize, CutOff, Records, KeptAt, Lookup, FoundAgain, Invariant, Searchable, ExtentsOk;
    if KeptAt(st, p) {
      var i := RecordIndex(st, p);
      FoundAgainExact(st, i);
      if Valid(st) {
        DistinctNotCut(st, i);
      }
    } else {
      NotKeptNotRecord(st, p);
      if forall q: nat | q != p :: !NonEmpty(st, q) {
        LoneRecordIsLost(st, p);
      }
    }
  }

  lemma LoneRecordIsLost(st: Files, p: nat)
    requires Invariant(st) && NonEmpty(st, p) && forall q: nat | q != p :: !NonEmpty(st, q)
    ensures Invariant(Optimize(st)) && Lookup(Optimize(st), st.index[p].id) == None
  {
    OptimizeExtents(st);
    RecordsMembers(st);
    forall q: nat ensures !KeptAt(st, q) {
      KeptUnlessAlone(st, q);
    }
    hide KeptAt, Records, Optimize, Lookup, CutOff;
    assert |Records(st)| == 0;
    GoneExact(st, st.index[p].id);
  }

  lemma RecordIndex(st: Files, p: nat) returns (i: nat)
    requires ExtentsOk(st) && KeptAt(st, p)
    ensures i < |Records(st)| && forall j | 0 <= j < |Records(st)| :: Records(st)[j] == st.index[p] <==> j == i
  {
    RecordsMembers(st);
    RecordsDiffer(st);
    hide Records, KeptAt;
    assert KeptItem(st, st.index[p]);
    i :| 0 <= i < |Records(st)| && Records(st)[i] == st.index[p];
  }

  lemma NotKeptNotRecord(st: Files, p: nat)
    requires ExtentsOk(st) && Live(st.index, p) && !KeptAt(st, p)
    ensures forall i | 0 <= i < |Records(st)| :: Records(st)[i] != st.index[p]
  {
    RecordsMembers(st);
    hide Records, ActualSize;
    forall i | 0 <= i < |Records(st)| ensures Records(st)[i] != st.index[p] {
      assert KeptItem(st, Records(st)[i]);
      var q: nat :| KeptAt(st, q) && st.index[q] == Records(st)[i];
      assert Keep(st.index[q], |st.data|, ActualSize(st.index, |st.index|, |st.data|));
    }
  }

  lemma RecordsDiffer(st: Files)
    requires ExtentsOk(st)
    ensures forall i, j | 0 <= i < j < |Records(st)| :: Records(st)[i] != Records(st)[j]
  {
    RecordsSpaced(st);
    RecordsNonEmpty(st);
    hide Records;
  }

  lemma DistinctNotCut(st: Files, i: nat)
    requires Valid(st) && i < |Records(st)|
    ensures !CutOff(Records(st), i)
  {
    RecordsDistinct(st);
    PackedDifferent(st);
    var recs := Records(st);
    hide Records, Packed, Valid;
    forall m, j | 0 <= m < j < |recs| ensures recs[m].id != recs[j].id {
      assert DifferentIds(Packed(recs)[m], Packed(recs)[j]);
    }
    forall j | i < j < |recs| ensures !Cuts(recs, i, j) {
      if Cuts(recs, i, j) {
        var m := AheadIsStored(recs, i, recs[j].id);
      }
    }
  }

  /** An id found in record i's chain is that of a record up to i. */
  lemma AheadIsStored(recs: seq<Item>, i: nat, id: nat) returns (m: nat)
    requires i < |recs| && id != 0 && First(ChainAt(recs, i), id) < |ChainAt(recs, i)|
    ensures m <= i && recs[m].id == id
  {
    var chain := ChainAt(recs, i);
    m := StackedFrom(recs[..i + 1], Hash(recs[i].id), chain[First(chain, id)]);
  }
}
