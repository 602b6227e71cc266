/** What writes and deletes do to every read, in every reachable state. */
module BaseReads {
  import opened BaseIndex
  import opened BaseChains
  import opened BaseStore

  /** The record of an item; extents of live items are inside the data file. */
  function RecordOf(data: seq<byte>, item: Item): Record {
    Record(if item.offset + item.size <= |data| then Extent(data, item.offset, item.size) else [], item.origSize)
  }

  function ChainOf(st: Files, id: nat): (chain: seq<Item>)
    requires Shape(st.index)
    ensures chain != []
  {
    Items(st.index, Hash(id))
  }

  /** The first record of an id in its chain, whether or not a search can reach it. */
  function Chained(st: Files, id: nat): Option<Record>
    requires Shape(st.index)
  {
    var chain := ChainOf(st, id);
    var k := First(chain, id);
    if k < |chain| then Some(RecordOf(st.data, chain[k])) else None
  }

  /** A read gives the first record of the id in its chain, if the head slot is taken. */
  lemma LookupIsChained(st: Files, id: nat)
    requires Shape(st.index) && ExtentsOk(st) && id != 0
    ensures Lookup(st, id) == if Live(st.index, Hash(id)) then Chained(st, id) else None
  {
    FindIsFirst(st.index, id);
    EndsAtLast(st.index, id);
    var p := Find(st.index, id);
    assert st.index[p].id == id ==> Live(st.index, p);
  }

  lemma {:induction false} ItemsAreSlots(ix: Index, p: nat, k: nat) returns (q: nat)
    requires Shape(ix) && p < |ix| && k < |Items(ix, p)|
    ensures p <= q < |ix| && ix[q].(next := 0) == Items(ix, p)[k]
    decreases |ix| - p
  {
    q := p;
    if k > 0 {
      q := ItemsAreSlots(ix, ix[p].next, k - 1);
    }
  }

  // ---------- write ----------

  /** Where Put puts the item. */
  function PutAt(chain: seq<Item>, id: nat): (j: nat)
    requires chain != []
    ensures j <= |chain|
  {
    var k, n := First(chain, id), |chain|;
    if chain[0].id == 0 then 0 else if k < n then k else if chain[n - 1].id == 0 then n - 1 else n
  }

  lemma PutIsFirst(chain: seq<Item>, item: Item)
    requires chain != [] && item.id != 0
    ensures var chain' := Put(chain, item); var k := First(chain', item.id);
      chain'[0].id != 0 && k < |chain'| && chain'[k] == item
  {
    var chain', j := Put(chain, item), PutAt(chain, item.id);
    assert chain'[j] == item;
    assert forall m | 0 <= m < j :: chain'[m] == chain[m] && chain[m].id != item.id;
    assert First(chain', item.id) == j;
  }

  lemma PutKeepsOthers(chain: seq<Item>, item: Item, id: nat)
    requires chain != [] && id != 0 && id != item.id
    ensures var chain' := Put(chain, item); var k, k' := First(chain, id), First(chain', id);
      (k < |chain| <==> k' < |chain'|) && (k < |chain| ==> k' == k && chain'[k] == chain[k])
  {
    var chain', j := Put(chain, item), PutAt(chain, item.id);
    var k, k' := First(chain, id), First(chain', id);
    assert forall m | 0 <= m < |chain'| && m != j :: m < |chain| && chain'[m] == chain[m];
    assert chain'[j] == item && (j < |chain| ==> chain[j].id != id);
    if k < |chain| {
      assert chain'[k].id == id;
      assert forall m | 0 <= m < k :: chain[m].id != id && chain'[m].id != id;
    }
    if k' < |chain'| {
      assert chain[k'].id == id;
    }
  }

  /** The bytes of another id's items do not change. */
  lemma WriteKeepsBytes(st: Files, id: nat, r: Record, h: nat, k: nat)
    requires Invariant(st) && id != 0 && h < DPS_HASH_PRIME && k < |Items(st.index, h)|
    requires Items(st.index, h)[k].id != 0 && Items(st.index, h)[k].id != id
    ensures var x := Items(st.index, h)[k]; RecordOf(Write(st, id, r).data, x) == RecordOf(st.data, x)
  {
    var st', s := Write(st, id, r), StoredAt(st.index, id);
    WriteKeepsExtents(st, id, r);
    StoreChangesOneSlot(st.index, Item(id, WriteOffset(st, id, |r.bytes|), 0, |r.bytes|, r.origSize));
    hide Items, Write, Store, StoredAt;
    var q := ItemsAreSlots(st.index, h, k);
    assert Live(st.index, q) && q != s;
    assert Live(st'.index, q) && RecordAt(st', q) == RecordAt(st, q);
  }

  lemma WriteOnChains(st: Files, id: nat, r: Record, h: nat)
    requires Invariant(st) && id != 0 && h < DPS_HASH_PRIME
    ensures var st' := Write(st, id, r);
      var item := Item(id, WriteOffset(st, id, |r.bytes|), 0, |r.bytes|, r.origSize);
      && Invariant(st')
      && Items(st'.index, h) == (if h == Hash(id) then Put(Items(st.index, h), item) else Items(st.index, h))
      && RecordOf(st'.data, item) == r
  {
    var item := Item(id, WriteOffset(st, id, |r.bytes|), 0, |r.bytes|, r.origSize);
    StoreOnChains(st.index, item, h);
    WriteKeepsExtents(st, id, r);
    StoreChangesOneSlot(st.index, item);
  }

  /** A write makes its id read back, and brings back the records behind a free head; nothing else
      changes. */
  lemma ReadsAfterWrite(st: Files, id: nat, r: Record, id': nat)
    requires Invariant(st) && id != 0 && id' != 0
    ensures var st' := Write(st, id, r);
      && Invariant(st')
      && Lookup(st', id') == (if id' == id then Some(r)
                              else if Hash(id') == Hash(id) then Chained(st, id')
                              else Lookup(st, id'))
  {
    var st' := Write(st, id, r);
    var item := Item(id, WriteOffset(st, id, |r.bytes|), 0, |r.bytes|, r.origSize);
    var chain := ChainOf(st, id');
    WriteOnChains(st, id, r, Hash(id'));
    EndsAtLast(st.index, id');
    EndsAtLast(st'.index, id');
    LookupIsChained(st, id');
    LookupIsChained(st', id');
    if Hash(id') == Hash(id) {
      PutIsFirst(chain, item);
    }
    if id' != id {
      PutKeepsOthers(chain, item, id');
      var k := First(chain, id');
      if k < |chain| {
        WriteKeepsBytes(st, id, r, Hash(id'), k);
      }
    }
  }

  /** A record that is found and not smaller than the new one is overwritten where it is; any other write
      appends its bytes to the data file, and leaves all bytes that were there. */
  lemma WriteUsesOldSpace(st: Files, id: nat, r: Record)
    requires Invariant(st) && id != 0
    ensures var st' := Write(st, id, r);
      if Lookup(st, id).Some? && |r.bytes| <= |Lookup(st, id).value.bytes| then |st'.data| == |st.data|
      else st'.data == st.data + r.bytes
  {
    var item := st.index[Find(st.index, id)];
    assert item.id == id ==> Live(st.index, Find(st.index, id));
  }

  /** Another id's record lies behind the id's free head slot. */
  ghost predicate BringsBack(st: Files, id: nat)
    requires Shape(st.index)
  {
    !Live(st.index, Hash(id)) && ChainsAnother(st, id)
  }

  ghost predicate ChainsAnother(st: Files, id: nat)
    requires Shape(st.index)
  {
    exists id' :: id' != 0 && id' != id && Hash(id') == Hash(id) && Chained(st, id').Some?
  }

  /** Every other id reads alike in both states. */
  ghost predicate OthersAlike(st: Files, st': Files, id: nat)
    requires Shape(st.index) && ExtentsOk(st) && Shape(st'.index) && ExtentsOk(st')
  {
    forall id' | id' != 0 && id' != id :: Lookup(st', id') == Lookup(st, id')
  }

  /** Write is map update, exactly: the id reads back what was written, and every other id reads as
      before unless the id's head slot is free with another id's record behind it. */
  lemma WriteIsMapUpdate(st: Files, id: nat, r: Record)
    requires Invariant(st) && id != 0
    ensures var st' := Write(st, id, r);
      && Invariant(st')
      && Lookup(st', id) == Some(r)
      && (OthersAlike(st, st', id) <==> !BringsBack(st, id))
  {
    var st' := Write(st, id, r);
    ReadsAfterWrite(st, id, r, id);
    hide Write, Lookup, Chained, WellFormed, ExtentsOk;
    forall id' | id' != 0 && id' != id
      ensures Lookup(st', id') == Lookup(st, id')
         <==> !(Hash(id') == Hash(id) && !Live(st.index, Hash(id)) && Chained(st, id').Some?)
    {
      ReadsAfterWrite(st, id, r, id');
      LookupIsChained(st, id');
    }
  }

  // ---------- delete ----------

  /** The id's head slot holds its record, and another id's record is chained behind it. */
  ghost predicate HidesTail(st: Files, id: nat)
    requires Shape(st.index)
  {
    st.index[Hash(id)].id == id && ChainsAnother(st, id)
  }

  /** The id's chain holds two records of the id. */
  predicate ChainedTwice(st: Files, id: nat)
    requires Shape(st.index)
  {
    var chain := ChainOf(st, id);
    exists i, j :: 0 <= i < j < |chain| && chain[i].id == chain[j].id == id
  }

  lemma DropKeepsOthers(chain: seq<Item>, id: nat, id': nat)
    requires chain != [] && id != 0 && id' != 0 && id' != id
    ensures var chain' := Drop(chain, id); var k, k' := First(chain, id'), First(chain', id');
      && |chain'| == |chain| && k' == k && (k < |chain| ==> chain'[k] == chain[k])
      && (chain'[0].id != 0 <==> chain[0].id != 0 && chain[0].id != id)
  {
    var chain', j := Drop(chain, id), First(chain, id);
    var k, k' := First(chain, id'), First(chain', id');
    assert forall m | 0 <= m < |chain| && m != j :: chain'[m] == chain[m];
    assert j < |chain| ==> chain[j].id != id' && chain'[j].id != id';
    if k < |chain| {
      assert chain'[k].id == id';
      assert forall m | 0 <= m < k :: chain[m].id != id' && chain'[m].id != id';
    }
    if k' < |chain'| {
      assert chain[k'].id == id';
    }
  }

  lemma DropLeavesSecond(chain: seq<Item>, id: nat)
    requires chain != [] && id != 0
    ensures var chain' := Drop(chain, id);
      Found(chain', id) <==>
        (chain[0].id != 0 && chain[0].id != id
         && exists i, j :: 0 <= i < j < |chain| && chain[i].id == chain[j].id == id)
  {
    var chain', j := Drop(chain, id), First(chain, id);
    var k := First(chain', id);
    assert forall m | 0 <= m < |chain| && m != j :: chain'[m] == chain[m];
    if Found(chain', id) {
      assert 0 <= j < k < |chain| && chain[j].id == chain[k].id == id;
    }
    if chain[0].id != 0 && chain[0].id != id {
      if i, m :| 0 <= i < m < |chain| && chain[i].id == chain[m].id == id {
        assert chain'[m].id == id;
      }
    }
  }

  /** A delete loses every read of the bucket when the record is the head's, and no other id's read
      otherwise. */
  lemma ReadsAfterDelete(st: Files, id: nat, id': nat)
    requires Invariant(st) && id != 0 && id' != 0 && id' != id
    ensures var st' := Delete(st, id);
      && Invariant(st')
      && Lookup(st', id') ==
         (if st.index[Hash(id)].id == id && Hash(id') == Hash(id) then None else Lookup(st, id'))
  {
    var st' := Delete(st, id);
    DeleteKeepsInvariant(st, id);
    RemoveOnChains(st.index, id, Hash(id'));
    EndsAtLast(st.index, id');
    EndsAtLast(st'.index, id');
    LookupIsChained(st, id');
    LookupIsChained(st', id');
    if Hash(id') == Hash(id) {
      DropKeepsOthers(ChainOf(st, id'), id, id');
    }
  }

  lemma DeletedRead(st: Files, id: nat)
    requires Invariant(st) && id != 0
    ensures var st' := Delete(st, id);
      && Invariant(st')
      && (Lookup(st', id) == None
          <==> !Live(st.index, Hash(id)) || st.index[Hash(id)].id == id || !ChainedTwice(st, id))
  {
    var st' := Delete(st, id);
    DeleteKeepsInvariant(st, id);
    RemoveOnChains(st.index, id, Hash(id));
    EndsAtLast(st.index, id);
    EndsAtLast(st'.index, id);
    LookupIsChained(st', id);
    DropLeavesSecond(ChainOf(st, id), id);
  }

  /** Delete, exactly: the id is gone unless its chain holds a second record of it behind a head of
      another id, and every other id reads as before unless a head with another id's record behind
      it was deleted; then its whole bucket is not found. */
  lemma DeleteExact(st: Files, id: nat)
    requires Invariant(st) && id != 0
    ensures var st' := Delete(st, id);
      && Invariant(st')
      && (Lookup(st', id) == None
          <==> !Live(st.index, Hash(id)) || st.index[Hash(id)].id == id || !ChainedTwice(st, id))
      && (OthersAlike(st, st', id) <==> !HidesTail(st, id))
      && (forall id' | id' != 0 && Hash(id') != Hash(id) :: Lookup(st', id') == Lookup(st, id'))
      && (st.index[Hash(id)].id == id ==> forall id' | id' != 0 && Hash(id') == Hash(id) :: Lookup(st', id') == None)
  {
    var st' := Delete(st, id);
    DeletedRead(st, id);
    hide Delete, Lookup, Chained, WellFormed, ExtentsOk, ChainedTwice;
    forall id' | id' != 0 && id' != id
      ensures Lookup(st', id') ==
        (if st.index[Hash(id)].id == id && Hash(id') == Hash(id) then None else Lookup(st, id'))
      ensures Hash(id') == Hash(id) && st.index[Hash(id)].id == id ==> Lookup(st, id') == Chained(st, id')
    {
      ReadsAfterDelete(st, id, id');
      LookupIsChained(st, id');
    }
  }

  // ---------- valid states ----------

  /** In a valid state the chains hold every live record. */
  lemma ChainsHoldLive(st: Files, p: nat)
    requires Valid(st) && Live(st.index, p)
    ensures Chained(st, st.index[p].id) == Some(RecordAt(st, p))
  {
    var ix, id := st.index, st.index[p].id;
    var buckets :| Bucketed(ix, buckets);
    WalkReaches(ix, buckets, p, id);
    WalkIsFirst(ix, Hash(id), id);
  }

  lemma ChainedIsLive(st: Files, id: nat) returns (p: nat)
    requires Shape(st.index) && id != 0 && Chained(st, id).Some?
    ensures Live(st.index, p) && st.index[p].id == id
  {
    p := ItemsAreSlots(st.index, Hash(id), First(ChainOf(st, id), id));
  }

  /** A valid state stays valid under a write exactly when the id is not hidden: rewriting a hidden
      record stores a second one. */
  lemma WriteKeepsValid(st: Files, id: nat, r: Record)
    requires Valid(st) && id != 0
    ensures Valid(Write(st, id, r)) <==> !Hidden(st.index, id)
    ensures HeadOk(st.index) ==> HeadOk(Write(st, id, r).index) && !Hidden(st.index, id)
  {
    WriteKeepsExtents(st, id, r);
    StoreKeepsSearchable(st.index, Item(id, WriteOffset(st, id, |r.bytes|), 0, |r.bytes|, r.origSize));
  }

  /** Deletes keep a valid state valid; none of its records is chained twice, so the id is gone, and
      records become hidden exactly when the delete hides a tail. */
  lemma DeleteKeepsValid(st: Files, id: nat)
    requires Valid(st) && id != 0
    ensures Valid(Delete(st, id)) && Lookup(Delete(st, id), id) == None
    ensures HeadOk(st.index) ==> (HeadOk(Delete(st, id).index) <==> !HidesTail(st, id))
  {
    DeleteKeepsInvariant(st, id);
    DeletedOnce(st, id);
    if HeadOk(st.index) {
      DeleteHeadOk(st, id);
    }
  }

  lemma DeletedOnce(st: Files, id: nat)
    requires Valid(st) && id != 0
    ensures Lookup(Delete(st, id), id) == None
  {
    var st' := Delete(st, id);
    DeleteKeepsInvariant(st, id);
    LookupIsLiveRecord(st', id);
    var buckets :| Bucketed(st.index, buckets);
    if p: nat :| Live(st'.index, p) && st'.index[p].id == id {
      assert Live(st.index, p) && st.index[p] == st'.index[p];
      if Live(st'.index, Hash(id)) {
        FindsLive(st.index, buckets, p);
      }
    }
  }

  lemma DeleteHeadOk(st: Files, id: nat)
    requires Valid(st) && HeadOk(st.index) && id != 0
    ensures HeadOk(Delete(st, id).index) <==> !HidesTail(st, id)
  {
    var ix, ix' := st.index, Delete(st, id).index;
    if HidesTail(st, id) {
      var id' :| id' != 0 && id' != id && Hash(id') == Hash(id) && Chained(st, id').Some?;
      var p := ChainedIsLive(st, id');
      assert Live(ix', p) && ix'[p].id == id' && !Live(ix', Hash(id'));
    } else {
      forall p: nat | Live(ix', p) ensures Live(ix', Hash(ix'[p].id)) {
        assert Live(ix, p) && ix'[p] == ix[p];
        assert Live(ix, Hash(ix[p].id));
        ChainsHoldLive(st, p);
        var buckets :| Bucketed(ix, buckets);
        FindStaysInBucket(ix, buckets, id);
      }
    }
  }
}
