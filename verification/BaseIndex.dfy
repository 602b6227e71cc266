/** The index file of a record base: 4093 head slots and the overflow items chained behind them.
    Positions are counted in items. */
module BaseIndex {

  const DPS_HASH_PRIME := 4093

  /** DPS_HASH: the head slot of a record id. */
  function Hash(id: nat): (h: nat)
    ensures h < DPS_HASH_PRIME
  {
    (id % 0x1_0000) % DPS_HASH_PRIME
  }

  /** Only the low half of a key counts: its remainder by the number of head slots. */
  lemma HashOfLowHalf(id: nat, high: nat, low: nat, laps: nat, h: nat)
    requires id == 0x1_0000 * high + low && low < 0x1_0000 && low == 4093 * laps + h && h < 4093
    ensures Hash(id) == h
  {
  }

  /** DPS_BASEITEM; a zero id marks a free slot and a zero next ends a chain. */
  datatype Item = Item(id: nat, offset: nat, next: nat, size: nat, origSize: nat)

  const FREE_ITEM := Item(0, 0, 0, 0, 0)

  type Index = seq<Item>

  predicate Live(ix: Index, p: nat) {
    p < |ix| && ix[p].id != 0
  }

  /** Links only go forward into the overflow area, and no two items share a successor. */
  ghost predicate Shape(ix: Index) {
    && DPS_HASH_PRIME <= |ix|
    && (forall p | 0 <= p < |ix| && ix[p].next != 0 ::
          DPS_HASH_PRIME <= ix[p].next < |ix| && p < ix[p].next)
    && (forall p, q | 0 <= p < q < |ix| && ix[p].next != 0 :: ix[p].next != ix[q].next)
  }

  /** buckets[p] is the head slot of p's chain; links stay in it and live ids hash to it. */
  ghost predicate Bucketed(ix: Index, buckets: seq<nat>) {
    && |buckets| == |ix|
    && (forall p | 0 <= p < |ix| :: buckets[p] < DPS_HASH_PRIME)
    && (forall p | 0 <= p < DPS_HASH_PRIME && p < |ix| :: buckets[p] == p)
    && (forall p | 0 <= p < |ix| && 0 < ix[p].next < |ix| :: buckets[ix[p].next] == buckets[p])
    && (forall p | 0 <= p < |ix| && ix[p].id != 0 :: Hash(ix[p].id) == buckets[p])
  }

  predicate HasPredecessor(ix: Index, q: nat) {
    exists p :: 0 <= p < |ix| && ix[p].next == q
  }

  /** Every overflow item is some item's successor. */
  ghost predicate Linked(ix: Index) {
    forall q: nat | DPS_HASH_PRIME <= q < |ix| :: HasPredecessor(ix, q)
  }

  ghost predicate DistinctIds(ix: Index) {
    forall p, q | 0 <= p < q < |ix| && ix[p].id != 0 :: ix[p].id != ix[q].id
  }

  /** The loop of DpsBaseSeek from position p: stop at the id or at the end of the chain. */
  function Walk(ix: Index, p: nat, id: nat): (r: nat)
    requires Shape(ix) && p < |ix|
    ensures p <= r < |ix|
    ensures ix[r].id == id || ix[r].next == 0
    decreases |ix| - p
  {
    if ix[p].next == 0 || ix[p].id == id then p else Walk(ix, ix[p].next, id)
  }

  /** The head slot holds neither the id nor nothing: only then is the chain searched. */
  predicate Mishash(ix: Index, id: nat)
    requires Hash(id) < |ix|
  {
    ix[Hash(id)].id != id && ix[Hash(id)].id != 0
  }

  /** DpsBaseSeek: the position it leaves in CurrentItemPos. */
  function Find(ix: Index, id: nat): (r: nat)
    requires Shape(ix)
    ensures r < |ix|
    ensures Mishash(ix, id) ==> ix[r].id == id || ix[r].next == 0
    ensures !Mishash(ix, id) ==> r == Hash(id)
  {
    if Mishash(ix, id) then Walk(ix, Hash(id), id) else Hash(id)
  }

  lemma {:induction false} WalkStaysInBucket(ix: Index, buckets: seq<nat>, p: nat, id: nat)
    requires Shape(ix) && Bucketed(ix, buckets) && p < |ix|
    ensures buckets[Walk(ix, p, id)] == buckets[p]
    decreases |ix| - p
  {
    if ix[p].next == 0 || ix[p].id == id {
    } else {
      WalkStaysInBucket(ix, buckets, ix[p].next, id);
    }
  }

  lemma FindStaysInBucket(ix: Index, buckets: seq<nat>, id: nat)
    requires Shape(ix) && Bucketed(ix, buckets)
    ensures buckets[Find(ix, id)] == Hash(id)
  {
    WalkStaysInBucket(ix, buckets, Hash(id), id);
  }

  /** The search from the head passes every item of the chain that has no match before it. */
  lemma {:induction false} WalkReaches(ix: Index, buckets: seq<nat>, p: nat, id: nat)
    requires Shape(ix) && Bucketed(ix, buckets) && Linked(ix) && p < |ix|
    requires forall q | 0 <= q < p :: ix[q].id != id
    ensures Walk(ix, buckets[p], id) == Walk(ix, p, id)
    decreases p
  {
    if p < DPS_HASH_PRIME {
    } else {
      assert HasPredecessor(ix, p);
      var q :| 0 <= q < |ix| && ix[q].next == p;
      WalkReaches(ix, buckets, q, id);
    }
  }

  /** A live record with a live head slot is the one the search finds. */
  lemma FindsLive(ix: Index, buckets: seq<nat>, p: nat)
    requires Shape(ix) && Bucketed(ix, buckets) && Linked(ix) && DistinctIds(ix)
    requires Live(ix, p) && Live(ix, Hash(ix[p].id))
    ensures Find(ix, ix[p].id) == p
  {
    var id := ix[p].id;
    forall q | 0 <= q < p ensures ix[q].id != id { }
    if Mishash(ix, id) {
      WalkReaches(ix, buckets, p, id);
    }
  }

  /** Behind a free head slot nothing is found. */
  lemma DeadHeadHides(ix: Index, id: nat)
    requires Shape(ix) && id != 0 && !Live(ix, Hash(id))
    ensures ix[Find(ix, id)].id != id
  {
  }

  /** No free head slot has a live item in its chain. */
  ghost predicate HeadOk(ix: Index) {
    forall p: nat | Live(ix, p) :: Live(ix, Hash(ix[p].id))
  }

  // ---------- the ways the index changes ----------

  /** Replace the contents of a slot, keeping its link. */
  lemma SetItem(ix: Index, buckets: seq<nat>, c: nat, item: Item)
    requires Shape(ix) && Bucketed(ix, buckets) && c < |ix| && item.next == ix[c].next
    requires item.id != 0 ==> Hash(item.id) == buckets[c]
    ensures Shape(ix[c := item]) && Bucketed(ix[c := item], buckets)
    ensures Linked(ix) ==> Linked(ix[c := item])
  {
    var ix' := ix[c := item];
    if Linked(ix) {
      forall q: nat | DPS_HASH_PRIME <= q < |ix'| ensures HasPredecessor(ix', q) {
        assert HasPredecessor(ix, q);
        var p :| 0 <= p < |ix| && ix[p].next == q;
        assert ix'[p].next == q;
      }
    }
  }

  /** Append an item and link the end of a chain to it. */
  function Append(ix: Index, c: nat, item: Item): Index
    requires c < |ix|
  {
    ix[c := ix[c].(next := |ix|)] + [item]
  }

  lemma AppendKeeps(ix: Index, buckets: seq<nat>, c: nat, item: Item)
    requires Shape(ix) && Bucketed(ix, buckets) && c < |ix| && ix[c].next == 0 && item.next == 0
    requires item.id != 0 ==> Hash(item.id) == buckets[c]
    ensures Shape(Append(ix, c, item)) && Bucketed(Append(ix, c, item), buckets + [buckets[c]])
    ensures Linked(ix) ==> Linked(Append(ix, c, item))
  {
    if Linked(ix) {
      hide Shape, Bucketed;
      AppendKeepsLinked(ix, c, item);
    }
    AppendKeepsShape(ix, c, item);
    AppendKeepsBuckets(ix, buckets, c, item);
  }

  lemma AppendKeepsShape(ix: Index, c: nat, item: Item)
    requires Shape(ix) && c < |ix| && ix[c].next == 0 && item.next == 0
    ensures Shape(Append(ix, c, item))
  {
  }

  lemma AppendKeepsBuckets(ix: Index, buckets: seq<nat>, c: nat, item: Item)
    requires Shape(ix) && Bucketed(ix, buckets) && c < |ix| && ix[c].next == 0 && item.next == 0
    requires item.id != 0 ==> Hash(item.id) == buckets[c]
    ensures Bucketed(Append(ix, c, item), buckets + [buckets[c]])
  {
  }

  lemma AppendKeepsLinked(ix: Index, c: nat, item: Item)
    requires Linked(ix) && c < |ix| && ix[c].next == 0
    ensures Linked(Append(ix, c, item))
  {
    var ix' := Append(ix, c, item);
    forall q: nat | DPS_HASH_PRIME <= q < |ix'| ensures HasPredecessor(ix', q) {
      if q == |ix| {
        assert ix'[c].next == q;
      } else {
        assert HasPredecessor(ix, q);
        var p :| 0 <= p < |ix| && ix[p].next == q;
        assert ix'[p].next == q;
      }
    }
  }

  /** The slot a record id is stored in: its own, a free one, or a new one at the end of the chain. */
  function Store(ix: Index, item: Item): Index
    requires Shape(ix)
  {
    var c := Find(ix, item.id);
    if ix[c].id != item.id && Mishash(ix, item.id) && ix[c].id != 0 then Append(ix, c, item.(next := 0))
    else ix[c := item.(next := ix[c].next)]
  }

  ghost predicate WellFormed(ix: Index) {
    Shape(ix) && exists buckets :: Bucketed(ix, buckets)
  }

  ghost predicate Searchable(ix: Index) {
    WellFormed(ix) && Linked(ix) && DistinctIds(ix)
  }

  lemma StoreKeepsWellFormed(ix: Index, item: Item)
    requires WellFormed(ix) && item.id != 0
    ensures WellFormed(Store(ix, item))
    ensures Linked(ix) ==> Linked(Store(ix, item))
  {
    var buckets :| Bucketed(ix, buckets);
    var c := Find(ix, item.id);
    FindStaysInBucket(ix, buckets, item.id);
    if ix[c].id != item.id && Mishash(ix, item.id) && ix[c].id != 0 {
      AppendKeeps(ix, buckets, c, item.(next := 0));
    } else {
      SetItem(ix, buckets, c, item.(next := ix[c].next));
    }
  }

  /** The slot of a record once stored. */
  function StoredAt(ix: Index, id: nat): nat
    requires Shape(ix)
  {
    var c := Find(ix, id);
    if ix[c].id != id && Mishash(ix, id) && ix[c].id != 0 then |ix| else c
  }

  /** Storing puts the item in one slot and changes no other item but for links. */
  lemma StoreChangesOneSlot(ix: Index, item: Item)
    requires Shape(ix) && item.id != 0
    ensures OneSlotChanged(ix, Store(ix, item), StoredAt(ix, item.id), item)
  {
  }

  /** A live record that the search cannot reach, because its head slot is free. */
  ghost predicate Hidden(ix: Index, id: nat) {
    !Live(ix, Hash(id)) && exists p: nat :: Live(ix, p) && ix[p].id == id
  }

  /** Storing a record keeps ids distinct exactly when the id is not hidden, and hides nothing. */
  lemma StoreKeepsSearchable(ix: Index, item: Item)
    requires Searchable(ix) && item.id != 0
    ensures Searchable(Store(ix, item)) <==> !Hidden(ix, item.id)
    ensures HeadOk(ix) ==> HeadOk(Store(ix, item)) && !Hidden(ix, item.id)
  {
    StoreKeepsWellFormed(ix, item);
    StoreChangesOneSlot(ix, item);
    var ix', s := Store(ix, item), StoredAt(ix, item.id);
    assert Live(ix', Hash(item.id));
    if Hidden(ix, item.id) {
      DeadHeadHides(ix, item.id);
      var p: nat :| Live(ix, p) && ix[p].id == item.id;
      assert p != s && ix'[p].id == ix'[s].id;
    } else {
      OwnSlot(ix, item.id);
      hide Store, StoredAt, Hidden;
      StoreKeepsDistinct(ix, ix', s, item);
    }
    if HeadOk(ix) {
      hide Store, StoredAt;
      StoreKeepsHeadOk(ix, ix', s, item);
    }
  }

  /** A record already present is stored in its own slot. */
  lemma OwnSlot(ix: Index, id: nat)
    requires Searchable(ix) && !Hidden(ix, id) && id != 0
    ensures forall p: nat | Live(ix, p) && ix[p].id == id :: p == StoredAt(ix, id)
  {
    var buckets :| Bucketed(ix, buckets);
    forall p: nat | Live(ix, p) && ix[p].id == id ensures p == StoredAt(ix, id) {
      FindsLive(ix, buckets, p);
    }
  }

  ghost predicate OneSlotChanged(ix: Index, ix': Index, s: nat, item: Item) {
    && s < |ix'| && |ix| <= |ix'| <= |ix| + 1 && (s < |ix| ==> |ix'| == |ix|)
    && ix'[s] == item.(next := ix'[s].next)
    && (s < |ix| ==> ix[s].id == item.id || ix[s].id == 0)
    && forall p | 0 <= p < |ix| && p != s :: ix'[p] == ix[p].(next := ix'[p].next)
  }

  lemma StoreKeepsDistinct(ix: Index, ix': Index, s: nat, item: Item)
    requires OneSlotChanged(ix, ix', s, item) && DistinctIds(ix) && item.id != 0
    requires forall p: nat | Live(ix, p) && ix[p].id == item.id :: p == s
    ensures DistinctIds(ix')
  {
    forall p, q | 0 <= p < q < |ix'| && ix'[p].id != 0 ensures ix'[p].id != ix'[q].id {
      if p != s && q != s {
        assert Live(ix, p);
      } else if q == s {
        assert Live(ix, p);
      } else {
        assert ix[q].id == item.id <==> Live(ix, q as nat) && ix[q].id == item.id;
      }
    }
  }

  lemma StoreKeepsHeadOk(ix: Index, ix': Index, s: nat, item: Item)
    requires OneSlotChanged(ix, ix', s, item) && HeadOk(ix) && item.id != 0
    requires DPS_HASH_PRIME <= |ix| && Live(ix', Hash(item.id))
    ensures HeadOk(ix')
  {
    forall p: nat | Live(ix', p) ensures Live(ix', Hash(ix'[p].id)) {
      if p != s {
        assert Live(ix, p);
        assert Live(ix, Hash(ix[p].id));
      }
    }
  }

  /** DpsBaseDelete's index change: zero the id of the item found. */
  function Remove(ix: Index, id: nat): Index
    requires Shape(ix)
  {
    var c := Find(ix, id);
    if ix[c].id == id then ix[c := ix[c].(id := 0)] else ix
  }

  lemma RemoveKeepsWellFormed(ix: Index, id: nat)
    requires WellFormed(ix)
    ensures WellFormed(Remove(ix, id))
    ensures Linked(ix) ==> Linked(Remove(ix, id))
    ensures DistinctIds(ix) ==> DistinctIds(Remove(ix, id))
  {
    var buckets :| Bucketed(ix, buckets);
    var c := Find(ix, id);
    SetItem(ix, buckets, c, ix[c].(id := 0));
  }

  // ---------- an empty index ----------

  function EmptyIndex(): (ix: Index)
    ensures |ix| == DPS_HASH_PRIME
  {
    seq(DPS_HASH_PRIME, i => FREE_ITEM)
  }

  lemma EmptyIsSearchable()
    ensures Searchable(EmptyIndex()) && HeadOk(EmptyIndex())
  {
    var buckets := seq(DPS_HASH_PRIME, i requires 0 <= i < DPS_HASH_PRIME => i as nat);
    assert Bucketed(EmptyIndex(), buckets);
  }
}
