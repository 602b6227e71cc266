/** Chains as lists: what each index operation does to the items behind a head slot. Nothing here
    asks that ids are distinct or that every item is linked. */
module BaseChains {
  import opened BaseIndex

  /** The items of a chain from position p on, without their links. */
  function Items(ix: Index, p: nat): (chain: seq<Item>)
    requires Shape(ix) && p < |ix|
    ensures chain != []
    decreases |ix| - p
  {
    [ix[p].(next := 0)] + if ix[p].next == 0 then [] else Items(ix, ix[p].next)
  }

  // ---------- the operations on lists ----------

  /** The first item of an id. */
  function First(chain: seq<Item>, id: nat): (k: nat)
    ensures k <= |chain|
    ensures forall m | 0 <= m < k :: chain[m].id != id
    ensures k < |chain| ==> chain[k].id == id
  {
    if chain == [] || chain[0].id == id then 0 else 1 + First(chain[1..], id)
  }

  /** A chain is searched only when its head is taken. */
  predicate Found(chain: seq<Item>, id: nat)
    requires chain != []
  {
    chain[0].id != 0 && First(chain, id) < |chain|
  }

  /** A record replaces the first item of its id; a new one takes a free head, a free last slot, or
      a new slot behind the last. */
  function Put(chain: seq<Item>, item: Item): seq<Item>
    requires chain != []
  {
    var k, n := First(chain, item.id), |chain|;
    if chain[0].id == 0 then chain[0 := item]
    else if k < n then chain[k := item]
    else if chain[n - 1].id == 0 then chain[n - 1 := item]
    else chain + [item]
  }

  /** The first item of an id becomes free, unless the head already is. */
  function Drop(chain: seq<Item>, id: nat): seq<Item>
    requires chain != []
  {
    var k := First(chain, id);
    if Found(chain, id) then chain[k := chain[k].(id := 0)] else chain
  }

  /** The rebuild's step: the item becomes the last one, and what was behind the first item of its
      id is cut off. */
  function Stack(chain: seq<Item>, item: Item): seq<Item>
    requires chain != []
  {
    var k, n := First(chain, item.id), |chain|;
    if chain[0].id == 0 then [item]
    else if k < n then chain[..k] + [item]
    else if chain[n - 1].id == 0 then chain[..n - 1] + [item]
    else chain + [item]
  }

  // ---------- the search ----------

  /** The walk ends at the first item of the id, or at the last item. */
  lemma {:induction false} WalkIsFirst(ix: Index, p: nat, id: nat)
    requires Shape(ix) && p < |ix|
    ensures var chain, r := Items(ix, p), Walk(ix, p, id); var k := First(chain, id);
      ix[r].(next := 0) == chain[if k < |chain| then k else |chain| - 1]
    decreases |ix| - p
  {
    if ix[p].next != 0 && ix[p].id != id {
      WalkIsFirst(ix, ix[p].next, id);
      FirstBehind(ix[p].(next := 0), Items(ix, ix[p].next), id);
    } else if ix[p].id != id {
      FirstBehind(ix[p].(next := 0), [], id);
    }
  }

  lemma FirstBehind(head: Item, rest: seq<Item>, id: nat)
    requires head.id != id
    ensures First([head] + rest, id) == 1 + First(rest, id)
  {
    assert ([head] + rest)[1..] == rest;
  }

  /** DpsBaseSeek finds the first item of the id in the chain of a taken head, and nothing else. */
  lemma FindIsFirst(ix: Index, id: nat)
    requires Shape(ix) && id != 0
    ensures var chain, r := Items(ix, Hash(id)), Find(ix, id); var k := First(chain, id);
      && (ix[r].id == id <==> Found(chain, id))
      && (Found(chain, id) ==> ix[r].(next := 0) == chain[k])
  {
    WalkIsFirst(ix, Hash(id), id);
  }

  // ---------- frames ----------

  /** A set of positions that links do not leave and that two indexes agree on. */
  ghost predicate Frame(ix: Index, ix': Index, ps: set<nat>) {
    forall p | p in ps ::
      p < |ix| && p < |ix'| && ix[p] == ix'[p] && (ix[p].next != 0 ==> ix[p].next in ps)
  }

  lemma {:induction false} SameChain(ix: Index, ix': Index, ps: set<nat>, p: nat)
    requires Shape(ix) && Shape(ix') && Frame(ix, ix', ps) && p in ps
    ensures Items(ix, p) == Items(ix', p)
    decreases |ix| - p
  {
    if ix[p].next != 0 {
      SameChain(ix, ix', ps, ix[p].next);
    }
  }

  /** Items of other buckets are untouched. */
  lemma OtherChain(ix: Index, ix': Index, buckets: seq<nat>, c: nat, h: nat)
    requires Shape(ix) && Shape(ix') && Bucketed(ix, buckets) && c < |ix| <= |ix'|
    requires h < DPS_HASH_PRIME && h != buckets[c]
    requires forall p | 0 <= p < |ix| && p != c :: ix'[p] == ix[p]
    ensures Items(ix', h) == Items(ix, h)
  {
    var ps := set p: nat | p < |ix| && buckets[p] == h;
    SameChain(ix, ix', ps, h);
  }

  /** Items behind a position are untouched. */
  lemma LaterChain(ix: Index, ix': Index, c: nat, p: nat)
    requires Shape(ix) && Shape(ix') && c < p < |ix| <= |ix'|
    requires forall q | c < q < |ix| :: ix'[q] == ix[q]
    ensures Items(ix', p) == Items(ix, p)
  {
    var ps := set q: nat | c < q < |ix| && ix'[q] == ix[q];
    SameChain(ix, ix', ps, p);
  }

  // ---------- the operations on the index ----------

  /** Where a walk ends, seen from the list: the first item of the id, or the last one. */
  function EndOf(chain: seq<Item>, id: nat): (k: nat)
    requires chain != []
    ensures k < |chain|
  {
    var k := First(chain, id);
    if k < |chain| then k else |chain| - 1
  }

  /** Replacing the item a walk ends at, keeping its link, ending the chain there, or linking it to
      a new last item. */
  datatype Change = Replace | CutBehind | Extend(last: Item)

  function Changed(ix: Index, c: nat, item: Item, change: Change): Index
    requires c < |ix|
  {
    match change
    case Replace => ix[c := item.(next := ix[c].next)]
    case CutBehind => ix[c := item.(next := 0)]
    case Extend(last) => ix[c := item.(next := |ix|)] + [last.(next := 0)]
  }

  function ChangedList(chain: seq<Item>, k: nat, item: Item, change: Change): seq<Item>
    requires k < |chain|
  {
    match change
    case Replace => chain[k := item]
    case CutBehind => chain[..k] + [item]
    case Extend(last) => chain[..k] + [item, last]
  }

  lemma {:induction false} WalkChanges(ix: Index, p: nat, id: nat, item: Item, change: Change)
    requires Shape(ix) && p < |ix| && item.next == 0 && (change.Extend? ==> change.last.next == 0)
    requires var c := Walk(ix, p, id);
      Shape(Changed(ix, c, item, change)) && (change.Extend? ==> ix[c].next == 0)
    ensures var chain, ix' := Items(ix, p), Changed(ix, Walk(ix, p, id), item, change);
      p < |ix'| && Items(ix', p) == ChangedList(chain, EndOf(chain, id), item, change)
    decreases |ix| - p
  {
    var c := Walk(ix, p, id);
    var ix' := Changed(ix, c, item, change);
    if ix[p].next != 0 && ix[p].id != id {
      var next := ix[p].next;
      WalkChanges(ix, next, id, item, change);
      assert ix'[p] == ix[p];
      OneMoreInFront(ix[p].(next := 0), Items(ix, next), id, item, change);
    } else {
      HereChanges(ix, p, id, item, change);
    }
  }

  lemma OneMoreInFront(head: Item, rest: seq<Item>, id: nat, item: Item, change: Change)
    requires rest != [] && head.id != id
    ensures var chain := [head] + rest;
      ChangedList(chain, EndOf(chain, id), item, change) == [head] + ChangedList(rest, EndOf(rest, id), item, change)
  {
    var chain := [head] + rest;
    assert chain[1..] == rest;
    assert EndOf(chain, id) == 1 + EndOf(rest, id);
    assert chain[..1 + EndOf(rest, id)] == [head] + rest[..EndOf(rest, id)];
  }

  lemma HereChanges(ix: Index, p: nat, id: nat, item: Item, change: Change)
    requires Shape(ix) && p < |ix| && item.next == 0 && (change.Extend? ==> change.last.next == 0)
    requires Shape(Changed(ix, p, item, change)) && (change.Extend? ==> ix[p].next == 0)
    requires ix[p].next == 0 || ix[p].id == id
    ensures var chain, ix' := Items(ix, p), Changed(ix, p, item, change);
      p < |ix'| && Items(ix', p) == ChangedList(chain, EndOf(chain, id), item, change)
  {
    var chain := Items(ix, p);
    var ix' := Changed(ix, p, item, change);
    assert EndOf(chain, id) == 0;
    match change
    case Replace =>
      if ix[p].next != 0 {
        LaterChain(ix, ix', p, ix[p].next);
      }
    case CutBehind =>
    case Extend(last) =>
      assert Items(ix', |ix|) == [last];
  }

  /** The same for DpsBaseSeek, which stays at a free head. */
  lemma FindChanges(ix: Index, id: nat, item: Item, change: Change)
    requires Shape(ix) && id != 0 && item.next == 0 && (change.Extend? ==> change.last.next == 0)
    requires var c := Find(ix, id);
      Shape(Changed(ix, c, item, change)) && (change.Extend? ==> ix[c].next == 0)
    ensures var chain, ix' := Items(ix, Hash(id)), Changed(ix, Find(ix, id), item, change);
      Items(ix', Hash(id)) ==
        ChangedList(chain, if chain[0].id == 0 then 0 else EndOf(chain, id), item, change)
  {
    var h := Hash(id);
    if Mishash(ix, id) {
      WalkChanges(ix, h, id, item, change);
    } else {
      HereChanges(ix, h, ix[h].id, item, change);
    }
  }

  /** The item DpsBaseSeek ends at, in the list. */
  lemma EndsAtLast(ix: Index, id: nat)
    requires Shape(ix) && id != 0
    ensures var chain := Items(ix, Hash(id));
      && chain[0] == ix[Hash(id)].(next := 0)
      && ix[Find(ix, id)].(next := 0) == chain[if chain[0].id == 0 then 0 else EndOf(chain, id)]
  {
    WalkIsFirst(ix, Hash(id), id);
  }

  /** Storing a record puts it in its bucket's chain and leaves the other chains alone. */
  lemma StoreOnChains(ix: Index, item: Item, h: nat)
    requires WellFormed(ix) && item.id != 0 && item.next == 0 && h < DPS_HASH_PRIME
    ensures Shape(Store(ix, item))
    ensures Items(Store(ix, item), h) == if h == Hash(item.id) then Put(Items(ix, h), item) else Items(ix, h)
  {
    StoreKeepsWellFormed(ix, item);
    if h == Hash(item.id) {
      StoreOnOwnChain(ix, item);
    } else {
      var buckets :| Bucketed(ix, buckets);
      FindStaysInBucket(ix, buckets, item.id);
      OtherChain(ix, Store(ix, item), buckets, Find(ix, item.id), h);
    }
  }

  lemma StoreOnOwnChain(ix: Index, item: Item)
    requires Shape(ix) && item.id != 0 && item.next == 0 && Shape(Store(ix, item))
    ensures Items(Store(ix, item), Hash(item.id)) == Put(Items(ix, Hash(item.id)), item)
  {
    var chain, c := Items(ix, Hash(item.id)), Find(ix, item.id);
    EndsAtLast(ix, item.id);
    var end := ix[c].(next := 0);
    if ix[c].id != item.id && Mishash(ix, item.id) && ix[c].id != 0 {
      assert Store(ix, item) == Changed(ix, c, end, Extend(item));
      FindChanges(ix, item.id, end, Extend(item));
    } else {
      assert Store(ix, item) == Changed(ix, c, item, Replace);
      FindChanges(ix, item.id, item, Replace);
    }
    hide Items, Walk, Find, Changed;
    PutIsChange(chain, item);
  }

  lemma PutIsChange(chain: seq<Item>, item: Item)
    requires chain != [] && item.id != 0
    ensures var k := if chain[0].id == 0 then 0 else EndOf(chain, item.id);
      Put(chain, item)
        == if chain[0].id != 0 && chain[k].id != item.id && chain[k].id != 0
           then ChangedList(chain, k, chain[k], Extend(item))
           else ChangedList(chain, k, item, Replace)
  {
    var k := EndOf(chain, item.id);
    assert chain[..k] + [chain[k], item] == chain[..k + 1] + [item];
  }

  /** Deleting frees the first item of the id in its bucket's chain. */
  lemma RemoveOnChains(ix: Index, id: nat, h: nat)
    requires WellFormed(ix) && id != 0 && h < DPS_HASH_PRIME
    ensures Shape(Remove(ix, id))
    ensures Items(Remove(ix, id), h) == if h == Hash(id) then Drop(Items(ix, h), id) else Items(ix, h)
  {
    RemoveKeepsWellFormed(ix, id);
    var c := Find(ix, id);
    if h == Hash(id) {
      FindIsFirst(ix, id);
      var chain, freed := Items(ix, h), ix[c].(id := 0, next := 0);
      if ix[c].id == id {
        assert Remove(ix, id) == Changed(ix, c, freed, Replace);
        FindChanges(ix, id, freed, Replace);
      }
    } else {
      var buckets :| Bucketed(ix, buckets);
      FindStaysInBucket(ix, buckets, id);
      OtherChain(ix, Remove(ix, id), buckets, c, h);
    }
  }
}
