/** A record base: an index file, a data file, and what read, write and delete do to them. */
module BaseStore {
  import opened BaseIndex

  newtype byte = x: int | 0 <= x < 256

  datatype Option<+T> = None | Some(value: T)

  /** The two files of one base number. */
  datatype Files = Files(index: Index, data: seq<byte>)

  /** A stored record: its bytes in the data file and the size it had before compression. */
  datatype Record = Record(bytes: seq<byte>, origSize: nat)

  function Extent(data: seq<byte>, offset: nat, size: nat): seq<byte>
    requires offset + size <= |data|
  {
    data[offset..offset + size]
  }

  predicate Apart(a: Item, b: Item) {
    a.offset + a.size <= b.offset || b.offset + b.size <= a.offset
  }

  /** Extents of live items lie inside the data file and do not overlap. */
  ghost predicate ExtentsOk(st: Files) {
    && (forall p: nat | Live(st.index, p) :: st.index[p].offset + st.index[p].size <= |st.data|)
    && (forall p: nat, q: nat | p < q && Live(st.index, p) && Live(st.index, q) ::
          Apart(st.index[p], st.index[q]))
  }

  /** What holds in every reachable state. */
  ghost predicate Invariant(st: Files) {
    WellFormed(st.index) && ExtentsOk(st)
  }

  /** A state in which every live record is also chained, once. */
  ghost predicate Valid(st: Files) {
    Searchable(st.index) && ExtentsOk(st)
  }

  /** The bytes DpsBaseRead takes from the data file, or None when the id is not found. */
  function Lookup(st: Files, id: nat): Option<Record>
    requires Shape(st.index) && ExtentsOk(st) && id != 0
  {
    var item := st.index[Find(st.index, id)];
    if item.id == id then
      assert Live(st.index, Find(st.index, id));
      Some(Record(Extent(st.data, item.offset, item.size), item.origSize))
    else None
  }

  function RecordAt(st: Files, p: nat): Record
    requires ExtentsOk(st) && Live(st.index, p)
  {
    Record(Extent(st.data, st.index[p].offset, st.index[p].size), st.index[p].origSize)
  }

  /** In a valid state a read succeeds exactly for live records whose head slot is live. */
  lemma LookupIsLiveRecord(st: Files, id: nat)
    requires Valid(st) && id != 0
    ensures forall p: nat | Live(st.index, p) && st.index[p].id == id ::
      Lookup(st, id) == if Live(st.index, Hash(id)) then Some(RecordAt(st, p)) else None
    ensures (forall p: nat | Live(st.index, p) :: st.index[p].id != id) ==> Lookup(st, id) == None
  {
    var buckets :| Bucketed(st.index, buckets);
    forall p: nat | Live(st.index, p) && st.index[p].id == id
      ensures Lookup(st, id) == if Live(st.index, Hash(id)) then Some(RecordAt(st, p)) else None
    {
      if Live(st.index, Hash(id)) {
        FindsLive(st.index, buckets, p);
      } else {
        DeadHeadHides(st.index, id);
      }
    }
    if forall p: nat | Live(st.index, p) :: st.index[p].id != id {
      assert Live(st.index, Find(st.index, id)) ==> st.index[Find(st.index, id)].id != id;
    }
  }

  // ---------- write ----------

  function Overwrite(data: seq<byte>, offset: nat, bytes: seq<byte>): seq<byte>
    requires offset + |bytes| <= |data|
  {
    data[..offset] + bytes + data[offset + |bytes|..]
  }

  /** The record is rewritten in place when it is found and not larger than before. */
  predicate InPlace(st: Files, id: nat, size: nat)
    requires Shape(st.index)
  {
    var item := st.index[Find(st.index, id)];
    item.id == id && size <= item.size
  }

  function WriteOffset(st: Files, id: nat, size: nat): nat
    requires Shape(st.index)
  {
    if InPlace(st, id, size) then st.index[Find(st.index, id)].offset else |st.data|
  }

  /** DpsBaseWrite. */
  function Write(st: Files, id: nat, r: Record): Files
    requires Shape(st.index) && ExtentsOk(st) && id != 0
  {
    var offset := WriteOffset(st, id, |r.bytes|);
    var item := Item(id, offset, 0, |r.bytes|, r.origSize);
    assert InPlace(st, id, |r.bytes|) ==> Live(st.index, Find(st.index, id));
    Files(Store(st.index, item),
          if InPlace(st, id, |r.bytes|) then Overwrite(st.data, offset, r.bytes) else st.data + r.bytes)
  }

  /** Writing leaves the bytes of every other live record where they were. */
  lemma WriteKeepsExtents(st: Files, id: nat, r: Record)
    requires Invariant(st) && id != 0
    ensures Invariant(Write(st, id, r))
    ensures var st' := Write(st, id, r); var s := StoredAt(st.index, id);
      && Live(st'.index, s) && st'.index[s].id == id && RecordAt(st', s) == r
      && forall p: nat | Live(st.index, p) && p != s ::
           Live(st'.index, p) && st'.index[p].id == st.index[p].id && RecordAt(st', p) == RecordAt(st, p)
  {
    var st', s := Write(st, id, r), StoredAt(st.index, id);
    var item := Item(id, WriteOffset(st, id, |r.bytes|), 0, |r.bytes|, r.origSize);
    StoreKeepsWellFormed(st.index, item);
    StoreChangesOneSlot(st.index, item);
    InPlaceSlot(st, id, |r.bytes|);
    hide Store, StoredAt, WellFormed, Find;
    NewExtents(st, st', s, item, r, InPlace(st, id, |r.bytes|));
  }

  lemma InPlaceSlot(st: Files, id: nat, size: nat)
    requires Shape(st.index) && id != 0
    ensures InPlace(st, id, size) ==>
      var s := StoredAt(st.index, id);
      (s < |st.index| && Live(st.index, s) && size <= st.index[s].size
       && WriteOffset(st, id, size) == st.index[s].offset)
  {
  }

  lemma NewExtents(st: Files, st': Files, s: nat, item: Item, r: Record, inPlace: bool)
    requires ExtentsOk(st) && OneSlotChanged(st.index, st'.index, s, item)
    requires item.id != 0 && item.size == |r.bytes| && item.origSize == r.origSize
    requires inPlace ==> Live(st.index, s) && item.size <= st.index[s].size && item.offset == st.index[s].offset
    requires !inPlace ==> item.offset == |st.data|
    requires inPlace ==> item.offset + |r.bytes| <= |st.data|
    requires st'.data == if inPlace then Overwrite(st.data, item.offset, r.bytes) else st.data + r.bytes
    ensures ExtentsOk(st') && Live(st'.index, s) && st'.index[s].id == item.id && RecordAt(st', s) == r
    ensures forall p: nat | Live(st.index, p) && p != s ::
      Live(st'.index, p) && st'.index[p].id == st.index[p].id && RecordAt(st', p) == RecordAt(st, p)
  {
    forall p: nat | Live(st'.index, p) ensures st'.index[p].offset + st'.index[p].size <= |st'.data| {
      if p != s {
        assert Live(st.index, p);
      }
    }
    forall p: nat, q: nat | p < q && Live(st'.index, p) && Live(st'.index, q)
      ensures Apart(st'.index[p], st'.index[q])
    {
      if p != s {
        assert Live(st.index, p);
      }
      if q != s {
        assert Live(st.index, q);
      }
    }
    assert RecordAt(st', s).bytes == r.bytes;
    forall p: nat | Live(st.index, p) && p != s
      ensures Live(st'.index, p) && st'.index[p].id == st.index[p].id && RecordAt(st', p) == RecordAt(st, p)
    {
      assert inPlace ==> Apart(st.index[p], st.index[s]);
      OtherExtent(st.data, item.offset, r.bytes, st.index[p].offset, st.index[p].size, inPlace);
    }
  }

  lemma OtherExtent(data: seq<byte>, at: nat, bytes: seq<byte>, offset: nat, size: nat, inPlace: bool)
    requires offset + size <= |data|
    requires inPlace ==> at + |bytes| <= |data| && (offset + size <= at || at + |bytes| <= offset)
    ensures var data' := if inPlace then Overwrite(data, at, bytes) else data + bytes;
      offset + size <= |data'| && Extent(data', offset, size) == Extent(data, offset, size)
  {
  }

  // ---------- delete ----------

  /** DpsBaseDelete. */
  function Delete(st: Files, id: nat): Files
    requires Shape(st.index)
  {
    Files(Remove(st.index, id), st.data)
  }

  lemma DeleteKeepsInvariant(st: Files, id: nat)
    requires Invariant(st) && id != 0
    ensures Invariant(Delete(st, id))
    ensures Valid(st) ==> Valid(Delete(st, id))
    ensures forall p: nat | Live(Delete(st, id).index, p) ::
      Live(st.index, p) && RecordAt(Delete(st, id), p) == RecordAt(st, p)
  {
    RemoveKeepsWellFormed(st.index, id);
    var st' := Delete(st, id);
    forall p: nat | Live(st'.index, p) ensures Live(st.index, p) && st'.index[p] == st.index[p] { }
  }
}
