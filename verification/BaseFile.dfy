/** The record base as src/base.c runs it: a DPS_BASE_PARAM with its two open files. */
module BaseFile {
  import opened BaseIndex
  import opened BaseStore
  import opened BaseReads
  import opened BaseOptimize
  import opened Sorting

  const BUFSIZ := 8192

  type Bytes = seq<byte>

  /** zlib, seen from outside: inflating what was deflated gives the input back. */
  datatype Codec = Codec(compress: bool, deflate: Bytes -> Bytes, inflate: Bytes -> Bytes) {
    ghost predicate Lossless() {
      forall d :: inflate(deflate(d)) == d
    }

    /** What DpsBaseWrite stores for a buffer. */
    function Encode(d: Bytes): Record {
      if compress then Record(deflate(d), |d|) else Record(d, 0)
    }

    /** What DpsBaseRead returns for a stored record. */
    function Decode(r: Record): Bytes {
      if compress && r.origSize != 0 then inflate(r.bytes) else r.bytes
    }

    /** An empty buffer that compresses to something: it is stored as if it were not compressed. */
    predicate EmptyGrows(d: Bytes) {
      compress && d == [] && deflate([]) != []
    }
  }

  /** A buffer reads back as written, except an empty one that compresses to something. */
  lemma DecodeEncode(c: Codec, d: Bytes)
    requires c.Lossless()
    ensures c.Decode(c.Encode(d)) == d <==> !c.EmptyGrows(d)
  {
    assert c.inflate(c.deflate(d)) == d;
  }

  lemma BufferReadsBack(c: Codec, st: Files, id: nat, d: Bytes)
    requires Invariant(st) && id != 0
    ensures var st' := Write(st, id, c.Encode(d));
      && Invariant(st') && Lookup(st', id) == Some(c.Encode(d))
      && (OthersAlike(st, st', id) <==> !BringsBack(st, id))
    ensures c.Lossless() ==> (c.Decode(c.Encode(d)) == d <==> !c.EmptyGrows(d))
  {
    WriteIsMapUpdate(st, id, c.Encode(d));
    if c.Lossless() {
      DecodeEncode(c, d);
    }
  }

  /** A read into a buffer of len bytes gives the written bytes back if they fit it, and is refused if
      they do not. */
  lemma SizedRead(c: Codec, st: Files, id: nat, d: Bytes, len: nat)
    requires Invariant(st) && id != 0 && c.Lossless() && !c.EmptyGrows(d)
    ensures var st' := Write(st, id, c.Encode(d));
      && Invariant(st')
      && (match Lookup(st', id)
          case Some(record) =>
            (if (if record.origSize != 0 then record.origSize else |record.bytes|) > len then None
             else Some(c.Decode(record)))
          case None => None)
         == (if |d| > len then None else Some(d))
  {
    BufferReadsBack(c, st, id, d);
  }

  class Base {
    const codec: Codec
    var index: Index
    var data: Bytes
    // the cursor DpsBaseSeek leaves behind
    var item: Item
    var currentPos: nat
    var mishash: bool

    ghost function State(): Files
      reads this
    {
      Files(index, data)
    }

    ghost predicate Ok()
      reads this
    {
      Invariant(State())
    }

    /** What a read of the id gives its caller. */
    ghost function Contents(id: nat): Option<Bytes>
      requires Ok() && id != 0
      reads this
    {
      match Lookup(State(), id) case Some(record) => Some(codec.Decode(record)) case None => None
    }

    /** What a read of the id into a buffer of len bytes gives its caller. */
    ghost function ContentsUpTo(id: nat, len: nat): Option<Bytes>
      requires Ok() && id != 0
      reads this
    {
      match Lookup(State(), id)
      case Some(record) =>
        if (if record.origSize != 0 then record.origSize else |record.bytes|) > len then None
        else Some(codec.Decode(record))
      case None => None
    }

    /** DpsBaseOpen on files that do not exist yet. */
    constructor (c: Codec)
      ensures Ok() && State() == Files(EmptyIndex(), []) && codec == c
    {
      EmptyIsSearchable();
      codec := c;
      index, data, item, currentPos, mishash := EmptyIndex(), [], FREE_ITEM, 0, false;
    }

    /** DpsBaseSeek: every read of the index is inside it, so its repair branch is never taken. */
    method Seek(id: nat)
      requires Shape(index)
      modifies this`item, this`currentPos, this`mishash
      ensures currentPos == Find(index, id) && item == index[currentPos] && mishash == Mishash(index, id)
    {
      currentPos := Hash(id);
      item := index[currentPos];
      mishash := !(item.id == id || item.id == 0);
      if mishash {
        while item.next != 0 && item.id != id
          invariant currentPos < |index| && item == index[currentPos] && mishash && Mishash(index, id)
          invariant Walk(index, currentPos, id) == Walk(index, Hash(id), id)
          decreases |index| - currentPos
        {
          currentPos := item.next;
          assert currentPos < |index|;
          item := index[currentPos];
        }
      }
    }

    /** write(2) at a position of the data file. */
    method WriteData(at: nat, bytes: Bytes)
      requires at <= |data|
      modifies this`data
      ensures at + |bytes| <= |old(data)| ==> data == Overwrite(old(data), at, bytes)
      ensures at == |old(data)| ==> data == old(data) + bytes
    {
      if at + |bytes| <= |data| {
        data := data[..at] + bytes + data[at + |bytes|..];
      } else {
        data := data[..at] + bytes;
      }
    }

    /** write(2) of one item at a position of the index file. */
    method WriteItem(at: nat)
      requires at <= |index|
      modifies this`index
      ensures index == if at < |old(index)| then old(index)[at := item] else old(index) + [item]
    {
      index := if at < |index| then index[at := item] else index + [item];
    }

    /** DpsBaseWrite: the buffer is what a read gives back, and other ids read as before unless the
        id's free head slot hid a record. */
    method BaseWrite(id: nat, buffer: Bytes)
      requires Ok() && id != 0
      modifies this
      ensures Ok() && State() == Write(old(State()), id, codec.Encode(buffer))
      ensures codec.Lossless() ==> (Contents(id) == Some(buffer) <==> !codec.EmptyGrows(buffer))
      ensures codec.Lossless() && !codec.EmptyGrows(buffer) ==>
        forall len: nat :: ContentsUpTo(id, len) == if |buffer| > len then None else Some(buffer)
      ensures !BringsBack(old(State()), id) ==>
        forall id' | id' != 0 && id' != id :: Contents(id') == old(Contents(id'))
    {
      ghost var st := State();
      var record := codec.Encode(buffer);
      WriteRecord(id, record);
      BufferReadsBack(codec, st, id, buffer);
      if codec.Lossless() && !codec.EmptyGrows(buffer) {
        forall len: nat ensures ContentsUpTo(id, len) == if |buffer| > len then None else Some(buffer) {
          SizedRead(codec, st, id, buffer, len);
        }
      }
    }

    /** The part of DpsBaseWrite after compression. */
    method WriteRecord(id: nat, record: Record)
      requires Ok() && id != 0
      modifies this
      ensures Ok() && State() == Write(old(State()), id, record)
    {
      ghost var st := State();
      var size := |record.bytes|;
      Seek(id);
      WriteKeepsExtents(st, id, record);
      WriteByCases(st, id, record);
      FoundIsLive(st, id);
      hide Write, Find, Shape, WellFormed, ExtentsOk;
      if item.id == id {
        if item.size < size {
          item := item.(offset := |data|);
        }
      } else {
        if mishash && item.id != 0 {
          var newItemPos := |index|;
          item := item.(next := newItemPos);
          WriteItem(currentPos);
          currentPos := newItemPos;
          item := item.(next := 0);
        }
        item := item.(id := id, offset := |data|);
      }
      WriteData(item.offset, record.bytes);
      item := item.(size := size, origSize := record.origSize);
      WriteItem(currentPos);
    }

    /** DpsBaseDelete. */
    method BaseDelete(id: nat)
      requires Ok() && id != 0
      modifies this
      ensures Ok() && State() == Delete(old(State()), id)
    {
      DeleteKeepsInvariant(State(), id);
      Seek(id);
      if item.id == id {
        item := item.(id := 0);
        WriteItem(currentPos);
      }
    }

    /** DpsBaseRead into a buffer of len bytes; None for its error return. */
    method BaseRead(id: nat, len: nat) returns (r: Option<Bytes>)
      requires Ok() && id != 0
      modifies this`item, this`currentPos, this`mishash
      ensures r == ContentsUpTo(id, len)
      ensures r == match Lookup(State(), id)
                   case Some(record) =>
                     (if (if record.origSize != 0 then record.origSize else |record.bytes|) > len then None
                      else Some(codec.Decode(record)))
                   case None => None
    {
      Seek(id);
      FoundIsLive(State(), id);
      if item.id == id {
        if (if item.origSize != 0 then item.origSize else item.size) > len {
          return None;
        }
        var bytes := data[item.offset..item.offset + item.size];
        if codec.compress && item.origSize != 0 {
          return Some(codec.inflate(bytes));
        }
        return Some(bytes);
      }
      return None;
    }

    /** DpsBaseARead: the same without a limit. */
    method BaseARead(id: nat) returns (r: Option<Bytes>)
      requires Ok() && id != 0
      modifies this`item, this`currentPos, this`mishash
      ensures r == Contents(id)
    {
      Seek(id);
      FoundIsLive(State(), id);
      if item.id == id {
        var bytes := data[item.offset..item.offset + item.size];
        if codec.compress && item.origSize != 0 {
          return Some(codec.inflate(bytes));
        }
        return Some(bytes);
      }
      return None;
    }

    /** The copy loop of DpsBaseOptimize: move an extent to a lower, possibly overlapping place in
        chunks, each read returning any positive number of the bytes asked for. */
    method Slide(from: nat, to: nat, size: nat)
      requires to < from && from + size <= |data|
      modifies this`data
      ensures data == Overwrite(old(data), to, Extent(old(data), from, size))
    {
      ghost var before := data;
      var rsize := 0;
      while rsize < size
        invariant rsize <= size
        invariant data == before[..to] + before[from..from + rsize] + before[to + rsize..]
      {
        var want := if rsize + BUFSIZ < size then BUFSIZ else size - rsize;
        var nread :| 1 <= nread <= want;
        SlideStep(before, data, from, to, rsize, nread);
        hide Overwrite;
        var buffer := data[from + rsize..from + rsize + nread];
        WriteData(to + rsize, buffer);
        rsize := rsize + nread;
      }
      assert data == Overwrite(before, to, Extent(before, from, size));
    }

    /** The first pass of DpsBaseOptimize: ActualSize. */
    method CountSizes() returns (actual: nat)
      ensures actual == ActualSize(index, |index|, |data|)
    {
      actual := 0;
      for i := 0 to |index|
        invariant actual == ActualSize(index, i, |data|)
      {
        if index[i].id != 0 && index[i].offset < |data| && index[i].size > 0 {
          actual := actual + index[i].size;
        }
      }
    }

    /** The second pass: the items kept, in file order. */
    method CollectKept(actual: nat) returns (si: seq<Item>)
      ensures si == Kept(index, |index|, |data|, actual)
    {
      si := [];
      for i := 0 to |index|
        invariant si == Kept(index, i, |data|, actual)
      {
        if index[i].id != 0 && index[i].offset < |data| && index[i].size > 0 && index[i].size < actual {
          si := si + [index[i]];
        }
      }
    }

    /** The packing loop: slide every extent left and set its offset. */
    method PackExtents(si: array<Item>)
      requires Ok() && si[..] == Records(State())
      modifies si, this`data
      ensures si[..] == Packed(Records(old(State())))
      ensures InFile(Records(old(State())), |old(data)|)
      ensures TotalSize(Records(old(State()))) <= |data|
      ensures data[..TotalSize(Records(old(State())))] == PackedData(old(data), Records(old(State())))
    {
      hide Records, WellFormed, ExtentsOk, Packed, PackedData, PartlyPacked, InFile, TotalSize;
      ghost var before := data;
      ghost var recs := Records(State());
      RecordsInFile(State());
      RecordsSpaced(State());
      hide Spaced;
      PackStart(before, recs);
      var i := 0;
      while i < si.Length
        invariant i <= si.Length && InFile(recs, |before|)
        invariant si[..i] == Packed(recs[..i]) && si[i..] == recs[i..] && |recs| == si.Length
        invariant PartlyPacked(before, data, recs, i)
      {
        PackOne(si, i, before, recs);
        i := i + 1;
      }
      assert recs[..i] == recs && si[..i] == si[..];
      AllPacked(before, data, recs);
    }

    /** One turn of the packing loop. */
    method PackOne(si: array<Item>, i: nat, ghost before: Bytes, ghost recs: seq<Item>)
      requires i < si.Length == |recs| && InFile(recs, |before|) && Spaced(recs)
      requires si[..i] == Packed(recs[..i]) && si[i..] == recs[i..] && PartlyPacked(before, data, recs, i)
      modifies si, this`data
      ensures si[..i + 1] == Packed(recs[..i + 1]) && si[i + 1..] == recs[i + 1..]
      ensures PartlyPacked(before, data, recs, i + 1)
    {
      assert si[i] == si[i..][0] == recs[i];
      assert i + 1 < si.Length ==> si[i + 1] == si[i..][1] == recs[i + 1];
      assert i > 0 ==> si[i - 1] == si[..i][i - 1];
      PackStep(before, data, recs, i);
      PackedOneMore(recs, i);
      // the source's size corrections compare with the next offset: they never fire
      assert i + 1 < si.Length ==> si[i].size <= si[i + 1].offset - si[i].offset;
      hide PartlyPacked, Spaced, Packed, InFile;
      ghost var packed := si[..i];
      var pos := if i == 0 then 0 else si[i - 1].offset + si[i - 1].size;
      var posold := si[i].offset;
      if posold > pos {
        Slide(posold, pos, si[i].size);
        si[i] := si[i].(offset := pos);
      }
      assert si[..i + 1] == packed + [si[i]];
      assert si[i + 1..] == recs[i..][1..];
    }

    /** The rebuild of the index from the packed items. */
    method RebuildIndex(si: array<Item>)
      requires NoFreeIds(si[..])
      modifies this`index, this`item, this`currentPos, this`mishash
      ensures index == Rebuild(si[..])
    {
      index := EmptyIndex();
      EmptyIsSearchable();
      var i := 0;
      assert si[..0] == [];
      while i < si.Length
        invariant i <= si.Length && NoFreeIds(si[..i]) && index == Rebuild(si[..i])
      {
        assert si[..i + 1][..i] == si[..i];
        ghost var before := index;
        var it := si[i];
        Seek(it.id);
        if item.id != it.id {
          if mishash && item.id != 0 {
            var newItemPos := |index|;
            item := item.(next := newItemPos);
            WriteItem(currentPos);
            currentPos := newItemPos;
          }
        }
        item := it.(next := 0);
        WriteItem(currentPos);
        assert index == StoreLast(before, it);
        hide StoreLast, Find, Mishash;
        i := i + 1;
      }
      assert si[..i] == si[..];
    }

    /** DpsBaseOptimize on one base number; compact stands for its fragmentation test. */
    method BaseOptimize(compact: bool)
      requires Ok()
      modifies this
      ensures Ok() && State() == if compact then Optimize(old(State())) else old(State())
    {
      hide Optimize, WellFormed, ExtentsOk, Packed, PackedData, Rebuild, Records, TotalSize, NoFreeIds, InFile;
      ghost var st := State();
      OptimizeExtents(st);
      OptimizeParts(st);
      var actual := CountSizes();
      if compact {
        Compact(actual);
      }
    }

    /** The compaction branch. */
    method Compact(actual: nat)
      requires Ok() && actual == ActualSize(index, |index|, |data|)
      modifies this
      ensures State() == Optimize(old(State()))
    {
      hide Optimize, WellFormed, ExtentsOk, Packed, PackedData, Rebuild, Records, TotalSize, NoFreeIds, InFile,
        Sort, Kept, ActualSize, OffsetLe;
      ghost var st := State();
      OptimizeParts(st);
      RecordsOf(st);
      var kept := CollectKept(actual);
      var si := ToArray(Sort(OffsetLe, kept));
      PackExtents(si);
      PackedEnd(Records(st));
      var end := if si.Length == 0 then 0 else si[si.Length - 1].offset + si[si.Length - 1].size;
      assert si.Length > 0 ==> si[si.Length - 1] == si[..][si.Length - 1];
      data := data[..end];
      RebuildIndex(si);
    }
  }

  method ToArray(s: seq<Item>) returns (a: array<Item>)
    ensures fresh(a) && a[..] == s
  {
    a := new Item[|s|](i requires 0 <= i < |s| => s[i]);
  }

  lemma RecordsOf(st: Files)
    ensures Records(st)
         == Sort(OffsetLe, Kept(st.index, |st.index|, |st.data|, ActualSize(st.index, |st.index|, |st.data|)))
  {
  }

  lemma OptimizeParts(st: Files)
    requires ExtentsOk(st)
    ensures InFile(Records(st), |st.data|) && NoFreeIds(Packed(Records(st)))
    ensures Optimize(st) == Files(Rebuild(Packed(Records(st))), PackedData(st.data, Records(st)))
  {
    RecordsInFile(st);
    PackedIds(st);
  }

  /** Write, branch by branch. */
  lemma WriteByCases(st: Files, id: nat, r: Record)
    requires Shape(st.index) && ExtentsOk(st) && id != 0
    ensures
      var ix, c, size := st.index, Find(st.index, id), |r.bytes|;
      var it := ix[c];
      Write(st, id, r) ==
        if it.id == id then
          if it.size < size then
            Files(ix[c := it.(offset := |st.data|, size := size, origSize := r.origSize)], st.data + r.bytes)
          else
            assert Live(ix, c);
            Files(ix[c := it.(size := size, origSize := r.origSize)], Overwrite(st.data, it.offset, r.bytes))
        else if Mishash(ix, id) && it.id != 0 then
          Files(ix[c := it.(next := |ix|)] + [Item(id, |st.data|, 0, size, r.origSize)], st.data + r.bytes)
        else
          Files(ix[c := Item(id, |st.data|, it.next, size, r.origSize)], st.data + r.bytes)
  {
  }

  lemma FoundIsLive(st: Files, id: nat)
    requires Shape(st.index) && ExtentsOk(st) && id != 0
    ensures var item := st.index[Find(st.index, id)];
      item.id == id ==> item.offset + item.size <= |st.data|
  {
    assert st.index[Find(st.index, id)].id == id ==> Live(st.index, Find(st.index, id));
  }

  /** One chunk: the bytes still to be read have not been overwritten. */
  lemma SlideStep(before: Bytes, now: Bytes, from: nat, to: nat, done: nat, n: nat)
    requires to < from && from + done + n <= |before|
    requires now == before[..to] + before[from..from + done] + before[to + done..]
    ensures now[from + done..from + done + n] == before[from + done..from + done + n]
    ensures Overwrite(now, to + done, before[from + done..from + done + n])
         == before[..to] + before[from..from + done + n] + before[to + done + n..]
  {
    var chunk := before[from + done..from + done + n];
    assert before[from..from + done] + chunk == before[from..from + done + n];
    assert now[..to + done] == before[..to] + before[from..from + done];
    assert now[to + done + n..] == before[to + done + n..];
  }

  /** After i records: their extents are packed at the front, and the rest of the file is as it was. */
  ghost predicate PartlyPacked(before: Bytes, now: Bytes, recs: seq<Item>, i: nat)
    requires InFile(recs, |before|) && i <= |recs|
  {
    && |now| == |before|
    && TotalSize(recs[..i]) <= (if i == 0 then 0 else recs[i - 1].offset + recs[i - 1].size)
    && now[..TotalSize(recs[..i])] == PackedData(before, recs[..i])
    && forall x | (if i == 0 then 0 else recs[i - 1].offset + recs[i - 1].size) <= x < |now| :: now[x] == before[x]
  }

  lemma PackStart(before: Bytes, recs: seq<Item>)
    requires InFile(recs, |before|)
    ensures PartlyPacked(before, before, recs, 0) && recs[..0] == [] && Packed([]) == [] && recs[0..] == recs
  {
  }

  lemma AllPacked(before: Bytes, now: Bytes, recs: seq<Item>)
    requires InFile(recs, |before|) && PartlyPacked(before, now, recs, |recs|)
    ensures TotalSize(recs) <= |now| && now[..TotalSize(recs)] == PackedData(before, recs)
  {
    assert recs[..|recs|] == recs;
  }

  lemma {:induction false} SumBelowOffset(recs: seq<Item>, i: nat)
    requires Spaced(recs) && i < |recs|
    ensures TotalSize(recs[..i]) <= recs[i].offset
    ensures TotalSize(recs[..i + 1]) == TotalSize(recs[..i]) + recs[i].size
  {
    assert recs[..i + 1][..i] == recs[..i];
    if i > 0 {
      SumBelowOffset(recs, i - 1);
    }
  }

  lemma PackedOneMore(recs: seq<Item>, i: nat)
    requires i < |recs|
    ensures Packed(recs[..i + 1]) == Packed(recs[..i]) + [recs[i].(offset := TotalSize(recs[..i]))]
    ensures i > 0 ==> Packed(recs[..i])[i - 1].offset + Packed(recs[..i])[i - 1].size == TotalSize(recs[..i])
  {
    assert recs[..i + 1][..i] == recs[..i];
    if i > 0 {
      assert recs[..i][..i - 1] == recs[..i - 1];
    }
  }

  lemma PackedEnd(recs: seq<Item>)
    ensures recs == [] ==> TotalSize(recs) == 0
    ensures recs != [] ==>
      Packed(recs)[|recs| - 1].offset + Packed(recs)[|recs| - 1].size == TotalSize(recs)
  {
  }

  lemma PackedDataOneMore(before: Bytes, recs: seq<Item>, i: nat)
    requires InFile(recs, |before|) && i < |recs| && Spaced(recs)
    ensures PackedData(before, recs[..i + 1])
         == PackedData(before, recs[..i]) + Extent(before, recs[i].offset, recs[i].size)
    ensures i > 0 ==> recs[i - 1].offset + recs[i - 1].size <= recs[i].offset
  {
    assert recs[..i + 1][..i] == recs[..i];
  }

  /** Moving record i down to the running sum packs one more record. */
  lemma PackStep(before: Bytes, now: Bytes, recs: seq<Item>, i: nat)
    requires InFile(recs, |before|) && i < |recs| && Spaced(recs) && PartlyPacked(before, now, recs, i)
    ensures var pos, posold, size := TotalSize(recs[..i]), recs[i].offset, recs[i].size;
      && pos <= posold && posold + size <= |now|
      && var now' := Overwrite(now, pos, Extent(now, posold, size));
      && PartlyPacked(before, now', recs, i + 1)
      && (pos == posold ==> now' == now)
  {
    SumBelowOffset(recs, i);
    PackedDataOneMore(before, recs, i);
    hide PackedData, TotalSize, Spaced;
    var pos, posold, size := TotalSize(recs[..i]), recs[i].offset, recs[i].size;
    var now' := Overwrite(now, pos, Extent(now, posold, size));
    assert Extent(now, posold, size) == Extent(before, posold, size);
    assert now'[..pos + size] == now[..pos] + Extent(now, posold, size);
    assert now'[pos + size..] == now[pos + size..];
    assert forall x | posold + size <= x < |now| :: now'[x] == before[x];
    assert pos == posold ==> now' == now;
  }
}
