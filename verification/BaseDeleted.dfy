/** When a deleted id stays deleted: an exact answer for every reachable state, whether or not ids are
    stored twice and whether or not items have been cut off their chains. */
module BaseDeleted {
  import opened BaseIndex
  import opened BaseChains
  import opened BaseStore
  import opened BaseReads
  import opened BaseOptimize
  import opened BaseSurvivors
  import opened BaseRuns

  /** Whatever follows, short of writing the id again, it is not found. */
  ghost predicate StaysDeleted(st: Files, id: nat)
    requires Invariant(st) && id != 0
  {
    forall ops | ValidOps(ops) && NeverWrites(ops, id) :: Lookup(RunFrom(st, ops), id) == None
  }

  /** The only live item of the id, if any, is the one the search finds. */
  ghost predicate OnlyFound(st: Files, id: nat)
    requires Shape(st.index)
  {
    forall p: nat | Live(st.index, p) && st.index[p].id == id :: p == Find(st.index, id)
  }

  /** A delete leaves no live item of the id exactly when the search finds the only one; in a valid
      state, exactly when the id is not hidden. */
  lemma DeleteRemovesExactly(st: Files, id: nat)
    requires Invariant(st) && id != 0
    ensures Invariant(Delete(st, id))
    ensures NoLive(Delete(st, id), id) <==> OnlyFound(st, id)
    ensures Valid(st) ==> (OnlyFound(st, id) <==> !Hidden(st.index, id))
  {
    DeleteKeepsInvariant(st, id);
    var ix, ix' := st.index, Delete(st, id).index;
    forall p: nat | Live(ix, p) && ix[p].id == id ensures (Live(ix', p) && ix'[p].id == id) <==> p != Find(ix, id) { }
    if Valid(st) {
      FoundUnlessHidden(st, id);
    }
  }

  lemma FoundUnlessHidden(st: Files, id: nat)
    requires Valid(st) && id != 0
    ensures OnlyFound(st, id) <==> !Hidden(st.index, id)
  {
    var buckets :| Bucketed(st.index, buckets);
    if Hidden(st.index, id) {
      DeadHeadHides(st.index, id);
    } else {
      forall p: nat | Live(st.index, p) && st.index[p].id == id ensures p == Find(st.index, id) {
        FindsLive(st.index, buckets, p);
      }
    }
  }

  // ---------- items cut off a chain are not empty ----------

  /** The positions of a chain from p on. */
  function Path(ix: Index, p: nat): (path: seq<nat>)
    requires Shape(ix) && p < |ix|
    decreases |ix| - p
  {
    [p] + if ix[p].next == 0 then [] else Path(ix, ix[p].next)
  }

  /** Every live empty record is in its chain; compaction, which alone cuts chains, drops the others. */
  ghost predicate EmptyAreChained(ix: Index)
    requires Shape(ix)
  {
    forall p: nat | Live(ix, p) && ix[p].size == 0 :: p in Path(ix, Hash(ix[p].id))
  }

  lemma {:induction false} WalkOnPath(ix: Index, p: nat, id: nat)
    requires Shape(ix) && p < |ix|
    ensures Walk(ix, p, id) in Path(ix, p)
    decreases |ix| - p
  {
    if ix[p].next != 0 && ix[p].id != id {
      WalkOnPath(ix, ix[p].next, id);
    }
  }

  /** Contents do not matter to paths, and an item linked behind another is on its path. */
  lemma {:induction false} PathGrows(ix: Index, ix': Index, p: nat, q: nat)
    requires Shape(ix) && Shape(ix') && |ix| <= |ix'| && p < |ix| && q in Path(ix, p)
    requires forall k | 0 <= k < |ix| && ix[k].next != 0 :: ix'[k].next == ix[k].next
    ensures q < |ix| && q in Path(ix', p)
    ensures ix'[q].next != 0 ==> ix'[q].next in Path(ix', p)
    decreases |ix| - p
  {
    if q != p {
      PathGrows(ix, ix', ix[p].next, q);
    } else if ix'[p].next != 0 {
      assert ix'[p].next in Path(ix', ix'[p].next);
    }
  }

  lemma {:induction false} PathIsItems(ix: Index, p: nat, q: nat)
    requires Shape(ix) && p < |ix| && q in Path(ix, p)
    ensures q < |ix| && ix[q].(next := 0) in Items(ix, p)
    decreases |ix| - p
  {
    if q != p {
      PathIsItems(ix, ix[p].next, q);
    }
  }

  /** A live item on its path makes its id chained. */
  lemma OnPathIsChained(st: Files, p: nat)
    requires Shape(st.index) && Live(st.index, p) && p in Path(st.index, Hash(st.index[p].id))
    ensures Chained(st, st.index[p].id).Some?
  {
    PathIsItems(st.index, Hash(st.index[p].id), p);
    var chain, id := ChainOf(st, st.index[p].id), st.index[p].id;
    var k :| 0 <= k < |chain| && chain[k] == st.index[p].(next := 0);
    assert chain[k].id == id;
  }

  lemma StoreKeepsEmptyChained(ix: Index, item: Item)
    requires WellFormed(ix) && EmptyAreChained(ix) && item.id != 0
    ensures WellFormed(Store(ix, item)) && EmptyAreChained(Store(ix, item))
  {
    StoreKeepsWellFormed(ix, item);
    StoreChangesOneSlot(ix, item);
    var ix', s, c := Store(ix, item), StoredAt(ix, item.id), Find(ix, item.id);
    FindOnPath(ix, item.id);
    PathGrows(ix, ix', Hash(item.id), c);
    assert s in Path(ix', Hash(item.id));
    forall p: nat | Live(ix', p) && ix'[p].size == 0 ensures p in Path(ix', Hash(ix'[p].id)) {
      if p != s {
        assert Live(ix, p) && ix[p].size == 0;
        PathGrows(ix, ix', Hash(ix[p].id), p);
      }
    }
  }

  lemma FindOnPath(ix: Index, id: nat)
    requires Shape(ix)
    ensures Find(ix, id) in Path(ix, Hash(id))
  {
    WalkOnPath(ix, Hash(id), id);
  }

  lemma RemoveKeepsEmptyChained(ix: Index, id: nat)
    requires WellFormed(ix) && EmptyAreChained(ix) && id != 0
    ensures WellFormed(Remove(ix, id)) && EmptyAreChained(Remove(ix, id))
  {
    RemoveKeepsWellFormed(ix, id);
    var ix' := Remove(ix, id);
    forall p: nat | Live(ix', p) && ix'[p].size == 0 ensures p in Path(ix', Hash(ix'[p].id)) {
      assert Live(ix, p) && ix[p] == ix'[p];
      PathGrows(ix, ix', Hash(ix[p].id), p);
    }
  }

  /** A compacted store has no empty records. */
  lemma CompactedNotEmpty(st: Files)
    requires ExtentsOk(st)
    ensures Invariant(Optimize(st))
    ensures forall p: nat | Live(Optimize(st).index, p) :: Optimize(st).index[p].size > 0
  {
    OptimizeExtents(st);
    PackedDifferent(st);
    RecordsNonEmpty(st);
    var recs, ix' := Records(st), Optimize(st).index;
    var from := RebuildDraws(Packed(recs));
    hide Records, Packed, PackedData, Rebuild;
    forall p: nat | Live(ix', p) ensures ix'[p].size > 0 {
      PackedRecord(st.data, recs, from[p]);
    }
  }

  lemma ApplyKeepsEmptyChained(st: Files, op: Op)
    requires Invariant(st) && EmptyAreChained(st.index) && ValidOp(op)
    ensures Invariant(Apply(st, op)) && EmptyAreChained(Apply(st, op).index)
  {
    ApplyKeepsInvariant(st, op);
    match op
    case WriteOp(id, r) =>
      StoreKeepsEmptyChained(st.index, Item(id, WriteOffset(st, id, |r.bytes|), 0, |r.bytes|, r.origSize));
    case DeleteOp(id) => RemoveKeepsEmptyChained(st.index, id);
    case OptimizeOp(compact) =>
      if compact {
        CompactedNotEmpty(st);
      }
  }

  /** So it is in every reachable state. */
  lemma {:induction false} EmptyChainedInRuns(ops: seq<Op>)
    requires ValidOps(ops)
    ensures EmptyAreChained(Run(ops).index)
  {
    if ops == [] {
    } else {
      var n := |ops| - 1;
      assert ops[..n + 1] == ops;
      RunStep(ops, n);
      EmptyChainedInRuns(ops[..n]);
      hide Run, Apply;
      ApplyKeepsEmptyChained(Run(ops[..n]), ops[n]);
    }
  }

  // ---------- counting live items ----------

  /** The live items among the first n. */
  function LiveCount(ix: Index, n: nat): nat
    requires n <= |ix|
  {
    if n == 0 then 0 else LiveCount(ix, n - 1) + (if ix[n - 1].id != 0 then 1 else 0)
  }

  /** One slot changes: the count changes by that slot. */
  lemma {:induction false} CountOneSlot(ix: Index, ix': Index, n: nat, s: nat)
    requires n <= |ix| && n <= |ix'|
    requires forall p | 0 <= p < n && p != s :: ix'[p].id != 0 <==> ix[p].id != 0
    ensures var before := if s < n && ix[s].id != 0 then 1 else 0;
      var after := if s < n && ix'[s].id != 0 then 1 else 0;
      LiveCount(ix', n) == LiveCount(ix, n) - before + after
  {
    if n > 0 {
      CountOneSlot(ix, ix', n - 1, s);
    }
  }

  lemma {:induction false} CountFree(ix: Index, n: nat)
    requires n <= |ix| && forall p | 0 <= p < n :: ix[p].id == 0
    ensures LiveCount(ix, n) == 0
  {
    if n > 0 {
      CountFree(ix, n - 1);
    }
  }

  lemma CountStoreLast(ix: Index, item: Item)
    requires Shape(ix)
    ensures LiveCount(StoreLast(ix, item), |StoreLast(ix, item)|) <= LiveCount(ix, |ix|) + 1
  {
    CountOneSlot(ix, StoreLast(ix, item), |ix|, Find(ix, item.id));
  }

  lemma {:induction false} CountRebuild(recs: seq<Item>)
    requires NoFreeIds(recs)
    ensures LiveCount(Rebuild(recs), |Rebuild(recs)|) <= |recs|
  {
    if recs == [] {
      CountFree(EmptyIndex(), DPS_HASH_PRIME);
    } else {
      CountRebuild(recs[..|recs| - 1]);
      RebuildStep(recs);
      hide Rebuild, StoreLast;
      CountStoreLast(Rebuild(recs[..|recs| - 1]), recs[|recs| - 1]);
    }
  }

  lemma {:induction false} CountKept(ix: Index, n: nat, fileSize: nat, actual: nat)
    requires n <= |ix|
    ensures |Kept(ix, n, fileSize, actual)| <= LiveCount(ix, n)
  {
    if n > 0 {
      CountKept(ix, n - 1, fileSize, actual);
    }
  }

  /** Compaction adds no live item. */
  lemma CountOptimize(st: Files)
    requires ExtentsOk(st)
    ensures var ix' := Optimize(st).index; LiveCount(ix', |ix'|) <= LiveCount(st.index, |st.index|)
  {
    PackedDifferent(st);
    CountKept(st.index, |st.index|, |st.data|, ActualSize(st.index, |st.index|, |st.data|));
    hide Rebuild, Packed, Kept, ActualSize, LiveCount;
    CountRebuild(Packed(Records(st)));
  }

  lemma CountRemove(ix: Index, id: nat)
    requires Shape(ix) && id != 0 && ix[Find(ix, id)].id == id
    ensures |Remove(ix, id)| == |ix| && LiveCount(Remove(ix, id), |ix|) < LiveCount(ix, |ix|)
  {
    CountOneSlot(ix, Remove(ix, id), |ix|, Find(ix, id));
  }

  // ---------- coming back ----------

  /** Some run that does not write the id ends in a state where it is found. */
  ghost predicate ComesBack(st: Files, id: nat) {
    && Invariant(st) && id != 0
    && exists ops :: ValidOps(ops) && NeverWrites(ops, id) && Lookup(RunFrom(st, ops), id) != None
  }

  lemma {:induction false} FirstThen(st: Files, op: Op, rest: seq<Op>)
    requires Invariant(st) && ValidOp(op) && ValidOps(rest)
    ensures Invariant(Apply(st, op)) && ValidOps([op] + rest)
    ensures RunFrom(st, [op] + rest) == RunFrom(Apply(st, op), rest)
  {
    hide Apply, RunFrom, Shape, ExtentsOk, Bucketed;
    ApplyKeepsInvariant(st, op);
    var n := |rest|;
    RunFromStep(st, [op] + rest);
    if n == 0 {
      assert ([op] + rest)[..0] == [];
      RunFromNothing(st);
      RunFromNothing(Apply(st, op));
    } else {
      FirstThen(st, op, rest[..n - 1]);
      RunFromStep(Apply(st, op), rest);
      assert ([op] + rest)[..n] == [op] + rest[..n - 1];
    }
  }

  lemma RunFromStep(st: Files, ops: seq<Op>)
    requires Invariant(st) && ops != [] && ValidOps(ops)
    ensures ValidOps(ops[..|ops| - 1]) && ValidOp(ops[|ops| - 1])
    ensures RunFrom(st, ops) == Apply(RunFrom(st, ops[..|ops| - 1]), ops[|ops| - 1])
  {
  }

  lemma RunFromNothing(st: Files)
    requires Invariant(st)
    ensures RunFrom(st, []) == st
  {
  }

  lemma BackNow(st: Files, id: nat)
    requires Invariant(st) && id != 0 && Lookup(st, id) != None
    ensures ComesBack(st, id)
  {
    hide Lookup;
    assert RunFrom(st, []) == st;
    assert ValidOps([]) && NeverWrites([], id);
  }

  lemma BackAfter(st: Files, op: Op, id: nat)
    requires Invariant(st) && ValidOp(op) && !(op.WriteOp? && op.id == id) && ComesBack(Apply(st, op), id)
    ensures ComesBack(st, id)
  {
    hide Lookup, RunFrom, Apply;
    var rest :| ValidOps(rest) && NeverWrites(rest, id) && Lookup(RunFrom(Apply(st, op), rest), id) != None;
    FirstThen(st, op, rest);
    assert NeverWrites([op] + rest, id);
  }

  lemma BackAfterDelete(st: Files, d: nat, id: nat)
    requires Invariant(st) && d != 0 && ComesBack(Delete(st, d), id)
    ensures ComesBack(st, id)
  {
    hide Delete, ComesBack;
    BackAfter(st, DeleteOp(d), id);
  }

  lemma BackAfterOptimize(st: Files, id: nat)
    requires Invariant(st) && ComesBack(Optimize(st), id)
    ensures ComesBack(st, id)
  {
    hide Optimize, ComesBack;
    BackAfter(st, OptimizeOp(true), id);
  }

  // ---------- a live record can always be found again ----------

  ghost predicate HasRecord(st: Files, id: nat) {
    exists p: nat :: NonEmpty(st, p) && st.index[p].id == id
  }

  ghost predicate HasItem(ix: Index, id: nat) {
    exists p: nat :: Live(ix, p) && ix[p].id == id
  }

  lemma StoreLastKeepsId(ix: Index, item: Item, id: nat)
    requires Shape(ix) && item.id != 0 && id != 0 && (HasItem(ix, id) || item.id == id)
    ensures HasItem(StoreLast(ix, item), id)
  {
    var ix', c := StoreLast(ix, item), Find(ix, item.id);
    if item.id == id {
      var s := if |ix'| > |ix| then |ix| else c;
      assert Live(ix', s) && ix'[s].id == id;
    } else {
      var p: nat :| Live(ix, p) && ix[p].id == id;
      assert Live(ix', p) && ix'[p].id == id;
    }
  }

  /** The rebuilt index holds some record of every id it was given. */
  lemma {:induction false} RebuildKeepsId(recs: seq<Item>, i: nat)
    requires NoFreeIds(recs) && i < |recs|
    ensures HasItem(Rebuild(recs), recs[i].id)
  {
    hide Rebuild, StoreLast, HasItem;
    var n := |recs| - 1;
    RebuildStep(recs);
    if i < n {
      RebuildKeepsId(recs[..n], i);
    }
    StoreLastKeepsId(Rebuild(recs[..n]), recs[n], recs[i].id);
  }

  lemma CompactionKeepsId(st: Files, id: nat, other: nat)
    requires Invariant(st) && id != other && HasRecord(st, id) && HasRecord(st, other)
    ensures Invariant(Optimize(st)) && HasRecord(Optimize(st), id)
  {
    var p: nat :| NonEmpty(st, p) && st.index[p].id == id;
    var q: nat :| NonEmpty(st, q) && st.index[q].id == other;
    KeptUnlessAlone(st, p);
    CompactedNotEmpty(st);
    PackedDifferent(st);
    var i := RecordIndex(st, p);
    hide Records, Packed, PackedData, Rebuild, KeptAt;
    assert Records(st)[i] == st.index[p];
    RebuildKeepsId(Packed(Records(st)), i);
    assert HasItem(Optimize(st).index, id);
    var p': nat :| Live(Optimize(st).index, p') && Optimize(st).index[p'].id == id;
    assert NonEmpty(Optimize(st), p');
  }

  /** Another id heads the bucket of a record that a compaction left unfound. */
  lemma OtherHead(st: Files, id: nat) returns (head: nat)
    requires Invariant(st) && HeadOk(st.index) && id != 0 && HasRecord(st, id) && Lookup(st, id) == None
    ensures head != 0 && head != id && Hash(head) == Hash(id) && st.index[Find(st.index, head)].id == head
  {
    var p: nat :| NonEmpty(st, p) && st.index[p].id == id;
    assert Live(st.index, Hash(st.index[p].id));
    head := st.index[Hash(id)].id;
    var buckets :| Bucketed(st.index, buckets);
  }

  lemma DeleteKeepsRecord(st: Files, id: nat, other: nat)
    requires Invariant(st) && id != 0 && other != id && HasRecord(st, other)
    ensures Invariant(Delete(st, id)) && HasRecord(Delete(st, id), other)
  {
    DeleteKeepsInvariant(st, id);
    var p: nat :| NonEmpty(st, p) && st.index[p].id == other;
    assert Delete(st, id).index[p] == st.index[p];
    assert NonEmpty(Delete(st, id), p);
  }

  /** A store that holds a record of the id, and one of another bucket. */
  ghost predicate Recoverable(st: Files, id: nat, other: nat) {
    && Invariant(st) && id != 0 && other != 0 && Hash(other) != Hash(id)
    && HasRecord(st, id) && HasRecord(st, other)
  }

  /** A compaction keeps both records and adds no live item. */
  lemma CompactStep(st: Files, id: nat, other: nat)
    requires Recoverable(st, id, other)
    ensures var st' := Optimize(st);
      && Recoverable(st', id, other) && HeadOk(st'.index)
      && LiveCount(st'.index, |st'.index|) <= LiveCount(st.index, |st.index|)
  {
    CompactionKeepsId(st, id, other);
    CompactionKeepsId(st, other, id);
    CountOptimize(st);
    CompactedHeadOk(st);
  }

  /** When the id is still not found, deleting the head of its bucket leaves fewer live items. */
  lemma DeleteStep(st: Files, id: nat, other: nat) returns (head: nat)
    requires Recoverable(st, id, other) && HeadOk(st.index) && Lookup(st, id) == None
    ensures head != 0 && head != id && Recoverable(Delete(st, head), id, other)
    ensures var ix' := Delete(st, head).index; LiveCount(ix', |ix'|) < LiveCount(st.index, |st.index|)
  {
    hide HasRecord, LiveCount;
    head := OtherHead(st, id);
    CountRemove(st.index, head);
    DeleteKeepsRecord(st, head, id);
    DeleteKeepsRecord(st, head, other);
  }

  /** Compact; if another id heads the bucket instead, delete that one and start again. */
  lemma {:induction false} Recover(st: Files, id: nat, other: nat)
    requires Recoverable(st, id, other)
    ensures ComesBack(st, id)
    decreases LiveCount(st.index, |st.index|)
  {
    CompactStep(st, id, other);
    var compacted := Optimize(st);
    hide Optimize, Lookup, LiveCount, HasRecord, HeadOk, Delete, ComesBack, Hash, Apply, RunFrom;
    if Lookup(compacted, id) == None {
      var head := DeleteStep(compacted, id, other);
      Recover(Delete(compacted, head), id, other);
      BackAfterDelete(compacted, head, id);
    } else {
      BackNow(compacted, id);
    }
    BackAfterOptimize(st, id);
  }

  lemma CompactedHeadOk(st: Files)
    requires ExtentsOk(st)
    ensures HeadOk(Optimize(st).index)
  {
    PackedDifferent(st);
    hide Records, Packed, Rebuild;
    RebuildHeadOk(Packed(Records(st)));
  }

  // ---------- the exact condition ----------

  /** An id that has a live item comes back. */
  lemma LiveComesBack(st: Files, id: nat)
    requires Invariant(st) && EmptyAreChained(st.index) && id != 0 && !NoLive(st, id)
    ensures ComesBack(st, id)
  {
    hide Lookup, Chained, ComesBack, EmptyAreChained;
    if Lookup(st, id) != None {
      BackNow(st, id);
    } else if Chained(st, id) != None {
      ChainedComesBack(st, id);
    } else {
      CutOffComesBack(st, id);
    }
  }

  /** A chained record comes back when another id takes the free head slot. */
  lemma ChainedComesBack(st: Files, id: nat)
    requires Invariant(st) && id != 0 && Lookup(st, id) == None && Chained(st, id) != None
    ensures ComesBack(st, id)
  {
    LookupIsChained(st, id);
    var other := AnotherOfBucket(id);
    ReadsAfterWrite(st, other, Record([], 0), id);
    hide Write, Lookup, Chained, ComesBack;
    BackNow(Write(st, other, Record([], 0)), id);
    BackAfter(st, WriteOp(other, Record([], 0)), id);
  }

  /** A record cut off its chain comes back once compactions have a second record to keep it by. */
  lemma CutOffComesBack(st: Files, id: nat)
    requires Invariant(st) && EmptyAreChained(st.index) && id != 0 && !NoLive(st, id) && Chained(st, id) == None
    ensures ComesBack(st, id)
  {
    CutOffIsRecord(st, id);
    var other := AnotherBucket(id);
    var r := Record([0], 0);
    WriteKeepsRecord(st, other, r, id);
    hide Write, HasRecord, ComesBack, NoLive, EmptyAreChained, Chained, Hash;
    Recover(Write(st, other, r), id, other);
    BackAfter(st, WriteOp(other, r), id);
  }

  lemma CutOffIsRecord(st: Files, id: nat)
    requires Shape(st.index) && EmptyAreChained(st.index) && !NoLive(st, id) && Chained(st, id) == None
    ensures HasRecord(st, id)
  {
    var p: nat :| Live(st.index, p) && st.index[p].id == id;
    if st.index[p].size == 0 {
      OnPathIsChained(st, p);
    }
    assert NonEmpty(st, p);
  }

  lemma WriteKeepsRecord(st: Files, other: nat, r: Record, id: nat)
    requires Invariant(st) && other != 0 && r.bytes != [] && other != id && HasRecord(st, id)
    ensures var st' := Write(st, other, r); Invariant(st') && HasRecord(st', id) && HasRecord(st', other)
  {
    var st', s := Write(st, other, r), StoredAt(st.index, other);
    WriteKeepsExtents(st, other, r);
    StoreChangesOneSlot(st.index, Item(other, WriteOffset(st, other, |r.bytes|), 0, |r.bytes|, r.origSize));
    hide Store, StoredAt, Write;
    var p: nat :| NonEmpty(st, p) && st.index[p].id == id;
    assert |RecordAt(st', p).bytes| == |RecordAt(st, p).bytes|;
    assert NonEmpty(st', p);
    assert |RecordAt(st', s).bytes| == |r.bytes|;
    assert NonEmpty(st', s);
  }

  lemma AnotherBucket(id: nat) returns (other: nat)
    ensures other != 0 && other != id && Hash(other) != Hash(id)
  {
    other := if Hash(id) == 1 then 2 else 1;
  }

  /** Another id of the same bucket. */
  lemma AnotherOfBucket(id: nat) returns (other: nat)
    requires id != 0
    ensures other != 0 && other != id && Hash(other) == Hash(id)
  {
    var h := Hash(id);
    other := if h + DPS_HASH_PRIME != id then h + DPS_HASH_PRIME else h + 2 * DPS_HASH_PRIME;
  }

  /** An id stays away through every run that does not write it exactly when none of its items is
      live, be they chained, hidden or cut off. */
  lemma StaysDeletedExactly(st: Files, id: nat)
    requires Invariant(st) && EmptyAreChained(st.index) && id != 0
    ensures StaysDeleted(st, id) <==> NoLive(st, id)
  {
    hide NoLive, Lookup, EmptyAreChained, RunFrom;
    if NoLive(st, id) {
      forall ops | ValidOps(ops) && NeverWrites(ops, id) ensures Lookup(RunFrom(st, ops), id) == None {
        RunKeepsNoLive(st, ops, id);
        NoLiveNotFound(RunFrom(st, ops), id);
      }
    } else {
      LiveComesBack(st, id);
      hide Invariant;
    }
  }

  /** In every reachable state a deleted id stays deleted, through every run that does not write it
      again, if and only if it had no live item but the one the search found. */
  lemma DeletedForGood(before: seq<Op>, id: nat)
    requires ValidOps(before) && id != 0
    ensures var st := Run(before);
      Invariant(Delete(st, id)) && (StaysDeleted(Delete(st, id), id) <==> OnlyFound(st, id))
  {
    var st := Run(before);
    EmptyChainedInRuns(before);
    DeleteRemovesExactly(st, id);
    RemoveKeepsEmptyChained(st.index, id);
    hide Run, OnlyFound, NoLive, StaysDeleted, EmptyAreChained, Remove;
    StaysDeletedExactly(Delete(st, id), id);
  }
}
