/** Runs of writes, deletes and compactions on a record base. */
module BaseRuns {
  import opened BaseIndex
  import opened BaseStore
  import opened BaseReads
  import opened BaseOptimize
  import opened BaseSurvivors

  /** One call; Compact says whether DpsBaseOptimize's fragmentation test passed. */
  datatype Op = WriteOp(id: nat, r: Record) | DeleteOp(id: nat) | OptimizeOp(compact: bool)

  predicate ValidOp(op: Op) {
    op.OptimizeOp? || op.id != 0
  }

  predicate ValidOps(ops: seq<Op>) {
    forall i | 0 <= i < |ops| :: ValidOp(ops[i])
  }

  function Apply(st: Files, op: Op): Files
    requires Shape(st.index) && ExtentsOk(st) && ValidOp(op)
  {
    match op
    case WriteOp(id, r) => Write(st, id, r)
    case DeleteOp(id) => Delete(st, id)
    case OptimizeOp(compact) => if compact then Optimize(st) else st
  }

  const NewFiles := Files(EmptyIndex(), [])

  lemma ApplyKeepsInvariant(st: Files, op: Op)
    requires Invariant(st) && ValidOp(op)
    ensures Invariant(Apply(st, op))
  {
    match op
    case WriteOp(id, r) => WriteKeepsExtents(st, id, r);
    case DeleteOp(id) => DeleteKeepsInvariant(st, id);
    case OptimizeOp(compact) => OptimizeExtents(st);
  }

  function RunFrom(start: Files, ops: seq<Op>): (st: Files)
    requires Invariant(start) && ValidOps(ops)
    ensures Invariant(st)
  {
    if ops == [] then start
    else
      var st := RunFrom(start, ops[..|ops| - 1]);
      var op := ops[|ops| - 1];
      assert Invariant(Apply(st, op)) by { ApplyKeepsInvariant(st, op); }
      Apply(st, op)
  }

  function Run(ops: seq<Op>): (st: Files)
    requires ValidOps(ops)
    ensures Invariant(st)
  {
    assert Invariant(NewFiles) by { EmptyIsSearchable(); }
    RunFrom(NewFiles, ops)
  }

  /** In every reachable state links go strictly forward without sharing, chained live ids hash to
      their head slot, and live extents are inside the file and disjoint; the search therefore
      ends at an item of the index. */
  lemma ReachableStates(ops: seq<Op>, id: nat)
    requires ValidOps(ops)
    ensures var st := Run(ops);
      && Shape(st.index) && ExtentsOk(st)
      && Find(st.index, id) < |st.index|
      && exists buckets :: Bucketed(st.index, buckets) && buckets[Find(st.index, id)] == Hash(id)
  {
    var st := Run(ops);
    var buckets :| Bucketed(st.index, buckets);
    FindStaysInBucket(st.index, buckets, id);
  }

  // ---------- runs that never hide a record ----------

  /** No delete of the run removes a head slot with live records behind it. */
  ghost predicate NeverHides(ops: seq<Op>)
    requires ValidOps(ops)
  {
    forall i | 0 <= i < |ops| && ops[i].DeleteOp? ::
      ValidOp(ops[i]) && ValidOps(ops[..i]) && !HidesTail(Run(ops[..i]), ops[i].id)
  }

  /** The map the run should have built. A lone non-empty record and empty records do not survive
      a compaction. */
  ghost function MapOf(ops: seq<Op>): map<nat, Record>
    requires ValidOps(ops)
  {
    if ops == [] then map[]
    else
      var m := MapOf(ops[..|ops| - 1]);
      match ops[|ops| - 1]
      case WriteOp(id, r) => m[id := r]
      case DeleteOp(id) => m - {id}
      case OptimizeOp(compact) => if compact then Survivors(m) else m
  }

  ghost predicate NonEmptyIn(m: map<nat, Record>, id: nat) {
    id in m && m[id].bytes != []
  }

  ghost function Survivors(m: map<nat, Record>): map<nat, Record> {
    map id | id in m && NonEmptyIn(m, id) && (exists other :: other != id && NonEmptyIn(m, other)) :: m[id]
  }

  ghost predicate Represents(st: Files, m: map<nat, Record>) {
    && Valid(st) && HeadOk(st.index) && 0 !in m
    && ReadsAgree(st, m)
  }

  /** Every read answers from the map. */
  ghost predicate ReadsAgree(st: Files, m: map<nat, Record>)
    requires Invariant(st)
  {
    forall id | id != 0 :: Lookup(st, id) == if id in m then Some(m[id]) else None
  }

  /** Over every run that never hides a record, reads agree with the map at every point. */
  lemma {:induction false} RunRefinesMap(ops: seq<Op>)
    requires ValidOps(ops) && NeverHides(ops)
    ensures Represents(Run(ops), MapOf(ops))
  {
    if ops == [] {
      EmptyRepresents();
    } else {
      var init, op := ops[..|ops| - 1], ops[|ops| - 1];
      assert ValidOp(op) && ValidOps(init);
      InitNeverHides(ops);
      RunRefinesMap(init);
      assert op.DeleteOp? ==> !HidesTail(Run(init), op.id);
      hide Represents, NeverHides, HidesTail, Survivors;
      match op
      case WriteOp(id, r) => WriteRepresents(Run(init), MapOf(init), id, r);
      case DeleteOp(id) => DeleteRepresents(Run(init), MapOf(init), id);
      case OptimizeOp(compact) =>
        if compact {
          OptimizeRepresents(Run(init), MapOf(init));
        }
    }
  }

  /** Reads answer from the map at every point of the run. */
  ghost predicate AgreesThroughout(ops: seq<Op>)
    requires ValidOps(ops)
  {
    forall k | 0 <= k <= |ops| :: ValidOps(ops[..k]) && ReadsAgree(Run(ops[..k]), MapOf(ops[..k]))
  }

  /** A run behaves as the map, exactly: reads agree at every point if and only if no delete of the
      run removes a head with another id's record behind it. */
  lemma RunIsMapExactly(ops: seq<Op>)
    requires ValidOps(ops)
    ensures AgreesThroughout(ops) <==> NeverHides(ops)
  {
    if NeverHides(ops) {
      NeverHidesAgrees(ops);
    }
    if AgreesThroughout(ops) {
      AgreesNeverHides(ops);
    }
  }

  lemma NeverHidesAgrees(ops: seq<Op>)
    requires ValidOps(ops) && NeverHides(ops)
    ensures AgreesThroughout(ops)
  {
    forall k | 0 <= k <= |ops| ensures ValidOps(ops[..k]) && ReadsAgree(Run(ops[..k]), MapOf(ops[..k])) {
      PrefixNeverHides(ops, k);
      RunRefinesMap(ops[..k]);
    }
  }

  lemma {:induction false} AgreesNeverHides(ops: seq<Op>)
    requires ValidOps(ops) && AgreesThroughout(ops)
    ensures NeverHides(ops)
    decreases |ops|
  {
    if ops != [] {
      var n := |ops| - 1;
      InitAgrees(ops);
      AgreesNeverHides(ops[..n]);
      RunRefinesMap(ops[..n]);
      assert ops[..n + 1] == ops;
      assert ReadsAgree(Run(ops), MapOf(ops));
      hide NeverHides, HidesTail, Represents, AgreesThroughout, ReadsAgree, Run, MapOf, ValidOps;
      LastAgrees(ops);
      LastNeverHides(ops);
    }
  }

  lemma LastAgrees(ops: seq<Op>)
    requires ops != [] && ValidOps(ops) && ValidOps(ops[..|ops| - 1]) && ReadsAgree(Run(ops), MapOf(ops))
    requires Represents(Run(ops[..|ops| - 1]), MapOf(ops[..|ops| - 1]))
    ensures var op := ops[|ops| - 1]; op.DeleteOp? ==> op.id != 0 && !HidesTail(Run(ops[..|ops| - 1]), op.id)
  {
    var n := |ops| - 1;
    assert ops[..n + 1] == ops && ValidOp(ops[n]);
    RunStep(ops, n);
    hide Represents, ReadsAgree, HidesTail, Run, Delete, ValidOps;
    if ops[n].DeleteOp? && HidesTail(Run(ops[..n]), ops[n].id) {
      HidingDisagrees(Run(ops[..n]), MapOf(ops[..n]), ops[n].id);
    }
  }

  lemma HidingDisagrees(st: Files, m: map<nat, Record>, id: nat)
    requires Represents(st, m) && id != 0 && HidesTail(st, id)
    ensures Invariant(Delete(st, id)) && !ReadsAgree(Delete(st, id), m - {id})
  {
    hide Lookup, Chained, Delete, HidesTail;
    var id' := HiddenByDelete(st, id);
    assert id' in m - {id};
  }

  /** A delete that hides a tail loses some other id's read. */
  lemma HiddenByDelete(st: Files, id: nat) returns (id': nat)
    requires Invariant(st) && id != 0 && HidesTail(st, id)
    ensures id' != 0 && id' != id && Invariant(Delete(st, id))
    ensures Lookup(st, id') != None && Lookup(Delete(st, id), id') == None
  {
    hide Lookup, Chained, Delete;
    id' :| id' != 0 && id' != id && Hash(id') == Hash(id) && Chained(st, id').Some?;
    LookupIsChained(st, id');
    ReadsAfterDelete(st, id, id');
  }

  lemma LastNeverHides(ops: seq<Op>)
    requires ops != [] && ValidOps(ops) && ValidOps(ops[..|ops| - 1]) && NeverHides(ops[..|ops| - 1])
    requires var op := ops[|ops| - 1]; op.DeleteOp? ==> op.id != 0 && !HidesTail(Run(ops[..|ops| - 1]), op.id)
    ensures NeverHides(ops)
  {
    var init := ops[..|ops| - 1];
    hide HidesTail, Run;
    forall i | 0 <= i < |ops| && ops[i].DeleteOp?
      ensures ValidOp(ops[i]) && ValidOps(ops[..i]) && !HidesTail(Run(ops[..i]), ops[i].id)
    {
      if i < |init| {
        assert init[..i] == ops[..i] && init[i] == ops[i];
      }
    }
  }

  lemma InitAgrees(ops: seq<Op>)
    requires ops != [] && ValidOps(ops) && AgreesThroughout(ops)
    ensures ValidOps(ops[..|ops| - 1]) && AgreesThroughout(ops[..|ops| - 1])
  {
    var init := ops[..|ops| - 1];
    hide ReadsAgree, Run, MapOf, ValidOp;
    forall k | 0 <= k <= |init| ensures ValidOps(init[..k]) && ReadsAgree(Run(init[..k]), MapOf(init[..k])) {
      assert init[..k] == ops[..k];
    }
  }

  lemma {:induction false} PrefixNeverHides(ops: seq<Op>, k: nat)
    requires ValidOps(ops) && NeverHides(ops) && k <= |ops|
    ensures ValidOps(ops[..k]) && NeverHides(ops[..k])
    decreases |ops|
  {
    if k == |ops| {
      assert ops[..k] == ops;
    } else {
      InitNeverHides(ops);
      assert ops[..|ops| - 1][..k] == ops[..k];
      PrefixNeverHides(ops[..|ops| - 1], k);
    }
  }

  lemma InitNeverHides(ops: seq<Op>)
    requires ops != [] && ValidOps(ops) && NeverHides(ops)
    ensures ValidOps(ops[..|ops| - 1]) && NeverHides(ops[..|ops| - 1])
  {
    var init := ops[..|ops| - 1];
    hide HidesTail, Run;
    forall i | 0 <= i < |init| && init[i].DeleteOp?
      ensures ValidOp(init[i]) && ValidOps(init[..i]) && !HidesTail(Run(init[..i]), init[i].id)
    {
      assert init[..i] == ops[..i] && init[i] == ops[i];
    }
  }

  lemma EmptyRepresents()
    ensures Represents(NewFiles, map[])
  {
    EmptyIsSearchable();
  }

  lemma HeadOkBringsNothing(st: Files, id: nat)
    requires Valid(st) && HeadOk(st.index)
    ensures !BringsBack(st, id)
  {
    forall id' | id' != 0 && id' != id && Hash(id') == Hash(id) && Chained(st, id').Some?
      ensures Live(st.index, Hash(id))
    {
      var p := ChainedIsLive(st, id');
      assert Live(st.index, Hash(st.index[p].id));
    }
  }

  lemma WriteRepresents(st: Files, m: map<nat, Record>, id: nat, r: Record)
    requires Represents(st, m) && id != 0
    ensures Represents(Write(st, id, r), m[id := r])
  {
    WriteIsMapUpdate(st, id, r);
    WriteKeepsValid(st, id, r);
    HeadOkBringsNothing(st, id);
    hide Write, Lookup, Searchable, HeadOk, ExtentsOk, BringsBack, Shape, WellFormed;
  }

  lemma DeleteRepresents(st: Files, m: map<nat, Record>, id: nat)
    requires Represents(st, m) && id != 0 && !HidesTail(st, id)
    ensures Represents(Delete(st, id), m - {id})
  {
    DeleteExact(st, id);
    DeleteKeepsValid(st, id);
    hide Delete, Lookup, Searchable, HeadOk, ExtentsOk, HidesTail, WellFormed, Shape, ChainedTwice;
    forall id' | id' != 0
      ensures Lookup(Delete(st, id), id') == if id' in m - {id} then Some((m - {id})[id']) else None
    {
      if id' != id {
        assert Lookup(Delete(st, id), id') == Lookup(st, id');
      }
    }
  }

  lemma OptimizeRepresents(st: Files, m: map<nat, Record>)
    requires Represents(st, m)
    ensures Represents(Optimize(st), Survivors(m))
  {
    OptimizeValid(st);
    var st' := Optimize(st);
    forall id | id != 0 ensures Lookup(st', id) == if id in Survivors(m) then Some(Survivors(m)[id]) else None {
      SurvivorLookup(st, m, id);
    }
  }

  /** A live record is in the map, and a record of the map is live. */
  lemma LiveInMap(st: Files, m: map<nat, Record>, p: nat)
    requires Represents(st, m) && Live(st.index, p)
    ensures st.index[p].id in m && m[st.index[p].id] == RecordAt(st, p)
  {
    LookupIsLiveRecord(st, st.index[p].id);
    hide Lookup;
  }

  lemma MapIsLive(st: Files, m: map<nat, Record>, id: nat) returns (p: nat)
    requires Represents(st, m) && id != 0 && id in m
    ensures Live(st.index, p) && st.index[p].id == id && m[id] == RecordAt(st, p)
  {
    p := Find(st.index, id);
  }

  lemma SurvivorLookup(st: Files, m: map<nat, Record>, id: nat)
    requires Represents(st, m) && id != 0
    ensures var st' := Optimize(st);
      ExtentsOk(st') && Shape(st'.index)
      && Lookup(st', id) == if id in Survivors(m) then Some(Survivors(m)[id]) else None
  {
    OptimizeValid(st);
    hide Optimize, KeptAt, Represents, Lookup, Searchable, Survivors, NonEmptyIn, ExtentsOk, RecordAt;
    if p: nat :| KeptAt(st, p) && st.index[p].id == id {
      KeptSurvives(st, m, p);
    } else {
      GoneDoesNotSurvive(st, m, id);
    }
  }

  lemma KeptSurvives(st: Files, m: map<nat, Record>, p: nat)
    requires Represents(st, m) && KeptAt(st, p)
    ensures Live(st.index, p)
    ensures var id := st.index[p].id; id in Survivors(m) && Survivors(m)[id] == RecordAt(st, p)
  {
    KeptUnlessAlone(st, p);
    hide KeptAt, Represents, RecordAt;
    var q: nat :| q != p && NonEmpty(st, q);
    LiveNonEmpty(st, m, p);
    LiveNonEmpty(st, m, q);
    SameIdOnce(st, m, p, q);
  }

  lemma LiveNonEmpty(st: Files, m: map<nat, Record>, p: nat)
    requires Represents(st, m) && Live(st.index, p)
    ensures NonEmpty(st, p) <==> NonEmptyIn(m, st.index[p].id)
    ensures st.index[p].id in m && m[st.index[p].id] == RecordAt(st, p)
  {
    LiveInMap(st, m, p);
  }

  lemma GoneDoesNotSurvive(st: Files, m: map<nat, Record>, id: nat)
    requires Represents(st, m) && id != 0 && forall p: nat | KeptAt(st, p) :: st.index[p].id != id
    ensures id !in Survivors(m)
  {
    hide KeptAt, Represents;
    if id in Survivors(m) {
      var other :| other != id && NonEmptyIn(m, other);
      NoZeroKey(st, m);
      var p := MapIsLive(st, m, id);
      var q := MapIsLive(st, m, other);
      LiveNonEmpty(st, m, p);
      LiveNonEmpty(st, m, q);
      KeptUnlessAlone(st, p);
    }
  }

  lemma NoZeroKey(st: Files, m: map<nat, Record>)
    requires Represents(st, m)
    ensures 0 !in m && ExtentsOk(st)
  {
  }

  lemma SameIdOnce(st: Files, m: map<nat, Record>, p: nat, q: nat)
    requires Represents(st, m) && Live(st.index, p) && Live(st.index, q) && p != q
    ensures st.index[p].id != st.index[q].id
  {
    assert DistinctIds(st.index);
  }

  // ---------- after a delete that hides records ----------

  /** In every reachable state, writing any id into a free head slot brings back the first record of
      every other id chained behind it, and changes no other bucket's reads. In a valid state those
      are all other live records of the bucket. */
  lemma WriteBringsBack(st: Files, id: nat, r: Record)
    requires Invariant(st) && id != 0 && !Live(st.index, Hash(id))
    ensures var st' := Write(st, id, r);
      && Invariant(st') && Lookup(st', id) == Some(r)
      && (forall id' | id' != 0 && id' != id ::
            Lookup(st', id') == if Hash(id') == Hash(id) then Chained(st, id') else Lookup(st, id'))
      && (Valid(st) ==>
            forall p: nat | Live(st.index, p) && Hash(st.index[p].id) == Hash(id) && st.index[p].id != id ::
              Lookup(st', st.index[p].id) == Some(RecordAt(st, p)))
  {
    ReadsAfterWrite(st, id, r, id);
    var st' := Write(st, id, r);
    hide Write, Lookup, RecordAt, Chained, Searchable, WellFormed;
    forall id' | id' != 0 && id' != id
      ensures Lookup(st', id') == if Hash(id') == Hash(id) then Chained(st, id') else Lookup(st, id')
    {
      ReadsAfterWrite(st, id, r, id');
    }
    if Valid(st) {
      forall p: nat | Live(st.index, p) && Hash(st.index[p].id) == Hash(id) && st.index[p].id != id
        ensures Lookup(st', st.index[p].id) == Some(RecordAt(st, p))
      {
        ChainsHoldLive(st, p);
      }
    }
  }

  // ---------- when every state of a run is valid ----------

  /** No write of the run rewrites a hidden record. */
  ghost predicate NeverRewritesHidden(ops: seq<Op>)
    requires ValidOps(ops)
  {
    forall i | 0 <= i < |ops| && ops[i].WriteOp? :: ValidOps(ops[..i]) && !Hidden(Run(ops[..i]).index, ops[i].id)
  }

  ghost predicate ValidThroughout(ops: seq<Op>)
    requires ValidOps(ops)
  {
    forall k | 0 <= k <= |ops| :: ValidOps(ops[..k]) && Valid(Run(ops[..k]))
  }

  /** Apart from rewriting a hidden record, every operation keeps a valid state valid. */
  lemma ApplyKeepsValid(st: Files, op: Op)
    requires Valid(st) && ValidOp(op)
    ensures Invariant(Apply(st, op))
    ensures Valid(Apply(st, op)) <==> !(op.WriteOp? && Hidden(st.index, op.id))
  {
    ApplyKeepsInvariant(st, op);
    match op
    case WriteOp(id, r) => WriteKeepsValid(st, id, r);
    case DeleteOp(id) => DeleteKeepsValid(st, id);
    case OptimizeOp(compact) => OptimizeValid(st);
  }

  /** Every state of a run is valid, so that no id is stored twice, if and only if the run never
      rewrites a hidden record. */
  lemma {:induction false} RunIsValidExactly(ops: seq<Op>)
    requires ValidOps(ops)
    ensures ValidThroughout(ops) <==> NeverRewritesHidden(ops)
    decreases |ops|
  {
    if ops == [] {
      assert Valid(Run(ops[..0])) by { assert ops[..0] == []; EmptyIsSearchable(); }
    } else {
      var n := |ops| - 1;
      assert ops[..n + 1] == ops;
      RunIsValidExactly(ops[..n]);
      RunStep(ops, n);
      ThroughoutStep(ops);
      NeverRewritesStep(ops);
      hide ValidThroughout, NeverRewritesHidden, Run, Apply, Valid, Hidden;
      if ValidThroughout(ops[..n]) {
        ThroughoutEnd(ops[..n]);
        ApplyKeepsValid(Run(ops[..n]), ops[n]);
      }
    }
  }

  lemma ThroughoutEnd(ops: seq<Op>)
    requires ValidOps(ops) && ValidThroughout(ops)
    ensures Valid(Run(ops))
  {
    assert ops[..|ops|] == ops;
  }

  lemma ThroughoutStep(ops: seq<Op>)
    requires ValidOps(ops) && ops != [] && ValidOps(ops[..|ops| - 1])
    ensures ValidThroughout(ops) <==> ValidThroughout(ops[..|ops| - 1]) && Valid(Run(ops))
  {
    var n := |ops| - 1;
    hide Valid, Run, ValidOps;
    forall k: nat | k <= n ensures ops[..n][..k] == ops[..k] { }
    assert ops[..n + 1] == ops;
    if ValidThroughout(ops) {
      forall k | 0 <= k <= n ensures ValidOps(ops[..n][..k]) && Valid(Run(ops[..n][..k])) {
        assert ops[..n][..k] == ops[..k];
      }
    }
    if ValidThroughout(ops[..n]) && Valid(Run(ops)) {
      forall k | 0 <= k <= n + 1 ensures ValidOps(ops[..k]) && Valid(Run(ops[..k])) {
        if k <= n {
          assert ops[..n][..k] == ops[..k];
        }
      }
    }
  }

  lemma NeverRewritesStep(ops: seq<Op>)
    requires ValidOps(ops) && ops != [] && ValidOps(ops[..|ops| - 1])
    ensures var init, op := ops[..|ops| - 1], ops[|ops| - 1];
      NeverRewritesHidden(ops) <==> NeverRewritesHidden(init) && !(op.WriteOp? && Hidden(Run(init).index, op.id))
  {
    var n := |ops| - 1;
    var init := ops[..n];
    hide Hidden, Run, ValidOps;
    if NeverRewritesHidden(ops) {
      forall i | 0 <= i < n && init[i].WriteOp?
        ensures ValidOps(init[..i]) && !Hidden(Run(init[..i]).index, init[i].id)
      {
        assert init[..i] == ops[..i] && init[i] == ops[i];
      }
    }
    if NeverRewritesHidden(init) && !(ops[n].WriteOp? && Hidden(Run(init).index, ops[n].id)) {
      forall i | 0 <= i <= n && ops[i].WriteOp?
        ensures ValidOps(ops[..i]) && !Hidden(Run(ops[..i]).index, ops[i].id)
      {
        if i < n {
          assert init[..i] == ops[..i] && init[i] == ops[i];
        }
      }
    }
  }

  // ---------- ids that are not stored ----------

  ghost predicate NoLive(st: Files, id: nat) {
    forall p: nat | Live(st.index, p) :: st.index[p].id != id
  }

  predicate NeverWrites(ops: seq<Op>, id: nat) {
    forall i | 0 <= i < |ops| && ops[i].WriteOp? :: ops[i].id != id
  }

  lemma ApplyKeepsNoLive(st: Files, op: Op, id: nat)
    requires Invariant(st) && ValidOp(op) && id != 0 && NoLive(st, id) && !(op.WriteOp? && op.id == id)
    ensures NoLive(Apply(st, op), id)
  {
    match op
    case WriteOp(w, r) =>
      StoreChangesOneSlot(st.index, Item(w, WriteOffset(st, w, |r.bytes|), 0, |r.bytes|, r.origSize));
      hide Store, StoredAt;
      forall p: nat | Live(Write(st, w, r).index, p) ensures Write(st, w, r).index[p].id != id {
        assert p < |st.index| && st.index[p].id != 0 ==> Live(st.index, p);
      }
    case DeleteOp(d) =>
      DeleteKeepsInvariant(st, d);
      forall p: nat | Live(Delete(st, d).index, p) ensures Delete(st, d).index[p].id != id {
        assert Live(st.index, p);
      }
    case OptimizeOp(compact) =>
      if compact {
        OptimizeKeepsNoLive(st, id);
      }
  }

  lemma OptimizeKeepsNoLive(st: Files, id: nat)
    requires ExtentsOk(st) && id != 0 && NoLive(st, id)
    ensures NoLive(Optimize(st), id)
  {
    var recs := Records(st);
    PackedDifferent(st);
    RecordsMembers(st);
    var from := RebuildDraws(Packed(recs));
    hide Records, Packed, Rebuild, ActualSize;
    var st' := Optimize(st);
    forall q: nat | Live(st'.index, q) ensures st'.index[q].id != id {
      var i := from[q];
      assert KeptItem(st, recs[i]);
      var p: nat :| KeptAt(st, p) && st.index[p] == recs[i];
      assert Live(st.index, p);
    }
  }

  lemma NoLiveNotFound(st: Files, id: nat)
    requires Invariant(st) && id != 0 && NoLive(st, id)
    ensures Lookup(st, id) == None
  {
    assert st.index[Find(st.index, id)].id == id ==> Live(st.index, Find(st.index, id));
  }

  lemma {:induction false} RunKeepsNoLive(st: Files, ops: seq<Op>, id: nat)
    requires Invariant(st) && ValidOps(ops) && NeverWrites(ops, id) && id != 0 && NoLive(st, id)
    ensures NoLive(RunFrom(st, ops), id)
  {
    if ops != [] {
      RunKeepsNoLive(st, ops[..|ops| - 1], id);
      ApplyKeepsNoLive(RunFrom(st, ops[..|ops| - 1]), ops[|ops| - 1], id);
    }
  }

  /** An id that is never written is never stored. */
  lemma NeverWrittenAbsent(ops: seq<Op>, id: nat)
    requires ValidOps(ops) && NeverWrites(ops, id) && id != 0
    ensures NoLive(Run(ops), id)
  {
    EmptyIsSearchable();
    assert NoLive(NewFiles, id);
    hide EmptyIndex, RunFrom, NoLive;
    RunKeepsNoLive(NewFiles, ops, id);
  }

  lemma RunStep(ops: seq<Op>, i: nat)
    requires ValidOps(ops) && i < |ops|
    ensures Run(ops[..i + 1]) == Apply(Run(ops[..i]), ops[i])
  {
    assert ops[..i + 1][..i] == ops[..i];
  }
}
