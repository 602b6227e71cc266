/** Three short runs of a record base that lose or return a record. */
module BaseLosses {
  import opened BaseIndex
  import opened BaseStore
  import opened BaseOptimize
  import opened BaseSurvivors
  import opened BaseRuns
  import opened BaseDeleted

  // ---------- a deleted record returns ----------

  /** Two ids of one bucket: write both, delete the head, rewrite and delete the hidden one, and
      write the head again. */
  function HidingRun(r: Record): seq<Op> {
    [WriteOp(1, r), WriteOp(4094, r), DeleteOp(1), WriteOp(4094, r), DeleteOp(4094), WriteOp(1, r)]
  }

  /** The record deleted last is found again, with its first contents. When it was deleted it was
      found in its own head slot, so it was not hidden, but it was stored twice. */
  lemma DeletedRecordReturns(r: Record)
    requires r.bytes != []
    ensures ValidOps(HidingRun(r)) && 4094 !in MapOf(HidingRun(r))
    ensures var st := Run(HidingRun(r)[..4]);
      Lookup(st, 4094) != None && !Hidden(st.index, 4094) && !OnlyFound(st, 4094)
    ensures Lookup(Run(HidingRun(r)), 4094) == Some(r)
  {
    HidingStates(r);
    HidingMap(r);
    hide Run, MapOf, BehindHead, Lookup, Hidden, OnlyFound, HidingRun;
    TwoCopies(Run(HidingRun(r)[..4]), r);
    SecondCopyFound(Run(HidingRun(r)), r);
  }

  lemma SecondCopyFound(st: Files, r: Record)
    requires BehindHead(st, r, 1)
    ensures Shape(st.index) && ExtentsOk(st) && Lookup(st, 4094) == Some(r)
  {
    assert Find(st.index, 4094) == 4093;
  }

  lemma HidingMap(r: Record)
    ensures ValidOps(HidingRun(r)) && 4094 !in MapOf(HidingRun(r))
  {
    var ops := HidingRun(r);
    assert ops[..6] == ops && ops[..6][..5] == ops[..5] && ops[..5][..4] == ops[..4];
    assert MapOf(ops) == MapOf(ops[..5])[1 := r];
    assert MapOf(ops[..5]) == MapOf(ops[..4]) - {4094};
  }

  /** Id 4094's record behind the free or taken head slot 1. */
  ghost predicate BehindHead(st: Files, r: Record, head: nat) {
    var n := |r.bytes|;
    && Shape(st.index) && ExtentsOk(st)
    && |st.index| == 4094 && st.index[1].id == head && st.index[1].next == 4093
    && st.index[4093] == Item(4094, n, 0, n, r.origSize)
    && 2 * n <= |st.data| && Extent(st.data, n, n) == r.bytes
  }

  lemma TwoCopies(st: Files, r: Record)
    requires BehindHead(st, r, 4094)
    ensures Lookup(st, 4094) != None && !Hidden(st.index, 4094) && !OnlyFound(st, 4094)
  {
    assert Live(st.index, 4093) && st.index[4093].id == 4094 && Find(st.index, 4094) == 1;
  }

  lemma HidingStates(r: Record)
    requires r.bytes != []
    ensures BehindHead(Run(HidingRun(r)[..4]), r, 4094)
    ensures BehindHead(Run(HidingRun(r)), r, 1)
  {
    hide Run, Write, Delete, Optimize, BehindHead, ExtentsOk, WellFormed, EmptyIndex;
    var ops := HidingRun(r);
    RunStep(ops, 0); RunStep(ops, 1); RunStep(ops, 2); RunStep(ops, 3); RunStep(ops, 4); RunStep(ops, 5);
    assert ops[..0] == [] && ops[..6] == ops;
    assert Run([]) == NewFiles by { RunNothing(); }
    FirstTwoWrites(r);
    TakeHead(Run(ops[..2]), r, 1, 0);
    TakeHead(Run(ops[..3]), r, 0, 4094);
    TakeHead(Run(ops[..4]), r, 4094, 0);
    TakeHead(Run(ops[..5]), r, 0, 1);
  }

  lemma RunNothing()
    ensures Run([]) == NewFiles
  {
  }

  lemma FirstTwoWrites(r: Record)
    ensures Shape(NewFiles.index) && ExtentsOk(NewFiles)
    ensures var st := Write(NewFiles, 1, r);
      Shape(st.index) && ExtentsOk(st) && BehindHead(Write(st, 4094, r), r, 1)
  {
    EmptyIsSearchable();
    WriteKeepsExtents(NewFiles, 1, r);
    WriteFreeHead(NewFiles, 1, r);
    var st := Write(NewFiles, 1, r);
    WriteKeepsExtents(st, 4094, r);
    hide Write;
    WriteBehindHead(st, 4094, r);
  }

  /** Deleting the head record, or writing one of the two ids into the free head slot. */
  lemma TakeHead(st: Files, r: Record, head: nat, head': nat)
    requires BehindHead(st, r, head) && Invariant(st)
    requires (head == 0 && (head' == 1 || head' == 4094)) || (head' == 0 && (head == 1 || head == 4094))
    ensures BehindHead(if head == 0 then Write(st, head', r) else Delete(st, head), r, head')
  {
    if head == 0 {
      WriteKeepsExtents(st, head', r);
      hide Write;
      WriteFreeHead(st, head', r);
    } else {
      DeleteKeepsInvariant(st, head);
      hide Delete;
      DeleteHead(st, head);
    }
  }

  lemma WriteFreeHead(st: Files, id: nat, r: Record)
    requires Shape(st.index) && ExtentsOk(st) && id != 0 && !Live(st.index, Hash(id))
    ensures var h := Hash(id);
      Write(st, id, r) == Files(st.index[h := Item(id, |st.data|, st.index[h].next, |r.bytes|, r.origSize)],
                                st.data + r.bytes)
  {
  }

  lemma WriteBehindHead(st: Files, id: nat, r: Record)
    requires Shape(st.index) && ExtentsOk(st) && id != 0 && Live(st.index, Hash(id))
    requires st.index[Hash(id)].id != id && st.index[Hash(id)].next == 0
    ensures Write(st, id, r) == Files(Append(st.index, Hash(id), Item(id, |st.data|, 0, |r.bytes|, r.origSize)),
                                      st.data + r.bytes)
  {
  }

  lemma DeleteHead(st: Files, id: nat)
    requires Shape(st.index) && id != 0 && st.index[Hash(id)].id == id
    ensures Delete(st, id) == Files(st.index[Hash(id) := st.index[Hash(id)].(id := 0)], st.data)
  {
  }

  // ---------- a repeated record cuts another one off ----------

  /** Three ids of one bucket: write all, delete the head, rewrite the first hidden one, compact. */
  function RepeatingRun(r: Record): seq<Op> {
    [WriteOp(1, r), WriteOp(4094, r), WriteOp(8187, r), DeleteOp(1), WriteOp(4094, r), OptimizeOp(true)]
  }

  function ItemAt(r: Record, id: nat, k: nat, next: nat): Item {
    Item(id, k * |r.bytes|, next, |r.bytes|, r.origSize)
  }

  /** The bucket's three slots, and nothing else live. */
  function ThreeSlots(head: Item, second: Item, third: Item): Index {
    EmptyIndex()[1 := head] + [second, third]
  }

  lemma WriteAtEnd(st: Files, id: nat, r: Record, c: nat)
    requires Shape(st.index) && ExtentsOk(st) && id != 0 && Mishash(st.index, id) && c == Find(st.index, id)
    requires st.index[c].id != id && st.index[c].id != 0
    ensures Write(st, id, r) == Files(Append(st.index, c, Item(id, |st.data|, 0, |r.bytes|, r.origSize)),
                                      st.data + r.bytes)
  {
  }

  /** After the first three writes. */
  lemma ThreeWrites(r: Record)
    ensures Run(RepeatingRun(r)[..3]).index
         == ThreeSlots(ItemAt(r, 1, 0, 4093), ItemAt(r, 4094, 1, 4094), ItemAt(r, 8187, 2, 0))
    ensures Run(RepeatingRun(r)[..3]).data == r.bytes + r.bytes + r.bytes
  {
    hide Run, Write, Find, Walk, WellFormed, ExtentsOk;
    var ops := RepeatingRun(r);
    var st0, st1, st2 := Run(ops[..0]), Run(ops[..1]), Run(ops[..2]);
    RunStep(ops, 0);
    RunStep(ops, 1);
    RunStep(ops, 2);
    assert ops[..0] == [];
    RunNothing();
    WriteFreeHead(st0, 1, r);
    assert st1.index == EmptyIndex()[1 := ItemAt(r, 1, 0, 0)] && st1.data == r.bytes;
    WriteBehindHead(st1, 4094, r);
    assert st2.index == EmptyIndex()[1 := ItemAt(r, 1, 0, 4093)] + [ItemAt(r, 4094, 1, 0)];
    assert Find(st2.index, 8187) == 4093 by { SecondSlot(st2.index, 8187); }
    WriteAtEnd(st2, 8187, r, 4093);
  }

  lemma SecondSlot(ix: Index, id: nat)
    requires Shape(ix) && |ix| == 4094 && Hash(id) == 1 && ix[1].id != 0 && ix[1].id != id
    requires ix[1].next == 4093 && ix[4093].next == 0
    ensures Find(ix, id) == 4093
  {
  }

  /** Before the compaction: two live records of id 4094, around the one of id 8187. */
  lemma RepeatedState(r: Record)
    ensures ValidOps(RepeatingRun(r)[..5])
    ensures Run(RepeatingRun(r)[..5]).index
         == ThreeSlots(ItemAt(r, 4094, 3, 4093), ItemAt(r, 4094, 1, 4094), ItemAt(r, 8187, 2, 0))
    ensures Run(RepeatingRun(r)[..5]).data == r.bytes + r.bytes + r.bytes + r.bytes
  {
    ThreeWrites(r);
    hide Run, Write, Delete, ExtentsOk, EmptyIndex;
    var ops := RepeatingRun(r);
    RunStep(ops, 3);
    RunStep(ops, 4);
    DeleteHead(Run(ops[..3]), 1);
    WriteFreeHead(Run(ops[..4]), 4094, r);
  }

  ghost predicate OffsetsAscend(recs: seq<Item>) {
    forall i, j | 0 <= i < j < |recs| :: recs[i].offset < recs[j].offset
  }

  ghost predicate SameMembers(a: seq<Item>, b: seq<Item>) {
    forall x :: x in a <==> x in b
  }

  lemma SomeMember(a: seq<Item>)
    ensures a == [] || exists x :: x in a
  {
    assert a == [] || a[0] in a;
  }

  /** Records in strict offset order are determined by what they are. */
  lemma {:induction false} StrictOrderUnique(a: seq<Item>, b: seq<Item>)
    requires OffsetsAscend(a) && OffsetsAscend(b) && SameMembers(a, b)
    ensures a == b
    decreases |a|
  {
    if a == [] || b == [] {
      SomeMember(a);
      SomeMember(b);
    } else {
      var x, y := a[|a| - 1], b[|b| - 1];
      assert x in b && y in a;
      assert x == y;
      var a', b' := a[..|a| - 1], b[..|b| - 1];
      forall z ensures z in a' <==> z in b' {
        assert z in a' <==> z in a && z != x;
        assert z in b' <==> z in b && z != y;
      }
      StrictOrderUnique(a', b');
    }
  }

  function ThreeRecords(r: Record): seq<Item> {
    [ItemAt(r, 4094, 1, 4094), ItemAt(r, 8187, 2, 0), ItemAt(r, 4094, 3, 4093)]
  }

  lemma ThreeKept(st: Files, r: Record)
    requires r.bytes != [] && ExtentsOk(st)
    requires st.index == ThreeSlots(ItemAt(r, 4094, 3, 4093), ItemAt(r, 4094, 1, 4094), ItemAt(r, 8187, 2, 0))
    ensures forall p: nat :: KeptAt(st, p) <==> p == 1 || p == 4093 || p == 4094
    ensures st.index[1] == ThreeRecords(r)[2] && st.index[4093] == ThreeRecords(r)[0]
    ensures st.index[4094] == ThreeRecords(r)[1]
  {
    forall p: nat ensures NonEmpty(st, p) <==> p == 1 || p == 4093 || p == 4094 { }
    hide NonEmpty, KeptAt, ExtentsOk;
    forall p: nat ensures KeptAt(st, p) <==> p == 1 || p == 4093 || p == 4094 {
      KeptUnlessAlone(st, p);
      assert NonEmpty(st, 1) && NonEmpty(st, 4093);
    }
  }

  lemma ThreeMembers(st: Files, r: Record)
    requires forall p: nat :: KeptAt(st, p) <==> p == 1 || p == 4093 || p == 4094
    requires |st.index| == 4095 && st.index[1] == ThreeRecords(r)[2]
    requires st.index[4093] == ThreeRecords(r)[0] && st.index[4094] == ThreeRecords(r)[1]
    ensures SameMembers(Records(st), ThreeRecords(r))
  {
    RecordsMembers(st);
    hide Records, KeptAt;
    forall x ensures x in Records(st) <==> x in ThreeRecords(r) {
      assert x in Records(st) <==> KeptItem(st, x);
      assert KeptAt(st, 1) && KeptAt(st, 4093) && KeptAt(st, 4094);
    }
  }

  lemma RepeatedRecords(r: Record)
    requires r.bytes != []
    ensures Records(Run(RepeatingRun(r)[..5])) == ThreeRecords(r)
  {
    RepeatedState(r);
    var st := Run(RepeatingRun(r)[..5]);
    hide Run, Records, KeptAt, RepeatingRun, ThreeRecords, OffsetsAscend, SameMembers, EmptyIndex, ThreeSlots,
      WellFormed;
    ThreeKept(st, r);
    assert |st.index| == 4095 by { ThreeLength(r); }
    ThreeMembers(st, r);
    RecordsAscend(st);
    ThreeAscend(r);
    StrictOrderUnique(Records(st), ThreeRecords(r));
  }

  lemma ThreeLength(r: Record)
    ensures |ThreeSlots(ItemAt(r, 4094, 3, 4093), ItemAt(r, 4094, 1, 4094), ItemAt(r, 8187, 2, 0))| == 4095
  {
  }

  lemma RecordsAscend(st: Files)
    requires ExtentsOk(st)
    ensures OffsetsAscend(Records(st))
  {
    RecordsSpaced(st);
    RecordsNonEmpty(st);
    hide Records;
  }

  lemma ThreeAscend(r: Record)
    requires r.bytes != []
    ensures OffsetsAscend(ThreeRecords(r))
  {
  }

  /** Three live non-empty records, and after the compaction one of them is not found: its chain was
      cut when the second record of id 4094 was stored. */
  lemma CompactionLosesARecord(r: Record)
    requires r.bytes != []
    ensures var ops := RepeatingRun(r);
      && ValidOps(ops) && ValidOps(ops[..5]) && !Valid(Run(ops[..5]))
      && Lookup(Run(ops[..5]), 8187) == Some(r) && 8187 in MapOf(ops) && MapOf(ops)[8187] == r
      && Lookup(Run(ops), 8187) == None
  {
    var ops := RepeatingRun(r);
    var st := Run(ops[..5]);
    RunStep(ops, 5);
    assert ops[..6] == ops;
    RepeatedMap(r);
    RepeatedReads(r);
    hide Run, MapOf;
  }

  lemma RepeatedReads(r: Record)
    requires r.bytes != []
    ensures ValidOps(RepeatingRun(r)[..5])
    ensures var st := Run(RepeatingRun(r)[..5]);
      && !Valid(st) && Lookup(st, 8187) == Some(r)
      && Invariant(Optimize(st)) && Lookup(Optimize(st), 8187) == None
  {
    RepeatedState(r);
    RepeatedRecords(r);
    var st := Run(RepeatingRun(r)[..5]);
    hide Run, RepeatingRun, Records, Optimize, Lookup, Valid, EmptyIndex, ThreeSlots, ItemAt;
    RepeatedLookup(st, r);
    ThirdIsCutOff(st, r);
  }

  lemma ThirdIsCutOff(st: Files, r: Record)
    requires Invariant(st) && Records(st) == ThreeRecords(r)
    ensures Invariant(Optimize(st)) && Lookup(Optimize(st), 8187) == None
  {
    RepeatedCut(r);
    OptimizeExtents(st);
    hide Records, Optimize, CutOff, Lookup;
    GoneExact(st, 8187);
    assert forall i | 0 <= i < 3 && ThreeRecords(r)[i].id == 8187 :: i == 1;
  }

  lemma RepeatedLookup(st: Files, r: Record)
    requires Shape(st.index) && ExtentsOk(st)
    requires st.index == ThreeSlots(ItemAt(r, 4094, 3, 4093), ItemAt(r, 4094, 1, 4094), ItemAt(r, 8187, 2, 0))
    requires st.data == r.bytes + r.bytes + r.bytes + r.bytes
    ensures !Valid(st) && Lookup(st, 8187) == Some(r)
  {
    hide EmptyIndex;
    assert !DistinctIds(st.index) by { assert st.index[1].id == st.index[4093].id; }
    ThirdSlot(st.index, 8187);
    assert Extent(st.data, 2 * |r.bytes|, |r.bytes|) == r.bytes;
  }

  lemma ThirdSlot(ix: Index, id: nat)
    requires Shape(ix) && |ix| == 4095 && Hash(id) == 1 && ix[1].id != 0 && ix[1].id != id && ix[4093].id != id
    requires ix[1].next == 4093 && ix[4093].next == 4094 && ix[4094].next == 0
    ensures Find(ix, id) == 4094
  {
  }

  lemma RepeatedCut(r: Record)
    ensures CutOff(ThreeRecords(r), 1)
  {
    var recs := ThreeRecords(r);
    assert recs[..2][..1] == recs[..1] && recs[..1][..0] == [];
    assert Stacked([], 1) == [FREE_ITEM];
    assert Stacked(recs[..1], 1) == [ItemAt(r, 4094, 1, 0)];
    assert Stacked(recs[..2], 1) == [ItemAt(r, 4094, 1, 0), ItemAt(r, 8187, 2, 0)];
    assert Cuts(recs, 1, 2);
  }

  lemma RepeatedMap(r: Record)
    requires r.bytes != []
    ensures 8187 in MapOf(RepeatingRun(r)) && MapOf(RepeatingRun(r))[8187] == r
  {
    var ops := RepeatingRun(r);
    assert ops[..5][..4] == ops[..4] && ops[..4][..3] == ops[..3] && ops[..3][..2] == ops[..2];
    assert ops[..6] == ops;
    assert MapOf(ops[..3]) == MapOf(ops[..2])[8187 := r];
    assert MapOf(ops[..4]) == MapOf(ops[..3]) - {1};
    assert MapOf(ops[..5]) == MapOf(ops[..4])[4094 := r];
    var m := MapOf(ops[..5]);
    assert NonEmptyIn(m, 4094) && NonEmptyIn(m, 8187);
    assert MapOf(ops) == BaseRuns.Survivors(m);
  }

  // ---------- a lone record is lost ----------

  /** Write two records of different buckets, delete one, compact. */
  function LoneRun(r: Record): seq<Op> {
    [WriteOp(1, r), WriteOp(2, r), DeleteOp(2), OptimizeOp(true)]
  }

  /** Half of the data file is in use, which is enough fragmentation for the compaction to run, and the
      one record left is not found afterwards. */
  lemma LoneRecordLost(r: Record)
    requires r.bytes != []
    ensures var ops := LoneRun(r); var st := Run(ops[..3]);
      && ValidOps(ops) && ValidOps(ops[..3]) && Lookup(st, 1) == Some(r)
      && ActualSize(st.index, |st.index|, |st.data|) == |r.bytes| && |st.data| == 2 * |r.bytes|
      && Lookup(Run(ops), 1) == None
  {
    var ops := LoneRun(r);
    LoneState(r);
    var st := Run(ops[..3]);
    RunStep(ops, 3);
    assert ops[..4] == ops;
    hide Run, Optimize;
    LoneLive(st, r);
    SurvivesExactly(st, 1);
  }

  lemma LoneState(r: Record)
    ensures var st := Run(LoneRun(r)[..3]); var n := |r.bytes|;
      && st.index == EmptyIndex()[1 := Item(1, 0, 0, n, r.origSize)][2 := Item(0, n, 0, n, r.origSize)]
      && st.data == r.bytes + r.bytes
  {
    hide Run, Write, Delete, ExtentsOk;
    var ops := LoneRun(r);
    RunStep(ops, 0);
    RunStep(ops, 1);
    RunStep(ops, 2);
    assert ops[..0] == [];
    RunNothing();
    WriteFreeHead(Run(ops[..0]), 1, r);
    WriteFreeHead(Run(ops[..1]), 2, r);
    DeleteHead(Run(ops[..2]), 2);
  }

  lemma LoneLive(st: Files, r: Record)
    requires Invariant(st) && r.bytes != [] && st.data == r.bytes + r.bytes
    requires var n := |r.bytes|;
      st.index == EmptyIndex()[1 := Item(1, 0, 0, n, r.origSize)][2 := Item(0, n, 0, n, r.origSize)]
    ensures NonEmpty(st, 1) && forall q: nat | q != 1 :: !NonEmpty(st, q)
    ensures Lookup(st, 1) == Some(r)
    ensures ActualSize(st.index, |st.index|, |st.data|) == |r.bytes|
  {
    assert Find(st.index, 1) == 1;
    ActualOfOne(st.index, |st.index|, |st.data|, 1);
  }
}
