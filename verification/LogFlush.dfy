/** DpsProcessBuf: bringing the words and deletes of one shard into its posting lists. */
module LogFlush {
  import opened LogClean

  type Lists = map<nat, seq<Crd>>

  // ---------- posting lists ----------

  predicate CrdLe(a: Crd, b: Crd) {
    a.url < b.url || (a.url == b.url && a.coord <= b.coord)
  }

  ghost predicate CrdsAscend(crds: seq<Crd>) {
    forall i, j | 0 <= i < j < |crds| :: CrdLe(crds[i], crds[j])
  }

  /** DpsCmplog_wrd: word, url, coordinate. */
  predicate WrdLe(a: LogWord, b: LogWord) {
    a.wrd < b.wrd || (a.wrd == b.wrd && CrdLe(CrdOf(a), CrdOf(b)))
  }

  function CrdOf(w: LogWord): Crd {
    Crd(w.url, w.coord)
  }

  /** The postings of one word, in log order. */
  function CrdsFor(log: seq<LogWord>, wrd: nat): (r: seq<Crd>)
    ensures |r| <= |log|
  {
    if log == [] then []
    else
      var l := log[|log| - 1];
      CrdsFor(log[..|log| - 1], wrd) + (if l.wrd == wrd then [CrdOf(l)] else [])
  }

  predicate HasWord(log: seq<LogWord>, wrd: nat) {
    exists k :: 0 <= k < |log| && log[k].wrd == wrd
  }

  // ---------- the backward merge ----------

  /** The merge from the back: the larger last element goes last; a tie takes the log's. */
  function Merge(a: seq<Crd>, b: seq<Crd>): (r: seq<Crd>)
    ensures |r| == |a| + |b|
    ensures multiset(r) == multiset(a) + multiset(b)
    decreases |a| + |b|
  {
    if b == [] then a
    else if a == [] then b
    else
      var x, y := a[|a| - 1], b[|b| - 1];
      assert a == a[..|a| - 1] + [x] && b == b[..|b| - 1] + [y];
      if !CrdLe(x, y) then Merge(a[..|a| - 1], b) + [x] else Merge(a, b[..|b| - 1]) + [y]
  }

  /** The merge of ordered lists is an ordered permutation of both. */
  lemma {:induction false} MergeAscends(a: seq<Crd>, b: seq<Crd>)
    requires CrdsAscend(a) && CrdsAscend(b)
    ensures CrdsAscend(Merge(a, b))
    decreases |a| + |b|
  {
    if a == [] || b == [] {
    } else {
      var x, y := a[|a| - 1], b[|b| - 1];
      if !CrdLe(x, y) {
        MergeAscends(a[..|a| - 1], b);
        LargestLast(a[..|a| - 1], b, x);
      } else {
        MergeAscends(a, b[..|b| - 1]);
        LargestLast(a, b[..|b| - 1], y);
      }
    }
  }

  lemma LargestLast(a: seq<Crd>, b: seq<Crd>, last: Crd)
    requires CrdsAscend(Merge(a, b))
    requires (forall i | 0 <= i < |a| :: CrdLe(a[i], last)) && (forall i | 0 <= i < |b| :: CrdLe(b[i], last))
    ensures CrdsAscend(Merge(a, b) + [last])
  {
    var r := Merge(a, b);
    forall i | 0 <= i < |r| ensures CrdLe(r[i], last) {
      assert r[i] in multiset(r);
      assert r[i] in multiset(a) || r[i] in multiset(b);
      assert r[i] in a || r[i] in b;
    }
  }

  /** The postings of a run of log entries. */
  function CrdsOf(log: seq<LogWord>): (r: seq<Crd>)
    ensures |r| == |log|
  {
    seq(|log|, k requires 0 <= k < |log| => CrdOf(log[k]))
  }

  /** j old postings are still in front, z log postings unread, and the rest is merged behind. */
  ghost predicate Merging(now: seq<Crd>, a: seq<Crd>, b: seq<Crd>, j: nat, z: nat) {
    && j <= |a| && z <= |b| && |a| + |b| <= |now|
    && now[..j] == a[..j]
    && Merge(a[..j], b[..z]) + now[j + z..|a| + |b|] == Merge(a, b)
  }

  lemma MergeStart(now: seq<Crd>, a: seq<Crd>, b: seq<Crd>)
    requires |a| + |b| <= |now| && now[..|a|] == a
    ensures Merging(now, a, b, |a|, |b|)
  {
    assert a[..|a|] == a && b[..|b|] == b && now[|a| + |b|..|a| + |b|] == [];
  }

  /** The posting that goes to position j + z - 1, which is above every unread old posting unless
      it is the one being moved. */
  function Larger(a: seq<Crd>, b: seq<Crd>, j: nat, z: nat): Crd
    requires j <= |a| && 0 < z <= |b|
  {
    if j > 0 && !CrdLe(a[j - 1], b[z - 1]) then a[j - 1] else b[z - 1]
  }

  lemma MergeUnfold(a: seq<Crd>, b: seq<Crd>, j: nat, z: nat)
    requires j <= |a| && 0 < z <= |b|
    ensures Merge(a[..j], b[..z])
         == (if j > 0 && !CrdLe(a[j - 1], b[z - 1]) then Merge(a[..j - 1], b[..z]) else Merge(a[..j], b[..z - 1]))
            + [Larger(a, b, j, z)]
  {
    assert b[..z][..z - 1] == b[..z - 1];
    if j > 0 {
      assert a[..j][..j - 1] == a[..j - 1];
    } else {
      assert Merge(a[..0], b[..z]) == b[..z];
    }
  }

  lemma MergeStep(now: seq<Crd>, a: seq<Crd>, b: seq<Crd>, j: nat, z: nat)
    requires Merging(now, a, b, j, z) && z > 0
    ensures j > 0 ==> now[j - 1] == a[j - 1]
    ensures var now' := now[j + z - 1 := Larger(a, b, j, z)];
      if j > 0 && !CrdLe(a[j - 1], b[z - 1]) then Merging(now', a, b, j - 1, z) else Merging(now', a, b, j, z - 1)
  {
    hide Merge, CrdLe, Larger, Merging;
    MergeUnread(now, a, b, j, z);
    MergeUnfold(a, b, j, z);
    if j > 0 && !CrdLe(a[j - 1], b[z - 1]) {
      MergePlace(now, a, b, j, z, j - 1, z, Larger(a, b, j, z));
    } else {
      MergePlace(now, a, b, j, z, j, z - 1, Larger(a, b, j, z));
    }
  }

  lemma MergeUnread(now: seq<Crd>, a: seq<Crd>, b: seq<Crd>, j: nat, z: nat)
    requires Merging(now, a, b, j, z)
    ensures j <= |a| && z <= |b| && |a| + |b| <= |now| && (j > 0 ==> now[j - 1] == a[j - 1])
  {
    assert j > 0 ==> now[..j][j - 1] == a[..j][j - 1];
  }

  lemma MergePlace(now: seq<Crd>, a: seq<Crd>, b: seq<Crd>, j: nat, z: nat, j': nat, z': nat, x: Crd)
    requires Merging(now, a, b, j, z) && j' <= j && z' <= z && j' + z' == j + z - 1
    requires Merge(a[..j], b[..z]) == Merge(a[..j'], b[..z']) + [x]
    ensures Merging(now[j + z - 1 := x], a, b, j', z')
  {
    hide Merge;
    var n := |a| + |b|;
    var rest, now' := now[j + z..n], now[j + z - 1 := x];
    assert now'[j + z - 1..n] == [x] + rest;
    assert now'[..j'] == now[..j][..j'] && a[..j][..j'] == a[..j'];
    assert Merge(a[..j'], b[..z']) + ([x] + rest) == Merge(a[..j], b[..z]) + rest;
  }

  lemma MergeEnd(now: seq<Crd>, a: seq<Crd>, b: seq<Crd>, j: nat)
    requires Merging(now, a, b, j, 0)
    ensures now[..|a| + |b|] == Merge(a, b)
  {
    assert now[..|a| + |b|] == now[..j] + now[j..|a| + |b|];
  }

  /** The merge loops: data holds nOld postings in front and room for the log's behind them. */
  method MergeBackward(data: array<Crd>, nOld: nat, log: seq<LogWord>)
    requires nOld + |log| <= data.Length
    modifies data
    ensures data[..nOld + |log|] == Merge(old(data[..nOld]), CrdsOf(log))
  {
    ghost var a, b := data[..nOld], CrdsOf(log);
    MergeStart(data[..], a, b);
    hide Merging, Merge, CrdsOf;
    var j, z := nOld, |log|;
    while j > 0 && z > 0
      invariant 0 <= j <= nOld && 0 <= z <= |log| && Merging(data[..], a, b, j, z)
    {
      var oldIsLarger := MergeOne(data, a, b, log, j, z);
      if oldIsLarger {
        j := j - 1;
      } else {
        z := z - 1;
      }
    }
    if z > 0 {
      RestOfLog(data, a, b, log, z);
      z := 0;
    }
    MergeEnd(data[..], a, b, j);
    assert data[..nOld + |log|] == data[..][..nOld + |log|];
  }

  /** The last loop, when the old list is used up. */
  method RestOfLog(data: array<Crd>, ghost a: seq<Crd>, ghost b: seq<Crd>, log: seq<LogWord>, z: nat)
    requires b == CrdsOf(log) && z <= |log| && |a| + |b| <= data.Length && Merging(data[..], a, b, 0, z)
    modifies data
    ensures Merging(data[..], a, b, 0, 0)
  {
    hide Merging, CrdsOf;
    var k := z;
    while k > 0
      invariant 0 <= k <= z && Merging(data[..], a, b, 0, k)
    {
      ghost var now := data[..];
      MergeStep(now, a, b, 0, k);
      CrdsOfAt(log, k - 1);
      data[k - 1] := CrdOf(log[k - 1]);
      k := k - 1;
      assert data[..] == now[k := data[k]];
    }
  }

  /** One turn of the first merge loop; the write position p of the source is j + z - 1. */
  method MergeOne(data: array<Crd>, ghost a: seq<Crd>, ghost b: seq<Crd>, log: seq<LogWord>, j: nat, z: nat)
    returns (fromOld: bool)
    requires b == CrdsOf(log) && 0 < j && 0 < z <= |log| && Merging(data[..], a, b, j, z) && |a| + |b| <= data.Length
    requires j <= |a|
    modifies data
    ensures if fromOld then Merging(data[..], a, b, j - 1, z) else Merging(data[..], a, b, j, z - 1)
  {
    hide Merging, CrdsOf;
    ghost var now := data[..];
    MergeStep(now, a, b, j, z);
    CrdsOfAt(log, z - 1);
    assert data[j - 1] == now[j - 1] == a[j - 1];
    fromOld := data[j - 1].url > log[z - 1].url ||
      (data[j - 1].url == log[z - 1].url && data[j - 1].coord > log[z - 1].coord);
    data[j + z - 1] := if fromOld then data[j - 1] else CrdOf(log[z - 1]);
    assert data[..] == now[j + z - 1 := Larger(a, b, j, z)];
  }

  lemma CrdsOfAt(log: seq<LogWord>, k: nat)
    requires k < |log|
    ensures |CrdsOf(log)| == |log| && CrdsOf(log)[k] == CrdOf(log[k])
  {
  }

  // ---------- what a flush does to the lists ----------

  function OldList(lists: Lists, wrd: nat): seq<Crd> {
    if wrd in lists then lists[wrd] else []
  }

  /** A word's list after the flush: the old list without deleted urls, merged with the log's. */
  function NewList(lists: Lists, log: seq<LogWord>, dels: seq<LogDel>, wrd: nat): seq<Crd> {
    Merge(KeepCrds(OldList(lists, wrd), dels), CrdsFor(log, wrd))
  }

  function WordsOf(log: seq<LogWord>): (r: set<nat>)
    ensures forall w :: w in r <==> HasWord(log, w)
  {
    set k | 0 <= k < |log| :: log[k].wrd
  }

  function NewLists(lists: Lists, log: seq<LogWord>, dels: seq<LogDel>): Lists {
    map wrd | wrd in lists.Keys + WordsOf(log) && NewList(lists, log, dels, wrd) != [] ::
      NewList(lists, log, dels, wrd)
  }

  /** Stored lists are ordered and not empty. */
  ghost predicate ListsOk(lists: Lists) {
    forall wrd | wrd in lists :: CrdsAscend(lists[wrd]) && lists[wrd] != []
  }

  ghost predicate LogOrdered(log: seq<LogWord>) {
    forall i, j | 0 <= i < j < |log| :: WrdLe(log[i], log[j])
  }

  lemma {:induction false} KeepAscends(crds: seq<Crd>, dels: seq<LogDel>)
    requires CrdsAscend(crds)
    ensures CrdsAscend(KeepCrds(crds, dels))
    ensures forall c :: c in KeepCrds(crds, dels) ==> c in crds
  {
    if crds == [] {
    } else {
      var init, last := crds[..|crds| - 1], crds[|crds| - 1];
      KeepAscends(init, dels);
      var r := KeepCrds(init, dels);
      forall i | 0 <= i < |r| ensures CrdLe(r[i], last) {
        assert r[i] in init;
        var k :| 0 <= k < |init| && init[k] == r[i];
        assert CrdLe(crds[k], crds[|crds| - 1]);
      }
    }
  }

  lemma {:induction false} CrdsForAscends(log: seq<LogWord>, wrd: nat)
    requires LogOrdered(log)
    ensures CrdsAscend(CrdsFor(log, wrd))
    ensures forall c :: c in CrdsFor(log, wrd) ==> exists k :: 0 <= k < |log| && log[k].wrd == wrd && CrdOf(log[k]) == c
  {
    if log == [] {
    } else {
      var init, last := log[..|log| - 1], log[|log| - 1];
      CrdsForAscends(init, wrd);
      var r := CrdsFor(init, wrd);
      if last.wrd == wrd {
        forall i | 0 <= i < |r| ensures CrdLe(r[i], CrdOf(last)) {
          assert r[i] in r;
          var k :| 0 <= k < |init| && init[k].wrd == wrd && CrdOf(init[k]) == r[i];
          assert WrdLe(log[k], log[|log| - 1]);
        }
      }
      forall c | c in CrdsFor(log, wrd)
        ensures exists k :: 0 <= k < |log| && log[k].wrd == wrd && CrdOf(log[k]) == c
      {
        if c in r {
          var k :| 0 <= k < |init| && init[k].wrd == wrd && CrdOf(init[k]) == c;
          assert log[k] == init[k];
        } else {
          assert log[|log| - 1].wrd == wrd;
        }
      }
    }
  }

  /** Every list of the flushed shard is ordered again. */
  lemma NewListsOk(lists: Lists, log: seq<LogWord>, dels: seq<LogDel>)
    requires ListsOk(lists) && LogOrdered(log)
    ensures ListsOk(NewLists(lists, log, dels))
  {
    forall wrd | wrd in NewLists(lists, log, dels) ensures CrdsAscend(NewLists(lists, log, dels)[wrd]) {
      KeepAscends(OldList(lists, wrd), dels);
      CrdsForAscends(log, wrd);
      MergeAscends(KeepCrds(OldList(lists, wrd), dels), CrdsFor(log, wrd));
    }
  }
}
