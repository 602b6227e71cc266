/** The loops of DpsProcessBuf over a shard's posting lists. */
module LogProcess {
  import opened Sorting
  import opened LogClean
  import opened LogPasses
  import opened LogFlush

  /** DPS_TODEL: a stored word and whether the log touched its list. */
  datatype ToDel = ToDel(wrd: nat, flag: bool)

  ghost predicate WordsAscend(todel: seq<ToDel>) {
    forall i, j | 0 <= i < j < |todel| :: todel[i].wrd < todel[j].wrd
  }

  ghost predicate Covers(todel: seq<ToDel>, words: set<nat>) {
    && (forall i | 0 <= i < |todel| :: todel[i].wrd in words)
    && (forall w | w in words :: exists i :: 0 <= i < |todel| && todel[i].wrd == w)
  }

  /** Exactly the words met so far are flagged. */
  ghost predicate Flagged(todel: seq<ToDel>, met: set<nat>) {
    forall i | 0 <= i < |todel| :: todel[i].flag <==> todel[i].wrd in met
  }

  predicate NatLe(a: nat, b: nat) {
    a <= b
  }

  /** The stored words, read in any order and sorted. */
  method CollectWords(lists: Lists) returns (todel: array<ToDel>)
    ensures fresh(todel) && WordsAscend(todel[..]) && Covers(todel[..], lists.Keys) && Flagged(todel[..], {})
  {
    var keys, found := lists.Keys, [];
    while keys != {}
      invariant forall w :: w in lists.Keys <==> w in keys || w in found
      invariant forall i | 0 <= i < |found| :: found[i] !in keys
      invariant forall i, j | 0 <= i < j < |found| :: found[i] != found[j]
      decreases keys
    {
      var w :| w in keys;
      keys, found := keys - {w}, found + [w];
    }
    var sorted := Sort(NatLe, found);
    SortOrdered(NatLe, found);
    SortPairwise(NatLe, (a: nat, b: nat) => a != b, found);
    SortMembers(NatLe, found);
    hide Sort;
    var flags := seq(|sorted|, i requires 0 <= i < |sorted| => ToDel(sorted[i], false));
    SortedWords(flags, sorted, lists.Keys);
    todel := ToArray(flags);
  }

  method ToArray(s: seq<ToDel>) returns (a: array<ToDel>)
    ensures fresh(a) && a[..] == s
  {
    a := new ToDel[|s|](i requires 0 <= i < |s| => s[i]);
  }

  lemma SortedWords(flags: seq<ToDel>, sorted: seq<nat>, words: set<nat>)
    requires |flags| == |sorted| && forall i | 0 <= i < |sorted| :: flags[i] == ToDel(sorted[i], false)
    requires Ordered(NatLe, sorted) && Pairwise((a: nat, b: nat) => a != b, sorted)
    requires forall w :: w in words <==> w in sorted
    ensures WordsAscend(flags) && Covers(flags, words) && Flagged(flags, {})
  {
    forall i, j | 0 <= i < j < |flags| ensures flags[i].wrd < flags[j].wrd {
      assert NatLe(sorted[i], sorted[j]);
    }
    forall w | w in words ensures exists i :: 0 <= i < |flags| && flags[i].wrd == w {
      var i :| 0 <= i < |sorted| && sorted[i] == w;
      assert flags[i].wrd == w;
    }
    forall i | 0 <= i < |flags| ensures flags[i].wrd in words {
      assert sorted[i] in sorted;
    }
  }

  // ---------- the first pass: lists the log touches ----------

  /** The first `i` log entries are merged, each word's list in one go. */
  ghost predicate FirstDone(lists: Lists, before: Lists, log: seq<LogWord>, dels: seq<LogDel>, met: set<nat>) {
    && lists.Keys == before.Keys + met
    && (forall w | w in met :: lists[w] == NewList(before, log, dels, w))
    && (forall w | w in before && w !in met :: lists[w] == before[w])
  }

  /** Entries before i are for smaller words than entries from i on. */
  ghost predicate GroupStart(log: seq<LogWord>, i: nat) {
    i <= |log| && forall k, m | 0 <= k < i <= m < |log| :: log[k].wrd < log[m].wrd
  }

  /** The end of the group of equal words that starts at i. */
  method GroupSize(log: seq<LogWord>, i: nat) returns (n: nat)
    requires i < |log| && LogOrdered(log) && GroupStart(log, i)
    ensures 0 < n && i + n <= |log| && GroupStart(log, i + n)
    ensures forall k | i <= k < i + n :: log[k].wrd == log[i].wrd
  {
    n := 1;
    while i + n < |log| && log[i].wrd == log[i + n].wrd
      invariant 0 < n && i + n <= |log|
      invariant forall k | i <= k < i + n :: log[k].wrd == log[i].wrd
    {
      n := n + 1;
    }
    forall k, m | 0 <= k < i + n <= m < |log| ensures log[k].wrd < log[m].wrd {
      assert WrdLe(log[i + n], log[m]) || m == i + n;
      assert WrdLe(log[i], log[i + n]);
    }
  }

  /** The group holds all of its word's postings. */
  lemma GroupIsWord(log: seq<LogWord>, i: nat, n: nat)
    requires 0 < n && i + n <= |log| && GroupStart(log, i) && GroupStart(log, i + n)
    requires forall k | i <= k < i + n :: log[k].wrd == log[i].wrd
    ensures CrdsFor(log, log[i].wrd) == CrdsOf(log[i..i + n])
  {
    hide CrdsFor, CrdsOf;
    var w := log[i].wrd;
    var before, group, after := log[..i], log[i..i + n], log[i + n..];
    GroupAround(log, i, n);
    hide GroupStart, Without, Only;
    NoCrds(before, w);
    NoCrds(after, w);
    AllCrds(group, w);
    CrdsForSplit(before, group + after, w);
    CrdsForSplit(group, after, w);
    assert before + (group + after) == log;
  }

  ghost predicate Without(log: seq<LogWord>, w: nat) {
    forall k | 0 <= k < |log| :: log[k].wrd != w
  }

  ghost predicate Only(log: seq<LogWord>, w: nat) {
    forall k | 0 <= k < |log| :: log[k].wrd == w
  }

  lemma GroupAround(log: seq<LogWord>, i: nat, n: nat)
    requires 0 < n && i + n <= |log| && GroupStart(log, i) && GroupStart(log, i + n)
    requires forall k | i <= k < i + n :: log[k].wrd == log[i].wrd
    ensures Without(log[..i], log[i].wrd) && Only(log[i..i + n], log[i].wrd) && Without(log[i + n..], log[i].wrd)
  {
    var after := log[i + n..];
    forall k | 0 <= k < |after| ensures after[k].wrd != log[i].wrd {
      assert log[i].wrd < log[i + n + k].wrd;
    }
  }

  lemma {:induction false} CrdsForSplit(a: seq<LogWord>, b: seq<LogWord>, w: nat)
    ensures CrdsFor(a + b, w) == CrdsFor(a, w) + CrdsFor(b, w)
  {
    if b == [] {
      assert a + b == a;
    } else {
      CrdsForSplit(a, b[..|b| - 1], w);
      assert (a + b)[..|a + b| - 1] == a + b[..|b| - 1];
    }
  }

  lemma {:induction false} NoCrds(log: seq<LogWord>, w: nat)
    requires Without(log, w)
    ensures CrdsFor(log, w) == []
  {
    if log == [] {
    } else {
      NoCrds(log[..|log| - 1], w);
    }
  }

  lemma {:induction false} AllCrds(log: seq<LogWord>, w: nat)
    requires Only(log, w)
    ensures CrdsFor(log, w) == CrdsOf(log)
  {
    if log == [] {
    } else {
      AllCrds(log[..|log| - 1], w);
    }
  }

  /** The old list without deleted urls, merged with the group: read, clean, merge. */
  method MergeGroup(list: seq<Crd>, group: seq<LogWord>, dels: seq<LogDel>) returns (merged: seq<Crd>)
    requires CrdsAscend(list) && OnePerUrl(dels)
    ensures merged == Merge(KeepCrds(list, dels), CrdsOf(group))
  {
    hide Merge, KeepCrds;
    var data := CrdArray(list, |group|);
    assert CrdUrlsAscend(list);
    var nOld := RemoveOldCrds(data, |list|, dels);
    MergeBackward(data, nOld, group);
    merged := data[..nOld + |group|];
  }

  /** The list read into a buffer with room for the log's postings. */
  method CrdArray(list: seq<Crd>, room: nat) returns (a: array<Crd>)
    ensures fresh(a) && a.Length == |list| + room && a[..|list|] == list
  {
    a := new Crd[|list| + room](i requires 0 <= i => if i < |list| then list[i] else Crd(0, 0));
  }

  /** The flag pointer: entries before it are for smaller words than the log's next. */
  ghost predicate PointerOk(todel: seq<ToDel>, start: nat, log: seq<LogWord>, i: nat) {
    && (todel == [] ==> start == 0) && (todel != [] ==> start < |todel|)
    && forall k, m | 0 <= k < start && i <= m < |log| && k < |todel| :: todel[k].wrd < log[m].wrd
  }

  /** Advance the pointer to the word and flag it if it is stored. */
  method FlagWord(todel: array<ToDel>, start: nat, wrd: nat, ghost met: set<nat>) returns (start': nat)
    requires WordsAscend(todel[..]) && Flagged(todel[..], met) && wrd !in met
    requires (todel.Length == 0 ==> start == 0) && (todel.Length > 0 ==> start < todel.Length)
    requires forall k | 0 <= k < start :: todel[k].wrd < wrd
    modifies todel
    ensures Flagged(todel[..], met + {wrd}) && WordsAscend(todel[..])
    ensures forall k | 0 <= k < todel.Length :: todel[k].wrd == old(todel[k].wrd)
    ensures (todel.Length == 0 ==> start' == 0) && (todel.Length > 0 ==> start' < todel.Length)
    ensures forall k | 0 <= k < start' :: todel[k].wrd < wrd
  {
    start' := start;
    ghost var before := todel[..];
    if todel.Length > 0 {
      while start' < todel.Length - 1 && todel[start'].wrd < wrd
        invariant start' < todel.Length && todel[..] == before
        invariant forall k | 0 <= k < start' :: todel[k].wrd < wrd
      {
        start' := start' + 1;
      }
      if todel[start'].wrd == wrd {
        todel[start'] := ToDel(wrd, true);
      }
      FlagStep(before, todel[..], start', wrd, met);
    }
  }

  lemma FlagStep(before: seq<ToDel>, after: seq<ToDel>, s: nat, wrd: nat, met: set<nat>)
    requires WordsAscend(before) && Flagged(before, met) && s < |before|
    requires (forall k | 0 <= k < s :: before[k].wrd < wrd) && (s < |before| - 1 ==> before[s].wrd >= wrd)
    requires after == if before[s].wrd == wrd then before[s := ToDel(wrd, true)] else before
    ensures Flagged(after, met + {wrd}) && WordsAscend(after)
    ensures forall k | 0 <= k < |after| :: after[k].wrd == before[k].wrd
  {
    forall i | 0 <= i < |after| ensures after[i].flag <==> after[i].wrd in met + {wrd} {
      if i > s {
        assert before[s].wrd < before[i].wrd;
      }
    }
  }

  /** The log words met up to a position that starts a group. */
  lemma MetGrows(log: seq<LogWord>, i: nat, n: nat)
    requires 0 < n && i + n <= |log| && GroupStart(log, i)
    requires forall k | i <= k < i + n :: log[k].wrd == log[i].wrd
    ensures WordsOf(log[..i + n]) == WordsOf(log[..i]) + {log[i].wrd}
    ensures log[i].wrd !in WordsOf(log[..i])
  {
    forall w ensures w in WordsOf(log[..i + n]) <==> w in WordsOf(log[..i]) + {log[i].wrd} {
      if w in WordsOf(log[..i]) {
        var k :| 0 <= k < i && log[..i][k].wrd == w;
        assert log[..i + n][k].wrd == w;
      }
      if w == log[i].wrd {
        assert log[..i + n][i].wrd == w;
      }
      if w in WordsOf(log[..i + n]) {
        var k :| 0 <= k < i + n && log[..i + n][k].wrd == w;
        assert k < i ==> log[..i][k].wrd == w;
      }
    }
  }

  lemma CoversKept(before: seq<ToDel>, after: seq<ToDel>, words: set<nat>)
    requires Covers(before, words) && |after| == |before|
    requires forall k | 0 <= k < |before| :: after[k].wrd == before[k].wrd
    ensures Covers(after, words)
  {
    forall w | w in words ensures exists i :: 0 <= i < |after| && after[i].wrd == w {
      var i :| 0 <= i < |before| && before[i].wrd == w;
      assert after[i].wrd == w;
    }
  }

  lemma PointerNext(before: seq<ToDel>, after: seq<ToDel>, start: nat, log: seq<LogWord>, i: nat, n: nat)
    requires 0 < n && i + n <= |log| && GroupStart(log, i + n)
    requires |after| == |before| && forall k | 0 <= k < |before| :: after[k].wrd == before[k].wrd
    requires (after == [] ==> start == 0) && (after != [] ==> start < |after|)
    requires forall k | 0 <= k < start :: after[k].wrd < log[i].wrd
    ensures PointerOk(after, start, log, i + n)
  {
    forall k, m | 0 <= k < start && i + n <= m < |log| && k < |after| ensures after[k].wrd < log[m].wrd {
      assert log[i].wrd < log[m].wrd;
    }
  }

  lemma FirstStep(lists: Lists, before: Lists, log: seq<LogWord>, dels: seq<LogDel>, met: set<nat>, wrd: nat)
    requires FirstDone(lists, before, log, dels, met)
    ensures FirstDone(lists[wrd := NewList(before, log, dels, wrd)], before, log, dels, met + {wrd})
  {
    hide NewList;
  }

  // ---------- the second pass: lists the log does not touch ----------

  ghost predicate SameAt(a: Lists, b: Lists, w: nat) {
    (w in a <==> w in b) && (w in a ==> a[w] == b[w])
  }

  /** The lists still to clean are as they were before the flush; all others are as after it. */
  ghost predicate Cleaning(lists: Lists, before: Lists, target: Lists, todo: set<nat>) {
    forall w: nat :: SameAt(lists, if w in todo then before else target, w)
  }

  /** The stored words from position i on whose lists the log did not touch. */
  ghost function Pending(todel: seq<ToDel>, i: nat): set<nat> {
    set k | i <= k < |todel| && !todel[k].flag :: todel[k].wrd
  }

  lemma PendingStep(todel: seq<ToDel>, i: nat)
    requires i < |todel| && WordsAscend(todel)
    ensures Pending(todel, i + 1) == Pending(todel, i) - {todel[i].wrd}
    ensures todel[i].wrd in Pending(todel, i) <==> !todel[i].flag
  {
    forall w ensures w in Pending(todel, i + 1) <==> w in Pending(todel, i) - {todel[i].wrd} {
      if w in Pending(todel, i) - {todel[i].wrd} {
        var k :| i <= k < |todel| && !todel[k].flag && todel[k].wrd == w;
        assert k != i;
      }
      if w in Pending(todel, i + 1) {
        var k :| i + 1 <= k < |todel| && !todel[k].flag && todel[k].wrd == w;
        assert todel[i].wrd < todel[k].wrd;
      }
    }
    if todel[i].wrd in Pending(todel, i) {
      var k :| i <= k < |todel| && !todel[k].flag && todel[k].wrd == todel[i].wrd;
      assert todel[i].wrd < todel[k].wrd || k == i;
    }
  }

  lemma PendingAll(todel: seq<ToDel>, words: set<nat>, met: set<nat>)
    requires Covers(todel, words) && Flagged(todel, met)
    ensures Pending(todel, 0) == words - met
  {
    forall w | w in words - met ensures w in Pending(todel, 0) {
      var k :| 0 <= k < |todel| && todel[k].wrd == w;
      assert !todel[k].flag;
    }
  }

  /** A word the log does not name only loses deleted urls. */
  lemma Untouched(lists: Lists, log: seq<LogWord>, dels: seq<LogDel>, wrd: nat)
    requires wrd !in WordsOf(log)
    ensures NewList(lists, log, dels, wrd) == KeepCrds(OldList(lists, wrd), dels)
  {
    assert Without(log, wrd) by {
      forall k | 0 <= k < |log| ensures log[k].wrd != wrd {
        assert log[k].wrd == wrd ==> HasWord(log, wrd);
      }
    }
    NoCrds(log, wrd);
  }

  lemma {:induction false} TouchedNotEmpty(log: seq<LogWord>, wrd: nat)
    requires wrd in WordsOf(log)
    ensures CrdsFor(log, wrd) != []
  {
    if log[|log| - 1].wrd != wrd {
      var k :| 0 <= k < |log| && log[k].wrd == wrd;
      assert log[..|log| - 1][k].wrd == wrd;
      TouchedNotEmpty(log[..|log| - 1], wrd);
    }
  }

  /** After the first pass only the untouched lists remain. */
  lemma FirstPassDone(lists: Lists, before: Lists, log: seq<LogWord>, dels: seq<LogDel>)
    requires FirstDone(lists, before, log, dels, WordsOf(log))
    ensures Cleaning(lists, before, NewLists(before, log, dels), before.Keys - WordsOf(log))
  {
    hide CrdsFor, KeepCrds;
    forall w: nat
      ensures SameAt(lists, if w in before.Keys - WordsOf(log) then before else NewLists(before, log, dels), w)
    {
      if w in WordsOf(log) {
        TouchedNotEmpty(log, w);
      } else {
        Untouched(before, log, dels, w);
      }
    }
  }

  lemma {:induction false} NoneCleaned(crds: seq<Crd>, dels: seq<LogDel>)
    requires |KeepCrds(crds, dels)| == |crds|
    ensures KeepCrds(crds, dels) == crds
  {
    if crds == [] {
    } else {
      NoneCleaned(crds[..|crds| - 1], dels);
    }
  }

  /** Without deletes the untouched lists are already right. */
  lemma NothingToClean(lists: Lists, before: Lists, log: seq<LogWord>, todo: set<nat>)
    requires ListsOk(before) && Cleaning(lists, before, NewLists(before, log, []), todo)
    requires todo == before.Keys - WordsOf(log)
    ensures lists == NewLists(before, log, [])
  {
    hide KeepCrds, NewList, CrdsFor;
    forall w: nat ensures SameAt(lists, NewLists(before, log, []), w) {
      assert SameAt(lists, if w in todo then before else NewLists(before, log, []), w);
      if w in todo {
        Untouched(before, log, [], w);
        NothingDeleted(before[w], []);
      }
    }
    SameEverywhere(lists, NewLists(before, log, []));
  }

  lemma SameEverywhere(a: Lists, b: Lists)
    requires forall w: nat :: SameAt(a, b, w)
    ensures a == b
  {
    forall w: nat ensures w in a <==> w in b { assert SameAt(a, b, w); }
    forall w: nat | w in a ensures a[w] == b[w] { assert SameAt(a, b, w); }
  }

  lemma ListToClean(lists: Lists, before: Lists, target: Lists, todo: set<nat>, wrd: nat)
    requires ListsOk(before) && Cleaning(lists, before, target, todo) && wrd in todo && wrd in before
    ensures wrd in lists && lists[wrd] == before[wrd]
    ensures before[wrd] != [] && CrdsAscend(before[wrd]) && CrdUrlsAscend(before[wrd])
  {
    assert SameAt(lists, if wrd in todo then before else target, wrd);
  }

  lemma CleanStep(lists: Lists, before: Lists, log: seq<LogWord>, dels: seq<LogDel>, todo: set<nat>, wrd: nat,
                  lists': Lists, kept: seq<Crd>)
    requires ListsOk(before) && Cleaning(lists, before, NewLists(before, log, dels), todo)
    requires wrd in todo && wrd in before && wrd !in WordsOf(log) && kept == KeepCrds(before[wrd], dels)
    requires lists' == if kept == [] then lists - {wrd} else lists[wrd := kept]
    ensures Cleaning(lists', before, NewLists(before, log, dels), todo - {wrd})
  {
    hide KeepCrds, NewList, CrdsFor;
    Untouched(before, log, dels, wrd);
    var target := NewLists(before, log, dels);
    forall w: nat ensures SameAt(lists', if w in todo - {wrd} then before else target, w) {
      assert SameAt(lists, if w in todo then before else target, w);
    }
  }

  // ---------- DpsProcessBuf ----------

  /** The posting lists of one shard on disk, seen as a map. */
  class PostingBase {
    var lists: Lists

    constructor ()
      ensures lists == map[]
    {
      lists := map[];
    }

    /** One flush of the shard: every list as the log and the deletes make it. */
    method ProcessBuf(log: seq<LogWord>, dels: seq<LogDel>)
      requires ListsOk(lists) && LogOrdered(log) && OnePerUrl(dels)
      modifies this
      ensures lists == NewLists(old(lists), log, dels)
    {
      ghost var before := lists;
      hide LogOrdered, OnePerUrl, ListsOk, NewLists, WordsOf, Covers, Flagged, WordsAscend, Cleaning;
      if |log| == 0 && |dels| == 0 {
        FirstPassDone(lists, before, log, dels) by { assert log == []; EmptyLog(lists, dels); }
        NothingToClean(lists, before, log, before.Keys - WordsOf(log));
        return;
      }
      var todel := CollectWords(lists);
      MergeGroups(log, dels, todel);
      FirstPassDone(lists, before, log, dels);
      if |dels| > 0 {
        PendingAll(todel[..], before.Keys, WordsOf(log));
        CleanRest(log, dels, todel, before);
      } else {
        NothingToClean(lists, before, log, before.Keys - WordsOf(log));
      }
    }

    /** The first pass: merge the log into the lists it names, flagging them. */
    method MergeGroups(log: seq<LogWord>, dels: seq<LogDel>, todel: array<ToDel>)
      requires ListsOk(lists) && LogOrdered(log) && OnePerUrl(dels)
      requires WordsAscend(todel[..]) && Covers(todel[..], lists.Keys) && Flagged(todel[..], {})
      modifies this, todel
      ensures FirstDone(lists, old(lists), log, dels, WordsOf(log))
      ensures WordsAscend(todel[..]) && Covers(todel[..], old(lists.Keys)) && Flagged(todel[..], WordsOf(log))
    {
      hide ListsOk, LogOrdered, OnePerUrl, FirstDone, WordsOf, Covers, Flagged, WordsAscend, GroupStart, PointerOk;
      ghost var before := lists;
      var i, start := 0, 0;
      FirstStart(log, before, dels, todel[..]);
      while i < |log|
        invariant i <= |log| && GroupStart(log, i) && PointerOk(todel[..], start, log, i)
        invariant FirstDone(lists, before, log, dels, WordsOf(log[..i]))
        invariant WordsAscend(todel[..]) && Covers(todel[..], before.Keys) && Flagged(todel[..], WordsOf(log[..i]))
      {
        var nAdd := GroupSize(log, i);
        MetGrows(log, i, nAdd);
        start := FlagGroup(log, i, nAdd, todel, start, before.Keys);
        MergeIn(log, i, nAdd, dels, before);
        i := i + nAdd;
      }
      assert log[..i] == log;
    }

    /** Read the word's list, clean it, merge the group into it, write it back. */
    method MergeIn(log: seq<LogWord>, i: nat, nAdd: nat, dels: seq<LogDel>, ghost before: Lists)
      requires ListsOk(before) && OnePerUrl(dels) && 0 < nAdd && i + nAdd <= |log|
      requires GroupStart(log, i) && GroupStart(log, i + nAdd)
      requires forall k | i <= k < i + nAdd :: log[k].wrd == log[i].wrd
      requires FirstDone(lists, before, log, dels, WordsOf(log[..i])) && log[i].wrd !in WordsOf(log[..i])
      requires WordsOf(log[..i + nAdd]) == WordsOf(log[..i]) + {log[i].wrd}
      modifies this
      ensures FirstDone(lists, before, log, dels, WordsOf(log[..i + nAdd]))
    {
      ghost var met := WordsOf(log[..i]);
      hide WordsOf, GroupStart, OnePerUrl;
      var wrd := log[i].wrd;
      var data := if wrd in lists then lists[wrd] else [];
      assert data == OldList(before, wrd);
      assert CrdsAscend(data);
      var merged := MergeGroup(data, log[i..i + nAdd], dels);
      GroupIsWord(log, i, nAdd);
      FirstStep(lists, before, log, dels, met, wrd);
      lists := lists[wrd := merged];
    }

    /** The second pass: clean the lists the log did not touch. */
    method CleanRest(log: seq<LogWord>, dels: seq<LogDel>, todel: array<ToDel>, ghost before: Lists)
      requires ListsOk(before) && OnePerUrl(dels) && WordsAscend(todel[..])
      requires Pending(todel[..], 0) == before.Keys - WordsOf(log)
      requires Cleaning(lists, before, NewLists(before, log, dels), before.Keys - WordsOf(log))
      modifies this
      ensures lists == NewLists(before, log, dels)
    {
      ghost var entries := todel[..];
      var i := 0;
      hide ListsOk, OnePerUrl, WordsAscend, Pending, NewLists, WordsOf, Cleaning;
      while i < todel.Length
        invariant i <= todel.Length && todel[..] == entries
        invariant Pending(entries, i) <= before.Keys - WordsOf(log)
        invariant Cleaning(lists, before, NewLists(before, log, dels), Pending(entries, i))
      {
        PendingStep(entries, i);
        assert todel[i] == entries[i];
        if !todel[i].flag {
          CleanOne(log, dels, todel[i].wrd, before, Pending(entries, i));
        } else {
          assert Pending(entries, i + 1) == Pending(entries, i);
        }
        i := i + 1;
      }
      NonePending(entries, i, lists, before, NewLists(before, log, dels));
    }

    /** One list of the second pass. */
    method CleanOne(log: seq<LogWord>, dels: seq<LogDel>, wrd: nat, ghost before: Lists, ghost todo: set<nat>)
      requires ListsOk(before) && OnePerUrl(dels)
      requires Cleaning(lists, before, NewLists(before, log, dels), todo)
      requires wrd in todo && todo <= before.Keys - WordsOf(log)
      modifies this
      ensures Cleaning(lists, before, NewLists(before, log, dels), todo - {wrd})
    {
      hide WordsOf, OnePerUrl, NewLists, KeepCrds, ListsOk, Cleaning;
      ghost var list := before[wrd];
      ListToClean(lists, before, NewLists(before, log, dels), todo, wrd);
      var nOld := |lists[wrd]|;
      var data := CrdArray(lists[wrd], 0);
      var nNew := RemoveOldCrds(data, nOld, dels);
      hide CrdUrlsAscend, CrdsAscend;
      ghost var now := lists;
      if nNew != nOld {
        if nNew > 0 {
          lists := lists[wrd := data[..nNew]];
        } else {
          lists := lists - {wrd};
        }
      } else {
        NoneCleaned(list, dels);
        assert lists == lists[wrd := list];
      }
      CleanStep(now, before, log, dels, todo, wrd, lists, KeepCrds(list, dels));
    }
  }

  /** Advance the flag pointer past a group's word. */
  method FlagGroup(log: seq<LogWord>, i: nat, nAdd: nat, todel: array<ToDel>, start: nat, ghost words: set<nat>)
    returns (start': nat)
    requires 0 < nAdd && i + nAdd <= |log| && GroupStart(log, i) && GroupStart(log, i + nAdd)
    requires WordsOf(log[..i + nAdd]) == WordsOf(log[..i]) + {log[i].wrd} && log[i].wrd !in WordsOf(log[..i])
    requires PointerOk(todel[..], start, log, i)
    requires WordsAscend(todel[..]) && Covers(todel[..], words) && Flagged(todel[..], WordsOf(log[..i]))
    modifies todel
    ensures PointerOk(todel[..], start', log, i + nAdd)
    ensures WordsAscend(todel[..]) && Covers(todel[..], words) && Flagged(todel[..], WordsOf(log[..i + nAdd]))
  {
    ghost var before := todel[..];
    hide WordsOf, Flagged, WordsAscend, GroupStart, Covers;
    assert forall k | 0 <= k < start :: before[k].wrd < log[i].wrd;
    start' := FlagWord(todel, start, log[i].wrd, WordsOf(log[..i]));
    hide PointerOk;
    CoversKept(before, todel[..], words);
    PointerNext(before, todel[..], start', log, i, nAdd);
  }

  lemma EmptyLog(lists: Lists, dels: seq<LogDel>)
    ensures WordsOf([]) == {} && FirstDone(lists, lists, [], dels, {})
  {
  }

  lemma FirstStart(log: seq<LogWord>, before: Lists, dels: seq<LogDel>, todel: seq<ToDel>)
    ensures log[..0] == [] && WordsOf(log[..0]) == {}
    ensures FirstDone(before, before, log, dels, {}) && GroupStart(log, 0) && PointerOk(todel, 0, log, 0)
  {
  }

  lemma NonePending(todel: seq<ToDel>, i: nat, lists: Lists, before: Lists, target: Lists)
    requires i == |todel| && Cleaning(lists, before, target, Pending(todel, i))
    ensures lists == target
  {
    forall w: nat ensures SameAt(lists, target, w) {
      assert SameAt(lists, if w in Pending(todel, i) then before else target, w);
    }
    SameEverywhere(lists, target);
  }
}
