/** The write-behind index of src/cache.c: commands go to per-shard buffers and reach the posting
    lists in flushes. It is compared with applying every command to the lists at once. */
module WriteBehind {
  import opened Sorting
  import opened LogClean
  import opened LogFlush
  import opened LogProcess

  // ---------- one shard ----------

  /** dps_wrd_buf with the posting lists behind it. `intact` records that no flush so far lost
      records in the tail move of DpsRemoveOldWords. */
  datatype Shard = Shard(words: seq<LogWord>, dels: seq<LogDel>, lists: Lists, intact: bool)

  const EmptyShard: Shard := Shard([], [], map[], true)

  /** The log as DpsProcessBuf receives it. */
  function FlushLog(move: TailMove, s: Shard): seq<LogWord> {
    Sort(WrdLe, RemoveOld(move, Sort(UrlLe, s.words), NewestDels(s.dels)))
  }

  predicate Intact(move: TailMove, s: Shard) {
    move.WholeRecords? || NoTailMove(Sort(UrlLe, s.words), NewestDels(s.dels))
  }

  /** DpsLogdSaveBuf. */
  function Flush(move: TailMove, s: Shard): Shard {
    Shard([], [], NewLists(s.lists, FlushLog(move, s), NewestDels(s.dels)), s.intact && Intact(move, s))
  }

  /** The postings of a word a shard stands for: on disk and not deleted, or pending and not
      superseded. */
  function View(s: Shard, wrd: nat): seq<Crd> {
    KeepCrds(OldList(s.lists, wrd), s.dels) + CrdsFor(Survivors(s.words, s.dels), wrd)
  }

  // ---------- a flush changes nothing ----------

  lemma {:induction false} SurvivorsCount(words: seq<LogWord>, dels: seq<LogDel>)
    ensures forall x :: multiset(Survivors(words, dels))[x] == if Fresh(x, dels) then multiset(words)[x] else 0
  {
    hide Fresh;
    if words == [] {
    } else {
      SurvivorsCount(words[..|words| - 1], dels);
      assert words == words[..|words| - 1] + [words[|words| - 1]];
    }
  }

  /** The postings of a word do not depend on the order of the log. */
  lemma {:induction false} CrdsForPermuted(a: seq<LogWord>, b: seq<LogWord>, wrd: nat)
    requires multiset(a) == multiset(b)
    ensures multiset(CrdsFor(a, wrd)) == multiset(CrdsFor(b, wrd))
  {
    if a == [] {
      assert |b| == |multiset(b)| == 0;
    } else {
      var x := a[|a| - 1];
      assert a == a[..|a| - 1] + [x];
      assert x in multiset(b);
      var k :| 0 <= k < |b| && b[k] == x;
      var before, after := b[..k], b[k + 1..];
      assert b == before + ([x] + after);
      assert multiset(b) == multiset(before) + multiset{x} + multiset(after);
      assert multiset(before + after) == multiset(before) + multiset(after);
      assert multiset(a[..|a| - 1]) == multiset(a) - multiset{x};
      CrdsForPermuted(a[..|a| - 1], before + after, wrd);
      hide CrdsFor;
      CrdsForSplit(a[..|a| - 1], [x], wrd);
      CrdsForSplit(before, [x] + after, wrd);
      CrdsForSplit([x], after, wrd);
      CrdsForSplit(before, after, wrd);
    }
  }

  lemma {:induction false} KeepSame(crds: seq<Crd>, a: seq<LogDel>, b: seq<LogDel>)
    requires forall url :: Deleted(url, a) <==> Deleted(url, b)
    ensures KeepCrds(crds, a) == KeepCrds(crds, b)
  {
    hide Deleted;
    if crds == [] {
    } else {
      KeepSame(crds[..|crds| - 1], a, b);
    }
  }

  lemma SortedIsOrdered(s: Shard)
    ensures UrlsAscend(Sort(UrlLe, s.words))
  {
    OrdersAreTotal();
    SortOrdered(UrlLe, s.words);
    var sorted := Sort(UrlLe, s.words);
    hide Sort;
    forall i, j | 0 <= i < j < |sorted| ensures sorted[i].url <= sorted[j].url {
      assert UrlLe(sorted[i], sorted[j]);
    }
  }

  /** What is flushed is a permutation of the surviving pending words. */
  lemma FlushLogIsSurvivors(move: TailMove, s: Shard)
    requires Intact(move, s)
    ensures multiset(FlushLog(move, s)) == multiset(Survivors(s.words, s.dels))
  {
    hide Sort, NewestDels, Survivors, Fresh, RemoveOld, NoTailMove, UrlLe, WrdLe, OnePerUrl, UrlsAscend;
    var sorted, dels := Sort(UrlLe, s.words), NewestDels(s.dels);
    SortedIsOrdered(s);
    NewestDelsSame(s.dels);
    RemoveOldIsSurvivors(move, sorted, dels);
    SurvivorsPermuted(sorted, s.words, dels, s.dels);
  }

  lemma SurvivorsPermuted(a: seq<LogWord>, b: seq<LogWord>, adels: seq<LogDel>, bdels: seq<LogDel>)
    requires multiset(a) == multiset(b) && forall w :: Fresh(w, adels) <==> Fresh(w, bdels)
    ensures multiset(Survivors(a, adels)) == multiset(Survivors(b, bdels))
  {
    SurvivorsCount(a, adels);
    SurvivorsCount(b, bdels);
    hide Survivors, Fresh;
  }

  lemma FlushLogOrdered(move: TailMove, s: Shard)
    ensures LogOrdered(FlushLog(move, s))
  {
    var kept := RemoveOld(move, Sort(UrlLe, s.words), NewestDels(s.dels));
    WrdLeIsTotal();
    SortOrdered(WrdLe, kept);
    var log := Sort(WrdLe, kept);
    hide Sort;
    forall i, j | 0 <= i < j < |log| ensures WrdLe(log[i], log[j]) { }
  }

  lemma WrdLeIsTotal()
    ensures TotalPreorder(WrdLe)
  {
  }

  // ---------- the order of equal entries does not matter ----------

  /** An ordered list is determined by its entries. */
  lemma CrdsUnique(a: seq<Crd>, b: seq<Crd>)
    requires CrdsAscend(a) && CrdsAscend(b) && multiset(a) == multiset(b)
    ensures a == b
  {
    OrderedUnique(CrdLe, a, b);
  }

  lemma DelsUnique(a: seq<LogDel>, b: seq<LogDel>)
    requires DelsAscend(a) && DelsAscend(b) && multiset(a) == multiset(b)
    ensures a == b
  {
    OrderedUnique(DelLe, a, b);
  }

  /** Two ordered logs with the same entries give the same lists. */
  lemma OrderedLogsAlike(lists: Lists, a: seq<LogWord>, b: seq<LogWord>, dels: seq<LogDel>)
    requires LogOrdered(a) && LogOrdered(b) && multiset(a) == multiset(b)
    ensures NewLists(lists, a, dels) == NewLists(lists, b, dels)
  {
    hide CrdsFor, CrdsAscend, LogOrdered, NewLists, WordsOf;
    forall w ensures CrdsFor(a, w) == CrdsFor(b, w) {
      CrdsForPermuted(a, b, w);
      CrdsForAscends(a, w);
      CrdsForAscends(b, w);
      CrdsUnique(CrdsFor(a, w), CrdsFor(b, w));
    }
    SameWords(a, b);
    SameNewLists(lists, a, b, dels);
  }

  lemma SameNewLists(lists: Lists, a: seq<LogWord>, b: seq<LogWord>, dels: seq<LogDel>)
    requires WordsOf(a) == WordsOf(b) && forall w :: CrdsFor(a, w) == CrdsFor(b, w)
    ensures NewLists(lists, a, dels) == NewLists(lists, b, dels)
  {
    hide CrdsFor, KeepCrds, Merge, WordsOf;
  }

  lemma SameWords(a: seq<LogWord>, b: seq<LogWord>)
    requires multiset(a) == multiset(b)
    ensures WordsOf(a) == WordsOf(b)
  {
    forall x ensures x in a <==> x in b {
      assert x in a <==> x in multiset(a);
      assert x in b <==> x in multiset(b);
    }
    forall w ensures HasWord(a, w) <==> HasWord(b, w) {
      SameWord(a, b, w);
      SameWord(b, a, w);
    }
  }

  lemma SameWord(a: seq<LogWord>, b: seq<LogWord>, w: nat)
    requires forall x :: x in a <==> x in b
    ensures HasWord(a, w) ==> HasWord(b, w)
  {
    if HasWord(a, w) {
      var k :| 0 <= k < |a| && a[k].wrd == w;
      assert a[k] in b;
    }
  }

  /** However the three sorts of a flush order entries that compare equal, the lists are the same:
      always when the tail of the log moves by whole records or does not move, and otherwise when no
      two pending words compare equal. */
  lemma AnySortWillDo(move: TailMove, s: Shard, dels: seq<LogDel>, words: seq<LogWord>, log: seq<LogWord>)
    requires multiset(dels) == multiset(s.dels) && DelsAscend(dels)
    requires multiset(words) == multiset(s.words) && Ordered(UrlLe, words)
    requires Intact(move, s) || NoTies(UrlLe, s.words)
    requires multiset(log) == multiset(RemoveOld(move, words, LastPerUrl(dels))) && LogOrdered(log)
    ensures NewLists(s.lists, log, LastPerUrl(dels)) == Flush(move, s).lists
  {
    SortedDels(s);
    DelsUnique(dels, Sort(DelLe, s.dels));
    FlushLogOrdered(move, s);
    if Intact(move, s) {
      SameSurvivors(move, s, words);
    } else {
      WordsUnique(s, words);
    }
    hide FlushLog, RemoveOld, Survivors, LastPerUrl, Sort, NewLists, LogOrdered, Intact, Ordered, NoTies;
    assert multiset(log) == multiset(FlushLog(move, s)) by { FlushLogHolds(move, s); }
    OrderedLogsAlike(s.lists, log, FlushLog(move, s), LastPerUrl(dels));
  }

  lemma FlushLogHolds(move: TailMove, s: Shard)
    ensures multiset(FlushLog(move, s)) == multiset(RemoveOld(move, Sort(UrlLe, s.words), NewestDels(s.dels)))
  {
  }

  lemma SameSurvivors(move: TailMove, s: Shard, words: seq<LogWord>)
    requires multiset(words) == multiset(s.words) && Ordered(UrlLe, words) && Intact(move, s)
    ensures var dels := NewestDels(s.dels);
      multiset(RemoveOld(move, words, dels)) == multiset(RemoveOld(move, Sort(UrlLe, s.words), dels))
  {
    var dels := NewestDels(s.dels);
    NewestDelsSame(s.dels);
    OrderedByUrl(words);
    SortedIsOrdered(s);
    TailStaysPermuted(move, s, words);
    hide RemoveOld, Survivors, NewestDels, Sort, NoTailMove, Ordered, Fresh;
    RemoveOldIsSurvivors(move, words, dels);
    RemoveOldIsSurvivors(move, Sort(UrlLe, s.words), dels);
    SurvivorsPermuted(words, Sort(UrlLe, s.words), dels, dels);
  }

  lemma WordsUnique(s: Shard, words: seq<LogWord>)
    requires multiset(words) == multiset(s.words) && Ordered(UrlLe, words) && NoTies(UrlLe, s.words)
    ensures words == Sort(UrlLe, s.words)
  {
    OrdersAreTotal();
    SortOrdered(UrlLe, s.words);
    hide Sort;
    forall x | x in words ensures x in s.words {
      assert x in multiset(words);
      assert x in multiset(s.words);
    }
    OrderedUnique(UrlLe, words, Sort(UrlLe, s.words));
  }

  lemma TailStaysPermuted(move: TailMove, s: Shard, words: seq<LogWord>)
    requires multiset(words) == multiset(s.words) && UrlsAscend(words)
    ensures Intact(move, s) <==> move.WholeRecords? || NoTailMove(words, NewestDels(s.dels))
  {
    var sorted := Sort(UrlLe, s.words);
    SortedIsOrdered(s);
    NoTailMoveMeans(sorted, NewestDels(s.dels));
    NoTailMoveMeans(words, NewestDels(s.dels));
    assert multiset(sorted) == multiset(words);
    hide Sort, NoTailMove, NewestDels, Fresh;
    forall x ensures x in sorted <==> x in words {
      assert x in sorted <==> x in multiset(sorted);
      assert x in words <==> x in multiset(words);
    }
  }

  lemma SortedDels(s: Shard)
    ensures DelsAscend(Sort(DelLe, s.dels))
  {
    OrdersAreTotal();
    SortOrdered(DelLe, s.dels);
    var sorted := Sort(DelLe, s.dels);
    hide Sort;
    forall i, j | 0 <= i < j < |sorted| ensures DelLe(sorted[i], sorted[j]) { }
  }

  lemma OrderedByUrl(words: seq<LogWord>)
    requires Ordered(UrlLe, words)
    ensures UrlsAscend(words)
  {
    forall i, j | 0 <= i < j < |words| ensures words[i].url <= words[j].url {
      assert UrlLe(words[i], words[j]);
    }
  }

  // ---------- one flush ----------

  /** One flush is exact: every list is ordered, and holds the old postings of urls that are not
      deleted and the pending words that no delete supersedes. */
  lemma FlushIsExact(move: TailMove, s: Shard, wrd: nat)
    requires ListsOk(s.lists) && Intact(move, s)
    ensures var list := OldList(Flush(move, s).lists, wrd);
      CrdsAscend(list) && multiset(list) == multiset(View(s, wrd))
  {
    var log, dels := FlushLog(move, s), NewestDels(s.dels);
    FlushLogOrdered(move, s);
    NewListsOk(s.lists, log, dels);
    FlushLogIsSurvivors(move, s);
    NewestDelsSame(s.dels);
    KeepSame(OldList(s.lists, wrd), dels, s.dels);
    CrdsForPermuted(log, Survivors(s.words, s.dels), wrd);
    hide FlushLog, NewestDels, Survivors, CrdsFor, KeepCrds, Fresh, Deleted, Merge, Intact, LogOrdered, CrdsAscend;
    NewListsHold(s.lists, log, dels, wrd);
  }

  /** The order of a list on disk, spelled out: by url, and by coordinate within a url. */
  lemma FlushedListOrdered(move: TailMove, s: Shard, wrd: nat, i: nat, j: nat)
    requires ListsOk(s.lists) && i < j < |OldList(Flush(move, s).lists, wrd)|
    ensures var list := OldList(Flush(move, s).lists, wrd);
      list[i].url < list[j].url || (list[i].url == list[j].url && list[i].coord <= list[j].coord)
  {
    FlushKeepsOrder(move, s);
    hide Flush;
  }

  /** The postings of a list after a flush, spelled out: those of the old list whose url has no pending
      delete, and those of pending words that no pending delete of their url is newer than. */
  lemma FlushedListHolds(move: TailMove, s: Shard, wrd: nat, c: Crd)
    requires ListsOk(s.lists) && Intact(move, s)
    ensures c in OldList(Flush(move, s).lists, wrd) <==>
      ((c in OldList(s.lists, wrd) && forall i | 0 <= i < |s.dels| :: s.dels[i].url != c.url)
       || exists k :: 0 <= k < |s.words| && s.words[k].wrd == wrd
            && s.words[k].url == c.url && s.words[k].coord == c.coord
            && forall i | 0 <= i < |s.dels| :: s.dels[i].url == c.url ==> s.dels[i].stamp <= s.words[k].stamp)
  {
    hide Flush, Intact, ListsOk, KeepCrds, CrdsFor, Survivors, OldList;
    FlushedMembers(move, s, wrd, c);
    KeepHolds(OldList(s.lists, wrd), s.dels, c);
    PendingHolds(s.words, s.dels, wrd, c);
  }

  lemma FlushedMembers(move: TailMove, s: Shard, wrd: nat, c: Crd)
    requires ListsOk(s.lists) && Intact(move, s)
    ensures c in OldList(Flush(move, s).lists, wrd) <==>
      c in KeepCrds(OldList(s.lists, wrd), s.dels) || c in CrdsFor(Survivors(s.words, s.dels), wrd)
  {
    hide Flush, Intact, ListsOk, KeepCrds, CrdsFor, Survivors, OldList, CrdsAscend;
    FlushIsExact(move, s, wrd);
    var list, view := OldList(Flush(move, s).lists, wrd), View(s, wrd);
    assert c in list <==> c in multiset(list);
    assert c in view <==> c in multiset(view);
  }

  lemma PendingHolds(words: seq<LogWord>, dels: seq<LogDel>, wrd: nat, c: Crd)
    ensures c in CrdsFor(Survivors(words, dels), wrd) <==>
      exists k :: 0 <= k < |words| && words[k].wrd == wrd && words[k].url == c.url && words[k].coord == c.coord
        && forall i | 0 <= i < |dels| :: dels[i].url == c.url ==> dels[i].stamp <= words[k].stamp
  {
    CrdsForHolds(Survivors(words, dels), wrd, c);
    SurvivorsHold(words, dels);
    hide CrdsFor, Survivors;
    if w :| w in Survivors(words, dels) && w.wrd == wrd && CrdOf(w) == c {
      var k :| 0 <= k < |words| && words[k] == w;
      assert words[k].url == c.url && Fresh(words[k], dels);
    }
    forall k | 0 <= k < |words| && words[k].wrd == wrd && words[k].url == c.url && words[k].coord == c.coord
      && forall i | 0 <= i < |dels| :: dels[i].url == c.url ==> dels[i].stamp <= words[k].stamp
      ensures c in CrdsFor(Survivors(words, dels), wrd)
    {
      assert words[k] in words && Fresh(words[k], dels) && CrdOf(words[k]) == c;
    }
  }

  lemma {:induction false} KeepHolds(crds: seq<Crd>, dels: seq<LogDel>, c: Crd)
    ensures c in KeepCrds(crds, dels) <==> c in crds && forall i | 0 <= i < |dels| :: dels[i].url != c.url
  {
    if crds != [] {
      KeepHolds(crds[..|crds| - 1], dels, c);
      assert crds == crds[..|crds| - 1] + [crds[|crds| - 1]];
    }
  }

  lemma {:induction false} CrdsForHolds(log: seq<LogWord>, wrd: nat, c: Crd)
    ensures c in CrdsFor(log, wrd) <==> exists w :: w in log && w.wrd == wrd && CrdOf(w) == c
  {
    if log != [] {
      CrdsForHolds(log[..|log| - 1], wrd, c);
      assert log == log[..|log| - 1] + [log[|log| - 1]];
    }
  }

  lemma SurvivorsHold(words: seq<LogWord>, dels: seq<LogDel>)
    ensures forall w :: w in Survivors(words, dels) <==> w in words && Fresh(w, dels)
  {
    SurvivorsCount(words, dels);
    hide Survivors, Fresh;
    forall w ensures w in Survivors(words, dels) <==> w in words && Fresh(w, dels) {
      assert w in Survivors(words, dels) <==> multiset(Survivors(words, dels))[w] > 0;
      assert w in words <==> multiset(words)[w] > 0;
    }
  }

  lemma NewListsHold(lists: Lists, log: seq<LogWord>, dels: seq<LogDel>, wrd: nat)
    ensures OldList(NewLists(lists, log, dels), wrd) == NewList(lists, log, dels, wrd)
  {
    hide KeepCrds, CrdsFor, Merge;
    if wrd !in lists.Keys + WordsOf(log) {
      Untouched(lists, log, dels, wrd);
      assert KeepCrds([], dels) == [] by { NothingDeletedIn(dels); }
    }
  }

  lemma NothingDeletedIn(dels: seq<LogDel>)
    ensures KeepCrds([], dels) == []
  {
  }

  /** Flushing keeps the view. */
  lemma FlushKeepsView(move: TailMove, s: Shard, wrd: nat)
    requires ListsOk(s.lists) && Intact(move, s)
    ensures multiset(View(Flush(move, s), wrd)) == multiset(View(s, wrd))
  {
    FlushIsExact(move, s, wrd);
    var f := Flush(move, s);
    hide Flush, Intact, CrdsAscend, ListsOk;
    assert f.words == [] && f.dels == [] by { FlushEmpties(move, s); }
    ViewOfFlushed(f, wrd);
  }

  lemma FlushEmpties(move: TailMove, s: Shard)
    ensures Flush(move, s).words == [] && Flush(move, s).dels == []
  {
  }

  lemma ViewOfFlushed(s: Shard, wrd: nat)
    requires s.words == [] && s.dels == []
    ensures View(s, wrd) == OldList(s.lists, wrd)
  {
    var list := OldList(s.lists, wrd);
    hide OldList;
    assert KeepCrds(list, []) == list by {
      forall i | 0 <= i < |list| ensures !Deleted(list[i].url, []) { }
      AllKept(list);
    }
  }

  lemma {:induction false} AllKept(crds: seq<Crd>)
    ensures KeepCrds(crds, []) == crds
  {
    if crds == [] {
    } else {
      AllKept(crds[..|crds| - 1]);
    }
  }

  lemma FlushKeepsOrder(move: TailMove, s: Shard)
    requires ListsOk(s.lists)
    ensures ListsOk(Flush(move, s).lists)
  {
    hide ListsOk, LogOrdered, FlushLog, NewLists, NewestDels, Intact;
    FlushLogOrdered(move, s);
    NewListsOk(s.lists, FlushLog(move, s), NewestDels(s.dels));
  }

  // ---------- one entry appended to a buffer ----------

  /** The postings without those of one url. */
  function Erase(crds: seq<Crd>, url: nat): seq<Crd> {
    if crds == [] then []
    else
      var c := crds[|crds| - 1];
      Erase(crds[..|crds| - 1], url) + (if c.url == url then [] else [c])
  }

  lemma {:induction false} EraseCount(crds: seq<Crd>, url: nat)
    ensures forall c :: multiset(Erase(crds, url))[c] == if c.url == url then 0 else multiset(crds)[c]
  {
    if crds == [] {
    } else {
      EraseCount(crds[..|crds| - 1], url);
      assert crds == crds[..|crds| - 1] + [crds[|crds| - 1]];
    }
  }

  lemma ErasePermuted(a: seq<Crd>, b: seq<Crd>, url: nat)
    requires multiset(a) == multiset(b)
    ensures multiset(Erase(a, url)) == multiset(Erase(b, url))
  {
    EraseCount(a, url);
    EraseCount(b, url);
  }

  lemma {:induction false} EraseSplit(a: seq<Crd>, b: seq<Crd>, url: nat)
    ensures Erase(a + b, url) == Erase(a, url) + Erase(b, url)
  {
    if b == [] {
      assert a + b == a;
    } else {
      EraseSplit(a, b[..|b| - 1], url);
      assert (a + b)[..|a + b| - 1] == a + b[..|b| - 1];
    }
  }

  lemma FreshOneMore(w: LogWord, dels: seq<LogDel>, d: LogDel)
    ensures Fresh(w, dels + [d]) <==> Fresh(w, dels) && (d.url == w.url ==> d.stamp <= w.stamp)
  {
    var more := dels + [d];
    if Fresh(w, more) {
      forall i | 0 <= i < |dels| && dels[i].url == w.url ensures dels[i].stamp <= w.stamp {
        assert more[i] == dels[i];
      }
      assert more[|dels|] == d;
    }
  }

  lemma DeletedOneMore(url: nat, dels: seq<LogDel>, d: LogDel)
    ensures Deleted(url, dels + [d]) <==> Deleted(url, dels) || d.url == url
  {
    var more := dels + [d];
    if Deleted(url, dels) {
      var i :| 0 <= i < |dels| && dels[i].url == url;
      assert more[i].url == url;
    }
    if d.url == url {
      assert more[|dels|].url == url;
    }
  }

  lemma {:induction false} KeepOneMore(crds: seq<Crd>, dels: seq<LogDel>, d: LogDel)
    ensures KeepCrds(crds, dels + [d]) == Erase(KeepCrds(crds, dels), d.url)
  {
    hide Deleted;
    if crds == [] {
    } else {
      var init, c := crds[..|crds| - 1], crds[|crds| - 1];
      KeepOneMore(init, dels, d);
      DeletedOneMore(c.url, dels, d);
      EraseLast(KeepCrds(init, dels), c, d.url);
      hide Erase;
    }
  }

  /** Words of d's url that are pending, not superseded, and not older than d: a delete does not
      reach them. */
  predicate Outlives(words: seq<LogWord>, dels: seq<LogDel>, d: LogDel, wrd: nat) {
    exists k :: 0 <= k < |words| && words[k].wrd == wrd && words[k].url == d.url && d.stamp <= words[k].stamp
      && Fresh(words[k], dels)
  }

  lemma {:induction false} SurvivorsOneMore(words: seq<LogWord>, dels: seq<LogDel>, d: LogDel, wrd: nat)
    ensures
      var now := CrdsFor(Survivors(words, dels + [d]), wrd);
      var erased := Erase(CrdsFor(Survivors(words, dels), wrd), d.url);
      if Outlives(words, dels, d, wrd) then |now| > |erased| else now == erased
    ensures |CrdsFor(Survivors(words, dels + [d]), wrd)| >= |Erase(CrdsFor(Survivors(words, dels), wrd), d.url)|
  {
    if words == [] {
    } else {
      var init, w := words[..|words| - 1], words[|words| - 1];
      SurvivorsOneMore(init, dels, d, wrd);
      OutlivesOneMore(words, dels, d, wrd);
      FreshOneMore(w, dels, d);
      hide Outlives, Fresh;
      OneMorePending(Survivors(init, dels), w, Fresh(w, dels), wrd);
      OneMorePending(Survivors(init, dels + [d]), w, Fresh(w, dels + [d]), wrd);
      hide CrdsFor;
      EraseLast(CrdsFor(Survivors(init, dels), wrd), CrdOf(w), d.url);
    }
  }

  lemma OneMorePending(kept: seq<LogWord>, w: LogWord, isFresh: bool, wrd: nat)
    ensures CrdsFor(kept + (if isFresh then [w] else []), wrd)
         == CrdsFor(kept, wrd) + (if isFresh && w.wrd == wrd then [CrdOf(w)] else [])
  {
    if isFresh {
      assert (kept + [w])[..|kept|] == kept;
    } else {
      assert kept + [] == kept;
    }
  }

  lemma EraseLast(crds: seq<Crd>, c: Crd, url: nat)
    ensures Erase(crds + [c], url) == Erase(crds, url) + (if c.url == url then [] else [c])
    ensures Erase(crds + [], url) == Erase(crds, url)
  {
    assert (crds + [c])[..|crds|] == crds;
    assert crds + [] == crds;
  }

  lemma OutlivesOneMore(words: seq<LogWord>, dels: seq<LogDel>, d: LogDel, wrd: nat)
    requires words != []
    ensures var w := words[|words| - 1];
      Outlives(words, dels, d, wrd) <==> (Outlives(words[..|words| - 1], dels, d, wrd)
        || (w.wrd == wrd && w.url == d.url && d.stamp <= w.stamp && Fresh(w, dels)))
  {
    hide Fresh;
    var init := words[..|words| - 1];
    if Outlives(init, dels, d, wrd) {
      var k :| 0 <= k < |init| && init[k].wrd == wrd && init[k].url == d.url && d.stamp <= init[k].stamp
        && Fresh(init[k], dels);
      assert words[k] == init[k];
    }
    if Outlives(words, dels, d, wrd) {
      var k :| 0 <= k < |words| && words[k].wrd == wrd && words[k].url == d.url && d.stamp <= words[k].stamp
        && Fresh(words[k], dels);
      assert k < |init| ==> init[k] == words[k];
    }
  }

  /** A buffered delete erases its url from a word exactly when no pending word is as new. */
  lemma BufferedDeleteExact(s: Shard, d: LogDel, wrd: nat)
    ensures multiset(View(s.(dels := s.dels + [d]), wrd)) == multiset(Erase(View(s, wrd), d.url))
       <==> !Outlives(s.words, s.dels, d, wrd)
  {
    var disk, pending := KeepCrds(OldList(s.lists, wrd), s.dels), CrdsFor(Survivors(s.words, s.dels), wrd);
    KeepOneMore(OldList(s.lists, wrd), s.dels, d);
    SurvivorsOneMore(s.words, s.dels, d, wrd);
    EraseSplit(disk, pending, d.url);
    hide KeepCrds, CrdsFor, Survivors, Erase, Outlives;
    var now := CrdsFor(Survivors(s.words, s.dels + [d]), wrd);
    assert |multiset(Erase(disk, d.url) + now)| == |Erase(disk, d.url)| + |now|;
    assert |multiset(Erase(disk, d.url) + Erase(pending, d.url))| == |Erase(disk, d.url)| + |Erase(pending, d.url)|;
  }

  /** A buffered word counts exactly when no pending delete of its url is newer. */
  lemma BufferedWordExact(s: Shard, w: LogWord, wrd: nat)
    ensures View(s.(words := s.words + [w]), wrd)
         == View(s, wrd) + (if w.wrd == wrd && Fresh(w, s.dels) then [CrdOf(w)] else [])
  {
    assert (s.words + [w])[..|s.words|] == s.words;
    OneMorePending(Survivors(s.words, s.dels), w, Fresh(w, s.dels), wrd);
    hide CrdsFor, KeepCrds, OldList, Fresh;
    var disk, pending := KeepCrds(OldList(s.lists, wrd), s.dels), CrdsFor(Survivors(s.words, s.dels), wrd);
    var more := if w.wrd == wrd && Fresh(w, s.dels) then [CrdOf(w)] else [];
    assert disk + (pending + more) == (disk + pending) + more;
  }
}
