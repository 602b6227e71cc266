/** The two-pointer passes of src/cache.c over url-sorted arrays. */
module LogPasses {
  import opened LogClean

  /** Deletes before `start` are for smaller urls than u. */
  ghost predicate Behind(dels: seq<LogDel>, start: nat, u: nat) {
    forall m | 0 <= m < start && m < |dels| :: dels[m].url < u
  }

  function WordUrls(words: seq<LogWord>): (urls: seq<nat>)
    ensures |urls| == |words| && forall k | 0 <= k < |words| :: urls[k] == words[k].url
  {
    seq(|words|, k requires 0 <= k < |words| => words[k].url)
  }

  function CrdUrls(crds: seq<Crd>): (urls: seq<nat>)
    ensures |urls| == |crds| && forall k | 0 <= k < |crds| :: urls[k] == crds[k].url
  {
    seq(|crds|, k requires 0 <= k < |crds| => crds[k].url)
  }

  ghost predicate Ascend(urls: seq<nat>) {
    forall i, j | 0 <= i < j < |urls| :: urls[i] <= urls[j]
  }

  /** The read pointer stands at the first url not below the current delete's. */
  ghost predicate AtDelete(urls: seq<nat>, dels: seq<LogDel>, start: nat, i: nat) {
    && start < |dels| && i <= |urls|
    && (forall k | 0 <= k < i :: urls[k] < dels[start].url)
    && (i < |urls| ==> urls[i] >= dels[start].url)
  }

  /** The read pointer stands at the first url beyond the given one. */
  ghost predicate Beyond(urls: seq<nat>, last: nat, i: nat) {
    && i <= |urls|
    && (forall k | 0 <= k < i :: urls[k] <= last)
    && (i < |urls| ==> urls[i] > last)
  }

  /** The deletes before `start` are all behind the read pointer. */
  ghost predicate Caught(urls: seq<nat>, dels: seq<LogDel>, start: nat, i: nat) {
    && i <= |urls| && start <= |dels|
    && (i < |urls| ==> Behind(dels, start, urls[i]))
    && (start > 0 ==> Beyond(urls, dels[start - 1].url, i))
    && (start == 0 ==> i == 0)
  }

  lemma AfterSkip(urls: seq<nat>, dels: seq<LogDel>, start: nat, i0: nat, i: nat)
    requires Ascend(urls) && OnePerUrl(dels) && AtDelete(urls, dels, start, i0) && i0 <= i <= |urls|
    requires (forall k | i0 <= k < i :: urls[k] == dels[start].url) && (i < |urls| ==> urls[i] != dels[start].url)
    ensures Caught(urls, dels, start + 1, i)
    ensures i == |urls| ==> Beyond(urls, dels[|dels| - 1].url, i)
  {
    assert i < |urls| && i0 < i ==> urls[i0] <= urls[i];
    assert start < |dels| - 1 ==> dels[start].url < dels[|dels| - 1].url;
  }

  lemma AfterKeep(urls: seq<nat>, dels: seq<LogDel>, start: nat, i0: nat, i: nat)
    requires OnePerUrl(dels) && start < |dels| && Caught(urls, dels, start, i0) && i0 <= i <= |urls|
    requires (forall k | i0 <= k < i :: urls[k] < dels[start].url) && (i < |urls| ==> urls[i] >= dels[start].url)
    ensures AtDelete(urls, dels, start, i)
  {
    assert start > 0 ==> dels[start - 1].url < dels[start].url;
  }

  lemma FreshAtDelete(w: LogWord, dels: seq<LogDel>, start: nat)
    requires OnePerUrl(dels) && start < |dels| && dels[start].url == w.url
    ensures Fresh(w, dels) <==> dels[start].stamp <= w.stamp
  {
  }

  lemma FreshBetween(w: LogWord, dels: seq<LogDel>, start: nat)
    requires OnePerUrl(dels) && start <= |dels| && Behind(dels, start, w.url)
    requires start < |dels| ==> w.url < dels[start].url
    ensures Fresh(w, dels)
  {
  }

  lemma WordBetween(before: seq<LogWord>, dels: seq<LogDel>, start: nat, i0: nat, i: nat)
    requires OnePerUrl(dels) && UrlsAscend(before) && Caught(WordUrls(before), dels, start, i0) && start < |dels|
    requires i0 <= i < |before| && before[i].url < dels[start].url
    ensures Fresh(before[i], dels)
  {
    assert Behind(dels, start, WordUrls(before)[i0]);
    assert before[i0].url <= before[i].url;
    FreshBetween(before[i], dels, start);
  }

  lemma SurvivorStep(words: seq<LogWord>, dels: seq<LogDel>, i: nat)
    requires i < |words|
    ensures Survivors(words[..i + 1], dels)
         == Survivors(words[..i], dels) + (if Fresh(words[i], dels) then [words[i]] else [])
  {
    assert words[..i + 1][..i] == words[..i];
  }

  /** i words are read and j of them kept in front; nothing at or after j has been overwritten. */
  ghost predicate Compacted(now: seq<LogWord>, before: seq<LogWord>, dels: seq<LogDel>, i: nat, j: nat) {
    && |now| == |before| && j <= i <= |before|
    && now[..j] == Survivors(before[..i], dels)
    && now[j..] == before[j..]
  }

  lemma CompactStep(now: seq<LogWord>, now': seq<LogWord>, before: seq<LogWord>, dels: seq<LogDel>, i: nat, j: nat)
    requires Compacted(now, before, dels, i, j) && i < |before|
    requires now' == if Fresh(before[i], dels) then now[j := before[i]] else now
    ensures Compacted(now', before, dels, i + 1, if Fresh(before[i], dels) then j + 1 else j)
  {
    SurvivorStep(before, dels, i);
    hide Survivors, Fresh;
    if Fresh(before[i], dels) {
      assert now'[..j + 1] == now[..j] + [before[i]];
      assert now'[j + 1..] == now[j..][1..];
      assert before[j..][1..] == before[j + 1..];
    }
  }

  lemma ReadUnchanged(now: seq<LogWord>, before: seq<LogWord>, dels: seq<LogDel>, i: nat, j: nat)
    requires Compacted(now, before, dels, i, j)
    ensures forall k | i <= k < |now| :: now[k] == before[k]
  {
    forall k | i <= k < |now| ensures now[k] == before[k] {
      assert now[k] == now[j..][k - j] && before[k] == before[j..][k - j];
    }
  }

  /** The words whose url equals the current delete's. */
  method SkipSuperseded(words: array<LogWord>, n: nat, d: LogDel, i0: nat, j0: nat,
                        ghost before: seq<LogWord>, ghost dels: seq<LogDel>, ghost start: nat)
    returns (i: nat, j: nat)
    requires n <= words.Length && OnePerUrl(dels) && start < |dels| && dels[start] == d
    requires |before| == n && UrlsAscend(before) && Compacted(words[..n], before, dels, i0, j0)
    requires AtDelete(WordUrls(before), dels, start, i0)
    modifies words
    ensures Compacted(words[..n], before, dels, i, j) && j <= i <= n
    ensures Caught(WordUrls(before), dels, start + 1, i)
    ensures i == n ==> Beyond(WordUrls(before), dels[|dels| - 1].url, i)
  {
    hide Compacted, Fresh, OnePerUrl, AtDelete, Caught, Beyond;
    assert Ascend(WordUrls(before));
    hide UrlsAscend, Ascend;
    i, j := i0, j0;
    CompactedBounds(words[..n], before, dels, i, j);
    while i < n && words[i].url == d.url
      invariant i0 <= i <= n && j <= i && Compacted(words[..n], before, dels, i, j)
      invariant forall k | i0 <= k < i :: before[k].url == d.url
    {
      ghost var now := words[..n];
      ReadUnchanged(now, before, dels, i, j);
      assert words[i] == now[i] == before[i];
      FreshAtDelete(words[i], dels, start);
      CompactStep(now, if Fresh(before[i], dels) then now[j := before[i]] else now, before, dels, i, j);
      if words[i].stamp >= d.stamp {
        if i != j {
          words[j] := words[i];
        }
        assert words[..n] == now[j := before[i]];
        j := j + 1;
      }
      i := i + 1;
    }
    ReadUnchanged(words[..n], before, dels, i, j);
    assert i < n ==> words[..n][i] == before[i];
    AfterSkip(WordUrls(before), dels, start, i0, i);
  }

  lemma CompactedBounds(now: seq<LogWord>, before: seq<LogWord>, dels: seq<LogDel>, i: nat, j: nat)
    requires Compacted(now, before, dels, i, j)
    ensures j <= i <= |before|
  {
  }

  /** The words whose url lies between the previous delete's and the current one's. */
  method KeepBetween(words: array<LogWord>, n: nat, d: LogDel, i0: nat, j0: nat,
                     ghost before: seq<LogWord>, ghost dels: seq<LogDel>, ghost start: nat)
    returns (i: nat, j: nat)
    requires n <= words.Length && OnePerUrl(dels) && start < |dels| && dels[start] == d
    requires |before| == n && UrlsAscend(before) && Compacted(words[..n], before, dels, i0, j0)
    requires Caught(WordUrls(before), dels, start, i0)
    modifies words
    ensures Compacted(words[..n], before, dels, i, j) && j <= i <= n
    ensures AtDelete(WordUrls(before), dels, start, i)
  {
    hide Compacted, Fresh, OnePerUrl, AtDelete, Caught, Behind, UrlsAscend;
    i, j := i0, j0;
    CompactedBounds(words[..n], before, dels, i, j);
    while i < n && words[i].url < d.url
      invariant i0 <= i <= n && j <= i && Compacted(words[..n], before, dels, i, j)
      invariant forall k | i0 <= k < i :: before[k].url < d.url
    {
      ghost var now := words[..n];
      ReadUnchanged(now, before, dels, i, j);
      assert words[i] == now[i] == before[i];
      WordBetween(before, dels, start, i0, i);
      CompactStep(now, now[j := before[i]], before, dels, i, j);
      if i != j {
        words[j] := words[i];
      }
      assert words[..n] == now[j := before[i]];
      j := j + 1;
      i := i + 1;
    }
    ReadUnchanged(words[..n], before, dels, i, j);
    assert i < n ==> words[..n][i] == before[i];
    AfterKeep(WordUrls(before), dels, start, i0, i);
  }

  lemma ReachIs(words: seq<LogWord>, last: nat, i: nat)
    requires Beyond(WordUrls(words), last, i)
    ensures Reach(words, last) == i
  {
    var r := Reach(words, last);
    hide Reach;
    var urls := WordUrls(words);
    assert forall k | 0 <= k < |urls| :: urls[k] == words[k].url;
  }

  /** DpsRemoveOldWords. */
  method RemoveOldWords(words: array<LogWord>, n: nat, del: seq<LogDel>, move: TailMove) returns (m: nat)
    requires n <= words.Length && UrlsAscend(words[..n]) && OnePerUrl(del)
    modifies words
    ensures m <= n && words[..m] == RemoveOld(move, old(words[..n]), del)
  {
    if |del| == 0 || n == 0 {
      return n;
    }
    ghost var before := words[..n];
    var i, j := DropSuperseded(words, n, del, before);
    hide Compacted, RemoveOld, MoveTail, Reach, UrlsAscend, OnePerUrl;
    CompactedBounds(words[..n], before, del, i, j);
    ReachIs(before, del[|del| - 1].url, i);
    RemoveOldParts(words[..n], before, del, i, j, move);
    if i < n {
      if j != i {
        MoveDown(words, n, j, i, move);
      }
      j := j + (n - i);
    }
    m := j;
  }

  /** The loop over the deletes: i words read, j kept, when the words or the deletes run out. */
  method DropSuperseded(words: array<LogWord>, n: nat, del: seq<LogDel>, ghost before: seq<LogWord>)
    returns (i: nat, j: nat)
    requires 0 < n <= words.Length && |del| > 0 && OnePerUrl(del) && before == words[..n] && UrlsAscend(before)
    modifies words
    ensures Compacted(words[..n], before, del, i, j) && Beyond(WordUrls(before), del[|del| - 1].url, i)
  {
    DropStart(WordUrls(before), del);
    assert before[..0] == [];
    hide UrlsAscend, OnePerUrl, Beyond, AtDelete, Caught;
    var start := 0;
    i, j := KeepBetween(words, n, del[0], 0, 0, before, del, 0);
    hide Compacted, WordUrls;
    while true
      invariant start < |del| && i <= n && j <= i
      invariant Compacted(words[..n], before, del, i, j) && AtDelete(WordUrls(before), del, start, i)
      decreases |del| - start
    {
      i, j := SkipSuperseded(words, n, del[start], i, j, before, del, start);
      if i == n {
        break;
      }
      start := start + 1;
      if start == |del| {
        CaughtLast(WordUrls(before), del, i);
        break;
      }
      i, j := KeepBetween(words, n, del[start], i, j, before, del, start);
    }
  }

  lemma DropStart(urls: seq<nat>, dels: seq<LogDel>)
    ensures Caught(urls, dels, 0, 0)
  {
  }

  lemma CaughtLast(urls: seq<nat>, dels: seq<LogDel>, i: nat)
    requires dels != [] && Caught(urls, dels, |dels|, i)
    ensures Beyond(urls, dels[|dels| - 1].url, i)
  {
  }

  /** What the pass returns, from where its two pointers end. */
  lemma RemoveOldParts(now: seq<LogWord>, before: seq<LogWord>, dels: seq<LogDel>, i: nat, j: nat, move: TailMove)
    requires before != [] && dels != [] && Compacted(now, before, dels, i, j)
    requires i == Reach(before, dels[|dels| - 1].url)
    ensures RemoveOld(move, before, dels)
         == if i == |before| then now[..j] else if i == j then now else MoveTail(move, now, j, i)
  {
    hide Reach;
    var kept := Survivors(before[..i], dels);
    assert now == kept + before[|kept|..] by { assert now == now[..j] + now[j..]; }
    if j == i {
      NoneDropped(before[..i], dels);
      assert before == before[..i] + before[i..];
    } else if i == |before| {
      assert MoveTail(move, now, j, i) == now[..j];
    }
  }

  /** The memmove at the end of DpsRemoveOldWords. */
  method MoveDown(words: array<LogWord>, n: nat, j: nat, i: nat, move: TailMove)
    requires j < i < n <= words.Length
    modifies words
    ensures words[..j + (n - i)] == MoveTail(move, old(words[..n]), j, i)
  {
    var count := n - i;
    forall k | j <= k < j + count {
      words[k] := if move.WholeRecords? then words[i + (k - j)]
                  else if count > 3 * (k - j) then CopyUnits(words[k], words[i + (k - j)], count - 3 * (k - j))
                  else words[k];
    }
  }

  // ---------- the same pass over postings ----------

  lemma KeepStep(crds: seq<Crd>, dels: seq<LogDel>, i: nat)
    requires i < |crds|
    ensures KeepCrds(crds[..i + 1], dels)
         == KeepCrds(crds[..i], dels) + (if Deleted(crds[i].url, dels) then [] else [crds[i]])
  {
    assert crds[..i + 1][..i] == crds[..i];
  }

  ghost predicate CrdsCompacted(now: seq<Crd>, before: seq<Crd>, dels: seq<LogDel>, i: nat, j: nat) {
    && |now| == |before| && j <= i <= |before|
    && now[..j] == KeepCrds(before[..i], dels)
    && now[j..] == before[j..]
  }

  lemma CrdsStep(now: seq<Crd>, now': seq<Crd>, before: seq<Crd>, dels: seq<LogDel>, i: nat, j: nat)
    requires CrdsCompacted(now, before, dels, i, j) && i < |before|
    requires now' == if Deleted(before[i].url, dels) then now else now[j := before[i]]
    ensures CrdsCompacted(now', before, dels, i + 1, if Deleted(before[i].url, dels) then j else j + 1)
  {
    KeepStep(before, dels, i);
    hide KeepCrds, Deleted;
    if !Deleted(before[i].url, dels) {
      assert now'[..j + 1] == now[..j] + [before[i]];
      assert now'[j + 1..] == now[j..][1..];
      assert before[j..][1..] == before[j + 1..];
    }
  }

  lemma CrdsUnread(now: seq<Crd>, before: seq<Crd>, dels: seq<LogDel>, i: nat, j: nat)
    requires CrdsCompacted(now, before, dels, i, j)
    ensures j <= i <= |before| && forall k | i <= k < |now| :: now[k] == before[k]
  {
    forall k | i <= k < |now| ensures now[k] == before[k] {
      assert now[k] == now[j..][k - j] && before[k] == before[j..][k - j];
    }
  }

  method SkipDeleted(words: array<Crd>, n: nat, url: nat, i0: nat, j: nat,
                     ghost before: seq<Crd>, ghost dels: seq<LogDel>, ghost start: nat)
    returns (i: nat)
    requires n <= words.Length && OnePerUrl(dels) && start < |dels| && dels[start].url == url
    requires |before| == n && CrdUrlsAscend(before) && CrdsCompacted(words[..n], before, dels, i0, j)
    requires AtDelete(CrdUrls(before), dels, start, i0)
    ensures CrdsCompacted(words[..n], before, dels, i, j) && j <= i <= n
    ensures Caught(CrdUrls(before), dels, start + 1, i)
    ensures i == n ==> Beyond(CrdUrls(before), dels[|dels| - 1].url, i)
  {
    HasDelete(dels, start);
    hide CrdsCompacted, Deleted, OnePerUrl, AtDelete, Caught, Beyond;
    assert Ascend(CrdUrls(before));
    hide CrdUrlsAscend, Ascend;
    i := i0;
    CrdsUnread(words[..n], before, dels, i, j);
    assert forall k | i <= k < n :: words[..n][k] == words[k];
    while i < n && words[i].url == url
      invariant i0 <= i <= n && CrdsCompacted(words[..n], before, dels, i, j)
      invariant forall k | i0 <= k < i :: before[k].url == url
    {
      CrdsStep(words[..n], words[..n], before, dels, i, j);
      i := i + 1;
    }
    CrdsUnread(words[..n], before, dels, i, j);
    AfterSkip(CrdUrls(before), dels, start, i0, i);
  }

  method KeepCrdsBetween(words: array<Crd>, n: nat, url: nat, i0: nat, j0: nat,
                         ghost before: seq<Crd>, ghost dels: seq<LogDel>, ghost start: nat)
    returns (i: nat, j: nat)
    requires n <= words.Length && OnePerUrl(dels) && start < |dels| && dels[start].url == url
    requires |before| == n && CrdUrlsAscend(before) && CrdsCompacted(words[..n], before, dels, i0, j0)
    requires Caught(CrdUrls(before), dels, start, i0)
    modifies words
    ensures CrdsCompacted(words[..n], before, dels, i, j) && j <= i <= n
    ensures AtDelete(CrdUrls(before), dels, start, i)
  {
    hide CrdsCompacted, Deleted, OnePerUrl, AtDelete, Caught, Behind, CrdUrlsAscend;
    i, j := i0, j0;
    CrdsUnread(words[..n], before, dels, i, j);
    while i < n && words[i].url < url
      invariant i0 <= i <= n && j <= i && CrdsCompacted(words[..n], before, dels, i, j)
      invariant forall k | i0 <= k < i :: before[k].url < url
    {
      ghost var now := words[..n];
      CrdsUnread(now, before, dels, i, j);
      assert words[i] == now[i] == before[i];
      CrdBetween(before, dels, start, i0, i);
      CrdsStep(now, now[j := before[i]], before, dels, i, j);
      if i != j {
        words[j] := words[i];
      }
      assert words[..n] == now[j := before[i]];
      j := j + 1;
      i := i + 1;
    }
    CrdsUnread(words[..n], before, dels, i, j);
    assert i < n ==> words[..n][i] == before[i];
    AfterKeep(CrdUrls(before), dels, start, i0, i);
  }

  lemma CrdBetween(before: seq<Crd>, dels: seq<LogDel>, start: nat, i0: nat, i: nat)
    requires OnePerUrl(dels) && CrdUrlsAscend(before) && Caught(CrdUrls(before), dels, start, i0) && start < |dels|
    requires i0 <= i < |before| && before[i].url < dels[start].url
    ensures !Deleted(before[i].url, dels)
  {
    assert Behind(dels, start, CrdUrls(before)[i0]);
    assert before[i0].url <= before[i].url;
    NotDeletedBetween(before[i].url, dels, start);
  }

  lemma NotDeletedBetween(url: nat, dels: seq<LogDel>, start: nat)
    requires OnePerUrl(dels) && start <= |dels| && Behind(dels, start, url)
    requires start < |dels| ==> url < dels[start].url
    ensures !Deleted(url, dels)
  {
  }

  /** RemoveOldCrds: the postings of deleted urls are gone, the others stay in order. */
  method RemoveOldCrds(words: array<Crd>, n: nat, del: seq<LogDel>) returns (m: nat)
    requires n <= words.Length && CrdUrlsAscend(words[..n]) && OnePerUrl(del)
    modifies words
    ensures m <= n && words[..m] == KeepCrds(old(words[..n]), del)
  {
    if |del| == 0 || n == 0 {
      NothingDeleted(words[..n], del);
      return n;
    }
    ghost var before := words[..n];
    var i, j := DropDeleted(words, n, del, before);
    hide CrdsCompacted, KeepCrds, Deleted;
    CrdsUnread(words[..n], before, del, i, j);
    BeyondNotDeleted(before, del, i);
    RestKept(words[..n], before, del, i, j);
    ghost var now := words[..n];
    if i < n {
      if j != i {
        MoveCrdsDown(words, n, j, i);
      }
      j := j + (n - i);
    }
    m := j;
    assert words[..m] == now[..m - (n - i)] + now[i..];
  }

  /** The memmove at the end of RemoveOldCrds. */
  method MoveCrdsDown(words: array<Crd>, n: nat, j: nat, i: nat)
    requires j < i < n <= words.Length
    modifies words
    ensures words[..j + (n - i)] == old(words[..n])[..j] + old(words[..n])[i..]
  {
    var count := n - i;
    forall k | j <= k < j + count {
      words[k] := words[i + (k - j)];
    }
  }

  lemma BeyondNotDeleted(crds: seq<Crd>, dels: seq<LogDel>, i: nat)
    requires CrdUrlsAscend(crds) && OnePerUrl(dels) && dels != [] && Beyond(CrdUrls(crds), dels[|dels| - 1].url, i)
    ensures forall k | i <= k < |crds| :: !Deleted(crds[k].url, dels)
  {
    forall k | i <= k < |crds| ensures !Deleted(crds[k].url, dels) {
      assert crds[i].url <= crds[k].url;
      forall m | 0 <= m < |dels| ensures dels[m].url <= dels[|dels| - 1].url { }
    }
  }

  method DropDeleted(words: array<Crd>, n: nat, del: seq<LogDel>, ghost before: seq<Crd>) returns (i: nat, j: nat)
    requires 0 < n <= words.Length && |del| > 0 && OnePerUrl(del) && before == words[..n] && CrdUrlsAscend(before)
    modifies words
    ensures CrdsCompacted(words[..n], before, del, i, j) && Beyond(CrdUrls(before), del[|del| - 1].url, i)
  {
    DropStart(CrdUrls(before), del);
    assert before[..0] == [];
    hide CrdUrlsAscend, OnePerUrl, Beyond, AtDelete, Caught;
    var start := 0;
    i, j := KeepCrdsBetween(words, n, del[0].url, 0, 0, before, del, 0);
    hide CrdsCompacted, CrdUrls;
    while true
      invariant start < |del| && i <= n && j <= i
      invariant CrdsCompacted(words[..n], before, del, i, j) && AtDelete(CrdUrls(before), del, start, i)
      decreases |del| - start
    {
      i := SkipDeleted(words, n, del[start].url, i, j, before, del, start);
      if i == n {
        break;
      }
      start := start + 1;
      if start == |del| {
        CaughtLast(CrdUrls(before), del, i);
        break;
      }
      i, j := KeepCrdsBetween(words, n, del[start].url, i, j, before, del, start);
    }
  }

  lemma HasDelete(dels: seq<LogDel>, start: nat)
    requires start < |dels|
    ensures Deleted(dels[start].url, dels)
  {
  }

  lemma {:induction false} NothingDeleted(crds: seq<Crd>, dels: seq<LogDel>)
    requires forall i | 0 <= i < |crds| :: !Deleted(crds[i].url, dels)
    ensures KeepCrds(crds, dels) == crds
  {
    if crds == [] {
    } else {
      NothingDeleted(crds[..|crds| - 1], dels);
    }
  }

  lemma {:induction false} KeepSplit(a: seq<Crd>, b: seq<Crd>, dels: seq<LogDel>)
    ensures KeepCrds(a + b, dels) == KeepCrds(a, dels) + KeepCrds(b, dels)
  {
    if b == [] {
      assert a + b == a;
    } else {
      KeepSplit(a, b[..|b| - 1], dels);
      assert (a + b)[..|a + b| - 1] == a + b[..|b| - 1];
    }
  }

  lemma RestKept(now: seq<Crd>, before: seq<Crd>, dels: seq<LogDel>, i: nat, j: nat)
    requires CrdsCompacted(now, before, dels, i, j)
    requires forall k | i <= k < |before| :: !Deleted(before[k].url, dels)
    ensures KeepCrds(before, dels) == now[..j] + now[i..]
  {
    CrdsUnread(now, before, dels, i, j);
    NothingDeleted(before[i..], dels);
    KeepSplit(before[..i], before[i..], dels);
    assert before[..i] + before[i..] == before;
    assert now[i..] == before[i..];
  }
}
