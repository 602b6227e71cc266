/** The buffers of the write-behind index and the passes that drop superseded entries. */
module LogClean {
  import opened Sorting

  /** DPS_LOGWORD, DPS_LOGDEL and DPS_URL_CRD. */
  datatype LogWord = LogWord(stamp: int, url: nat, wrd: nat, coord: nat)
  datatype LogDel = LogDel(stamp: int, url: nat)
  datatype Crd = Crd(url: nat, coord: nat)

  // ---------- what the passes mean ----------

  /** No delete of the word's url bears a later stamp. */
  predicate Fresh(w: LogWord, dels: seq<LogDel>) {
    forall i | 0 <= i < |dels| :: dels[i].url == w.url ==> dels[i].stamp <= w.stamp
  }

  predicate Deleted(url: nat, dels: seq<LogDel>) {
    exists i :: 0 <= i < |dels| && dels[i].url == url
  }

  /** The words that no pending delete supersedes, in order. */
  function Survivors(words: seq<LogWord>, dels: seq<LogDel>): (r: seq<LogWord>)
    ensures |r| <= |words|
  {
    if words == [] then []
    else
      var w := words[|words| - 1];
      Survivors(words[..|words| - 1], dels) + (if Fresh(w, dels) then [w] else [])
  }

  /** The postings whose url is not deleted, in order. */
  function KeepCrds(crds: seq<Crd>, dels: seq<LogDel>): (r: seq<Crd>)
    ensures |r| <= |crds|
  {
    if crds == [] then []
    else
      var c := crds[|crds| - 1];
      KeepCrds(crds[..|crds| - 1], dels) + (if Deleted(c.url, dels) then [] else [c])
  }

  /** DpsCmpurldellog: url, then stamp. */
  predicate DelLe(a: LogDel, b: LogDel) {
    a.url < b.url || (a.url == b.url && a.stamp <= b.stamp)
  }

  /** DpsCmplog: url, then the later stamp first. */
  predicate UrlLe(a: LogWord, b: LogWord) {
    a.url < b.url || (a.url == b.url && b.stamp <= a.stamp)
  }

  lemma OrdersAreTotal()
    ensures TotalPreorder(DelLe) && TotalPreorder(UrlLe)
  {
  }

  ghost predicate UrlsAscend(words: seq<LogWord>) {
    forall i, j | 0 <= i < j < |words| :: words[i].url <= words[j].url
  }

  ghost predicate CrdUrlsAscend(crds: seq<Crd>) {
    forall i, j | 0 <= i < j < |crds| :: crds[i].url <= crds[j].url
  }

  /** One delete per url, in url order. */
  ghost predicate OnePerUrl(dels: seq<LogDel>) {
    forall i, j | 0 <= i < j < |dels| :: dels[i].url < dels[j].url
  }

  // ---------- DpsRemoveDelLogDups ----------

  /** The last entry of each run of equal urls. */
  function LastPerUrl(dels: seq<LogDel>): (r: seq<LogDel>)
    ensures |r| <= |dels| && (dels != [] ==> r != [] && r[|r| - 1] == dels[|dels| - 1])
  {
    if |dels| <= 1 then dels
    else
      AddDel(LastPerUrl(dels[..|dels| - 1]), dels[|dels| - 1])
  }

  /** The next entry replaces the last one when it is for the same url. */
  function AddDel(r: seq<LogDel>, d: LogDel): (r': seq<LogDel>)
    requires r != []
    ensures |r| <= |r'| <= |r| + 1 && r'[|r'| - 1] == d
    ensures forall i | 0 <= i < |r'| - 1 :: r'[i] == r[i]
    ensures |r'| == |r| <==> r[|r| - 1].url == d.url
  {
    if r[|r| - 1].url == d.url then r[..|r| - 1] + [d] else r + [d]
  }

  method RemoveDelLogDups(words: array<LogDel>, n: nat) returns (m: nat)
    requires n <= words.Length
    modifies words
    ensures n == 0 ==> m == 1 && words[..] == old(words[..])
    ensures n > 0 ==> m <= n && words[..m] == LastPerUrl(old(words[..n]))
  {
    hide LastPerUrl, AddDel;
    ghost var before := words[..n];
    var j, i := 0, 1;
    if n > 0 {
      FirstIsKept(before);
      assert before[..1] == words[..1];
      while i < n
        invariant 1 <= i <= n && 0 <= j < i
        invariant words[..j + 1] == LastPerUrl(before[..i])
        invariant words[i..n] == before[i..]
      {
        j := KeepLast(words, n, i, j, before);
        i := i + 1;
      }
      assert before[..i] == before;
    }
    m := j + 1;
  }

  lemma FirstIsKept(dels: seq<LogDel>)
    requires dels != []
    ensures LastPerUrl(dels[..1]) == dels[..1]
  {
  }

  /** One turn of the loop. */
  method KeepLast(words: array<LogDel>, n: nat, i: nat, j: nat, ghost before: seq<LogDel>) returns (j': nat)
    requires j < i < n <= words.Length && |before| == n
    requires words[..j + 1] == LastPerUrl(before[..i]) && words[i..n] == before[i..]
    modifies words
    ensures j' <= i && words[..j' + 1] == LastPerUrl(before[..i + 1]) && words[i + 1..n] == before[i + 1..]
  {
    hide LastPerUrl, AddDel;
    assert words[i] == words[i..n][0] == before[i];
    DedupStep(before, i);
    assert words[j] == words[..j + 1][j];
    ghost var kept := words[..j + 1];
    j' := j;
    if words[j].url != words[i].url {
      j' := j + 1;
    }
    if i != j' {
      words[j'] := words[i];
    }
    assert words[..j' + 1] == AddDel(kept, before[i]) by { AddDelCases(kept, before[i]); }
    assert words[i + 1..n] == before[i..][1..];
  }

  lemma AddDelCases(r: seq<LogDel>, d: LogDel)
    requires r != []
    ensures AddDel(r, d) == if r[|r| - 1].url == d.url then r[..|r| - 1] + [d] else r + [d]
  {
  }

  lemma DedupStep(dels: seq<LogDel>, i: nat)
    requires 1 <= i < |dels|
    ensures var r := LastPerUrl(dels[..i]);
      r != [] && LastPerUrl(dels[..i + 1]) == AddDel(r, dels[i])
  {
    var all := dels[..i + 1];
    assert all[..|all| - 1] == dels[..i] && all[|all| - 1] == dels[i];
    hide AddDel;
  }

  /** Some entry of r is for d's url and at least as late. */
  ghost predicate Covered(d: LogDel, r: seq<LogDel>) {
    exists k :: 0 <= k < |r| && r[k].url == d.url && d.stamp <= r[k].stamp
  }

  ghost predicate AllCovered(dels: seq<LogDel>, r: seq<LogDel>) {
    forall i | 0 <= i < |dels| :: Covered(dels[i], r)
  }

  ghost predicate AllFrom(r: seq<LogDel>, dels: seq<LogDel>) {
    forall i | 0 <= i < |r| :: r[i] in dels
  }

  ghost predicate DelsAscend(dels: seq<LogDel>) {
    forall i, j | 0 <= i < j < |dels| :: DelLe(dels[i], dels[j])
  }

  ghost predicate Newest(r: seq<LogDel>, dels: seq<LogDel>) {
    OnePerUrl(r) && AllFrom(r, dels) && AllCovered(dels, r)
  }

  /** On sorted deletes one entry per url is left, the one with the latest stamp. */
  lemma {:induction false} LastPerUrlIsNewest(dels: seq<LogDel>)
    requires DelsAscend(dels)
    ensures Newest(LastPerUrl(dels), dels)
  {
    hide DelsAscend, Newest, AddDel, DelLe, NotAfter;
    if |dels| <= 1 {
      NewestOfOne(dels);
    } else {
      var init, d := dels[..|dels| - 1], dels[|dels| - 1];
      AscendInit(dels);
      LastPerUrlIsNewest(init);
      NewestOneMore(init, d, LastPerUrl(init));
      assert init + [d] == dels;
    }
  }

  lemma AscendInit(dels: seq<LogDel>)
    requires dels != [] && DelsAscend(dels)
    ensures var init := dels[..|dels| - 1];
      DelsAscend(init) && NotAfter(init, dels[|dels| - 1])
  {
  }

  ghost predicate NotAfter(dels: seq<LogDel>, d: LogDel) {
    forall i | 0 <= i < |dels| :: DelLe(dels[i], d)
  }

  lemma NewestOfOne(dels: seq<LogDel>)
    requires |dels| <= 1
    ensures Newest(dels, dels)
  {
    forall i | 0 <= i < |dels| ensures Covered(dels[i], dels) {
      assert dels[i].url == dels[i].url;
    }
  }

  lemma NewestOneMore(init: seq<LogDel>, d: LogDel, r0: seq<LogDel>)
    requires init != [] && r0 != [] && r0[|r0| - 1] == init[|init| - 1]
    requires NotAfter(init, d) && Newest(r0, init)
    ensures Newest(AddDel(r0, d), init + [d])
  {
    assert DelLe(init[|init| - 1], d);
    hide AllFrom, AllCovered, AddDel, OnePerUrl;
    FromOneMore(init, d, r0, AddDel(r0, d));
    CoveredOneMore(init, d, r0, AddDel(r0, d));
    OnePerUrlOneMore(r0, d);
  }

  lemma OnePerUrlOneMore(r: seq<LogDel>, d: LogDel)
    requires r != [] && OnePerUrl(r) && DelLe(r[|r| - 1], d)
    ensures OnePerUrl(AddDel(r, d))
  {
    var r' := AddDel(r, d);
    hide AddDel;
    forall i, j | 0 <= i < j < |r'| ensures r'[i].url < r'[j].url {
      if j == |r'| - 1 {
        assert i < |r| - 1 ==> r[i].url < r[|r| - 1].url;
      }
    }
  }

  lemma FromOneMore(init: seq<LogDel>, d: LogDel, r0: seq<LogDel>, r: seq<LogDel>)
    requires AllFrom(r0, init) && 1 <= |r| <= |r0| + 1 && r[|r| - 1] == d
    requires forall i | 0 <= i < |r| - 1 :: r[i] == r0[i]
    ensures AllFrom(r, init + [d])
  {
    forall i | 0 <= i < |r| ensures r[i] in init + [d] {
      if i < |r| - 1 {
        assert r0[i] in init;
      }
    }
  }

  lemma CoveredOneMore(init: seq<LogDel>, d: LogDel, r0: seq<LogDel>, r: seq<LogDel>)
    requires AllCovered(init, r0) && NotAfter(init, d)
    requires |r0| <= |r| <= |r0| + 1 && r != [] && r[|r| - 1] == d
    requires forall i | 0 <= i < |r| - 1 :: r[i] == r0[i]
    requires |r| == |r0| ==> r0[|r0| - 1].url == d.url
    ensures AllCovered(init + [d], r)
  {
    assert Covered(d, r);
    forall i | 0 <= i < |init + [d]| ensures Covered((init + [d])[i], r) {
      if i < |init| {
        StillCovered(init[i], d, r0, r);
      }
    }
  }

  lemma StillCovered(x: LogDel, d: LogDel, r0: seq<LogDel>, r: seq<LogDel>)
    requires Covered(x, r0) && DelLe(x, d) && |r0| <= |r| <= |r0| + 1 && r != [] && r[|r| - 1] == d
    requires forall i | 0 <= i < |r| - 1 :: r[i] == r0[i]
    requires |r| == |r0| ==> r0[|r0| - 1].url == d.url
    ensures Covered(x, r)
  {
    var k :| 0 <= k < |r0| && r0[k].url == x.url && x.stamp <= r0[k].stamp;
    if k < |r| - 1 {
      assert r[k] == r0[k];
    } else {
      assert r[|r| - 1].url == x.url;
    }
  }

  /** The deletes as the flush uses them: sorted, one per url, the newest. */
  function NewestDels(dels: seq<LogDel>): seq<LogDel> {
    LastPerUrl(Sort(DelLe, dels))
  }

  /** Deduplication changes neither which words are fresh nor which urls are deleted. */
  lemma NewestDelsSame(dels: seq<LogDel>)
    ensures OnePerUrl(NewestDels(dels))
    ensures forall w :: Fresh(w, NewestDels(dels)) <==> Fresh(w, dels)
    ensures forall url :: Deleted(url, NewestDels(dels)) <==> Deleted(url, dels)
  {
    OrdersAreTotal();
    var s := Sort(DelLe, dels);
    SortOrdered(DelLe, dels);
    SortMembers(DelLe, dels);
    forall i, j | 0 <= i < j < |s| ensures DelLe(s[i], s[j]) { }
    LastPerUrlIsNewest(s);
    hide Sort, LastPerUrl;
    var r := LastPerUrl(s);
    forall i | 0 <= i < |r| ensures r[i] in dels { assert r[i] in s; }
    forall i | 0 <= i < |dels| ensures Covered(dels[i], r) {
      assert dels[i] in s;
      var m :| 0 <= m < |s| && s[m] == dels[i];
    }
    SameUrls(dels, r);
  }

  lemma SameUrls(dels: seq<LogDel>, r: seq<LogDel>)
    requires AllFrom(r, dels) && AllCovered(dels, r)
    ensures forall w :: Fresh(w, r) <==> Fresh(w, dels)
    ensures forall url :: Deleted(url, r) <==> Deleted(url, dels)
  {
    forall w ensures Fresh(w, r) <==> Fresh(w, dels) {
      if Fresh(w, r) {
        forall i | 0 <= i < |dels| && dels[i].url == w.url ensures dels[i].stamp <= w.stamp {
          assert Covered(dels[i], r);
        }
      }
    }
    forall url ensures Deleted(url, r) <==> Deleted(url, dels) {
      if Deleted(url, dels) {
        var i :| 0 <= i < |dels| && dels[i].url == url;
        assert Covered(dels[i], r);
      }
      if Deleted(url, r) {
        var k :| 0 <= k < |r| && r[k].url == url;
        assert r[k] in dels;
      }
    }
  }

  // ---------- the tail move of DpsRemoveOldWords ----------

  /** How the tail of the word array is moved down: by whole records, or by the byte count the
      source names, eight bytes for every 24-byte record. */
  datatype TailMove = WholeRecords | AsWritten

  /** The first `units` eight-byte units of a record copied over another: stamp; url and word id;
      coordinate. */
  function CopyUnits(dst: LogWord, src: LogWord, units: nat): LogWord {
    if units == 0 then dst
    else if units == 1 then dst.(stamp := src.stamp)
    else if units == 2 then src.(coord := dst.coord)
    else src
  }

  /** The array after moving the records from i to the end down to position j. */
  function MoveTail(move: TailMove, s: seq<LogWord>, j: nat, i: nat): (r: seq<LogWord>)
    requires j <= i <= |s|
    ensures |r| == j + |s| - i
  {
    var m := |s| - i;
    seq(j + m, k requires 0 <= k < j + m =>
      if k < j then s[k]
      else if move.WholeRecords? then s[i + (k - j)]
      else if m > 3 * (k - j) then CopyUnits(s[k], s[i + (k - j)], m - 3 * (k - j))
      else s[k])
  }

  /** A 24-byte record as three eight-byte units: the stamp; url and word id; coordinate and padding. */
  datatype Unit = Stamp(stamp: int) | Ids(url: nat, wrd: nat) | Coord(coord: nat)

  function UnitOf(w: LogWord, u: nat): Unit {
    if u == 0 then Stamp(w.stamp) else if u == 1 then Ids(w.url, w.wrd) else Coord(w.coord)
  }

  /** The written move copies as many units as there are records in the tail; a move of whole records copies
      three for each. All other units stay. */
  lemma MoveTailCopiesUnits(move: TailMove, s: seq<LogWord>, j: nat, i: nat, t: nat, u: nat)
    requires j <= i && i + t < |s| && u < 3
    ensures var units := if move.WholeRecords? then 3 * (|s| - i) else |s| - i;
      UnitOf(MoveTail(move, s, j, i)[j + t], u) == UnitOf(if 3 * t + u < units then s[i + t] else s[j + t], u)
    ensures MoveTail(move, s, j, i)[..j] == s[..j]
  {
    var m := |s| - i;
    var moved := MoveTail(move, s, j, i)[j + t];
    assert moved == if move.WholeRecords? then s[i + t]
                    else if m > 3 * t then CopyUnits(s[j + t], s[i + t], m - 3 * t) else s[j + t];
    hide MoveTail;
    if move.AsWritten? && m > 3 * t {
      CopiedUnits(s[j + t], s[i + t], m - 3 * t, u);
    }
  }

  lemma CopiedUnits(dst: LogWord, src: LogWord, units: nat, u: nat)
    requires u < 3
    ensures UnitOf(CopyUnits(dst, src, units), u) == UnitOf(if u < units then src else dst, u)
  {
  }

  /** Words whose url is not beyond the last deleted url: where the two-pointer pass stops. */
  function Reach(words: seq<LogWord>, last: nat): (i: nat)
    ensures i <= |words|
    ensures forall k | 0 <= k < i :: words[k].url <= last
    ensures i < |words| ==> words[i].url > last
  {
    if words == [] || words[0].url > last then 0
    else
      assert forall k | 0 <= k < |words| - 1 :: words[1..][k] == words[k + 1];
      1 + Reach(words[1..], last)
  }

  /** What DpsRemoveOldWords leaves of url-sorted words. */
  function RemoveOld(move: TailMove, words: seq<LogWord>, dels: seq<LogDel>): seq<LogWord> {
    if words == [] || dels == [] then words
    else
      var i := Reach(words, dels[|dels| - 1].url);
      var kept := Survivors(words[..i], dels);
      if |kept| == i then words else MoveTail(move, kept + words[|kept|..], |kept|, i)
  }

  /** Nothing is dropped before the pass stops, or nothing is left to move. */
  predicate NoTailMove(words: seq<LogWord>, dels: seq<LogDel>) {
    dels == [] || var i := Reach(words, dels[|dels| - 1].url);
      i == |words| || |Survivors(words[..i], dels)| == i
  }

  // ---------- the passes over sorted arrays ----------

  lemma {:induction false} SurvivorsSplit(a: seq<LogWord>, b: seq<LogWord>, dels: seq<LogDel>)
    ensures Survivors(a + b, dels) == Survivors(a, dels) + Survivors(b, dels)
  {
    if b == [] {
      assert a + b == a;
    } else {
      SurvivorsSplit(a, b[..|b| - 1], dels);
      assert (a + b)[..|a + b| - 1] == a + b[..|b| - 1];
    }
  }

  lemma {:induction false} AllSurvive(words: seq<LogWord>, dels: seq<LogDel>)
    requires forall i | 0 <= i < |words| :: Fresh(words[i], dels)
    ensures Survivors(words, dels) == words
  {
    if words == [] {
    } else {
      AllSurvive(words[..|words| - 1], dels);
    }
  }

  /** Whole-record removal, and the byte move whenever it moves nothing, leaves the survivors. */
  lemma RemoveOldIsSurvivors(move: TailMove, words: seq<LogWord>, dels: seq<LogDel>)
    requires UrlsAscend(words) && OnePerUrl(dels)
    requires move.WholeRecords? || NoTailMove(words, dels)
    ensures RemoveOld(move, words, dels) == Survivors(words, dels)
  {
    hide Survivors, Reach, MoveTail, UrlsAscend, OnePerUrl;
    if words == [] || dels == [] {
      NothingToRemove(words, dels);
    } else {
      var i := Reach(words, dels[|dels| - 1].url);
      TailSurvives(words, dels);
      var kept := Survivors(words[..i], dels);
      if |kept| == i {
        NoneDropped(words[..i], dels);
        assert words[..i] + words[i..] == words;
      } else {
        MoveTailResult(move, words, kept, i);
      }
    }
  }

  lemma NothingToRemove(words: seq<LogWord>, dels: seq<LogDel>)
    requires words == [] || dels == []
    ensures Survivors(words, dels) == words
  {
    AllSurvive(words, dels);
  }

  lemma MoveTailResult(move: TailMove, words: seq<LogWord>, kept: seq<LogWord>, i: nat)
    requires |kept| < i <= |words| && (move.WholeRecords? || i == |words|)
    ensures MoveTail(move, kept + words[|kept|..], |kept|, i) == kept + words[i..]
  {
    var s := kept + words[|kept|..];
    var r := MoveTail(move, s, |kept|, i);
    forall k | 0 <= k < |r| ensures r[k] == (kept + words[i..])[k] {
      if |kept| <= k {
        assert s[i + (k - |kept|)] == words[i + (k - |kept|)];
      }
    }
  }

  lemma TailSurvives(words: seq<LogWord>, dels: seq<LogDel>)
    requires UrlsAscend(words) && OnePerUrl(dels) && dels != []
    ensures var i := Reach(words, dels[|dels| - 1].url);
      Survivors(words, dels) == Survivors(words[..i], dels) + words[i..]
  {
    var i := Reach(words, dels[|dels| - 1].url);
    hide Reach, Survivors;
    forall k | 0 <= k < |words[i..]| ensures Fresh(words[i..][k], dels) {
      BeyondIsFresh(words, dels, i, i + k);
    }
    AllSurvive(words[i..], dels);
    SurvivorsSplit(words[..i], words[i..], dels);
    assert words[..i] + words[i..] == words;
  }

  lemma BeyondIsFresh(words: seq<LogWord>, dels: seq<LogDel>, i: nat, k: nat)
    requires UrlsAscend(words) && OnePerUrl(dels) && dels != [] && i <= k < |words|
    requires words[i].url > dels[|dels| - 1].url
    ensures Fresh(words[k], dels)
  {
    assert words[k].url > dels[|dels| - 1].url;
    forall m | 0 <= m < |dels| ensures dels[m].url <= dels[|dels| - 1].url { }
  }

  lemma {:induction false} NoneDropped(words: seq<LogWord>, dels: seq<LogDel>)
    requires |Survivors(words, dels)| == |words|
    ensures Survivors(words, dels) == words
  {
    if words == [] {
    } else {
      NoneDropped(words[..|words| - 1], dels);
    }
  }

  /** The byte move does no harm, in terms of the words alone: no word lies beyond the last deleted
      url, or none up to it is superseded. */
  predicate TailStays(words: seq<LogWord>, dels: seq<LogDel>) {
    dels == [] || var last := dels[|dels| - 1].url;
      || (forall w | w in words :: w.url <= last)
      || (forall w | w in words :: w.url <= last ==> Fresh(w, dels))
  }

  lemma NoTailMoveMeans(words: seq<LogWord>, dels: seq<LogDel>)
    requires UrlsAscend(words)
    ensures NoTailMove(words, dels) <==> TailStays(words, dels)
  {
    if dels != [] {
      var last := dels[|dels| - 1].url;
      var i := Reach(words, last);
      hide Fresh, Reach, Survivors;
      if i < |words| {
        assert words[i] in words;
        forall k | i <= k < |words| ensures words[k].url > last { }
        if |Survivors(words[..i], dels)| == i {
          NoneDropped(words[..i], dels);
          SurvivorsAreFresh(words[..i], dels);
          forall w | w in words && w.url <= last ensures Fresh(w, dels) {
            var k :| 0 <= k < |words| && words[k] == w;
            assert words[..i][k] == w;
          }
        } else if forall w | w in words :: w.url <= last ==> Fresh(w, dels) {
          forall k | 0 <= k < i ensures Fresh(words[..i][k], dels) {
            assert words[k] in words;
          }
          AllSurvive(words[..i], dels);
        }
      } else {
        assert forall k | 0 <= k < |words| :: words[k].url <= last;
      }
    }
  }

  lemma {:induction false} SurvivorsAreFresh(words: seq<LogWord>, dels: seq<LogDel>)
    ensures forall w | w in Survivors(words, dels) :: Fresh(w, dels)
  {
    hide Fresh;
    if words == [] {
    } else {
      SurvivorsAreFresh(words[..|words| - 1], dels);
    }
  }

  /** The fields that copying so many eight-byte units leaves alone are equal already. */
  predicate AgreeBeyond(dst: LogWord, src: LogWord, units: int) {
    && (units < 1 ==> dst.stamp == src.stamp)
    && (units < 2 ==> dst.url == src.url && dst.wrd == src.wrd)
    && (units < 3 ==> dst.coord == src.coord)
  }

  /** Every record of the tail agrees with the one it is moved onto as far as the byte count does not
      reach. */
  predicate TailAgrees(words: seq<LogWord>, j: nat, i: nat)
    requires j <= i <= |words|
  {
    var m := |words| - i;
    forall t | 0 <= t < m :: AgreeBeyond(words[j + t], words[i + t], m - 3 * t)
  }

  /** What the byte move does is right by accident: the records it does not reach are as they should be. */
  predicate RightByAccident(words: seq<LogWord>, dels: seq<LogDel>) {
    dels != [] && var i := Reach(words, dels[|dels| - 1].url);
      TailAgrees(words, |Survivors(words[..i], dels)|, i)
  }

  ghost predicate DistinctWords(words: seq<LogWord>) {
    forall i, j | 0 <= i < j < |words| :: words[i] != words[j]
  }

  /** Exactly: the source's byte move gives the survivors if and only if it has nothing to move or
      nowhere to move it, or is right by accident, which takes two equal records. */
  lemma ByteMoveExact(words: seq<LogWord>, dels: seq<LogDel>)
    requires UrlsAscend(words) && OnePerUrl(dels)
    ensures RemoveOld(AsWritten, words, dels) == Survivors(words, dels)
       <==> NoTailMove(words, dels) || RightByAccident(words, dels)
    ensures DistinctWords(words) && RightByAccident(words, dels) ==> NoTailMove(words, dels)
  {
    if NoTailMove(words, dels) {
      RemoveOldIsSurvivors(AsWritten, words, dels);
    } else {
      var last := dels[|dels| - 1].url;
      var i := Reach(words, last);
      TailSurvives(words, dels);
      var kept := Survivors(words[..i], dels);
      assert |kept| < i;
      assert words[i].url > last;
      hide Survivors, Reach, MoveTail, TailAgrees;
      ByteMoveAgrees(words, kept, i);
      if DistinctWords(words) {
        TailDisagrees(words, |kept|, i, last);
      }
    }
  }

  /** The moved tail is right record by record. */
  lemma ByteMoveAgrees(words: seq<LogWord>, kept: seq<LogWord>, i: nat)
    requires |kept| < i < |words|
    ensures MoveTail(AsWritten, kept + words[|kept|..], |kept|, i) == kept + words[i..]
       <==> TailAgrees(words, |kept|, i)
  {
    hide MoveTail, AgreeBeyond;
    var j, m := |kept|, |words| - i;
    var moved, right := MoveTail(AsWritten, kept + words[j..], j, i), kept + words[i..];
    assert |moved| == |right| == j + m;
    MovedFront(words, kept, i);
    if TailAgrees(words, j, i) {
      forall k: nat | k < |moved| ensures moved[k] == right[k] {
        if j <= k {
          MovedAt(words, kept, i, k - j);
        }
      }
    } else {
      var t: nat :| t < m && !AgreeBeyond(words[j + t], words[i + t], m - 3 * t);
      MovedAt(words, kept, i, t);
    }
  }

  lemma MovedFront(words: seq<LogWord>, kept: seq<LogWord>, i: nat)
    requires |kept| < i <= |words|
    ensures var moved := MoveTail(AsWritten, kept + words[|kept|..], |kept|, i);
      forall k | 0 <= k < |kept| :: moved[k] == kept[k]
  {
  }

  lemma MovedAt(words: seq<LogWord>, kept: seq<LogWord>, i: nat, t: nat)
    requires |kept| < i && i + t < |words|
    ensures var j, m := |kept|, |words| - i;
      MoveTail(AsWritten, kept + words[j..], j, i)[j + t] == (kept + words[i..])[j + t]
      <==> AgreeBeyond(words[j + t], words[i + t], m - 3 * t)
  {
    var j := |kept|;
    var s := kept + words[j..];
    assert s[j + t] == words[j + t] && s[i + t] == words[i + t];
  }

  /** Among different records the last one of the tail is moved onto a different one, out of reach. */
  lemma TailDisagrees(words: seq<LogWord>, j: nat, i: nat, last: nat)
    requires UrlsAscend(words) && DistinctWords(words) && j < i < |words|
    requires (forall m | 0 <= m < i :: words[m].url <= last) && words[i].url > last
    ensures !TailAgrees(words, j, i)
  {
    var t := |words| - i - 1;
    assert words[j + t] != words[i + t];
    assert t == 0 ==> words[j].url <= last;
    assert !AgreeBeyond(words[j + t], words[i + t], t + 1 - 3 * t);
  }

  // ---------- the byte move at work ----------

  /** Url 1 has an old word and a fresh one, and url 2 has a word beyond the last deleted url. */
  const TailWords: seq<LogWord> := [LogWord(2, 1, 7, 256), LogWord(1, 1, 5, 256), LogWord(1, 2, 6, 256)]
  const TailDels: seq<LogDel> := [LogDel(2, 1)]

  /** The move as written keeps the superseded word and loses the other url's. */
  lemma ByteMoveLosesAWord()
    ensures !NoTailMove(TailWords, TailDels)
    ensures Survivors(TailWords, TailDels) == [TailWords[0], TailWords[2]]
    ensures RemoveOld(AsWritten, TailWords, TailDels) == [TailWords[0], TailWords[1]]
  {
    var words, dels := TailWords, TailDels;
    assert words[..3] == words && words[..2][..1] == words[..1] && words[..1][..0] == [];
    assert words[..3][..2] == words[..2];
    assert Fresh(words[0], dels) && !Fresh(words[1], dels) && Fresh(words[2], dels);
    assert Survivors(words[..1], dels) == [words[0]];
    assert Survivors(words[..2], dels) == [words[0]];
    ReachOfTail();
    assert [words[0]] + words[1..] == words;
    assert MoveTail(AsWritten, words, 1, 2) == [words[0], words[1]];
  }

  lemma ReachOfTail()
    ensures Reach(TailWords, 1) == 2
  {
    assert TailWords[1..] == [TailWords[1], TailWords[2]];
    assert TailWords[1..][1..] == [TailWords[2]];
  }
}
