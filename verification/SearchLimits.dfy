/** The index searches of LoadNestedLimit and LoadTimeLimit: which urls a range limit admits. */
module SearchLimits {
  import opened Sorting
  import opened LogProcess
  import opened SearchWalk

  /** A key with the extent of its urls in the data file, counted in urls. */
  datatype Entry = Entry(val: nat, pos: nat, len: nat)

  type uint32 = x: nat | x < 0x1_0000_0000

  /** DPS_UINT8_POS_LEN: a key in two halves. */
  datatype NestedEntry = NestedEntry(hi: uint32, lo: uint32, pos: nat, len: nat)

  function Key(hi: uint32, lo: uint32): nat {
    hi * 0x1_0000_0000 + lo
  }

  function Entries(ind: seq<NestedEntry>): (r: seq<Entry>)
    ensures |r| == |ind|
    ensures forall i | 0 <= i < |ind| :: r[i] == Entry(Key(ind[i].hi, ind[i].lo), ind[i].pos, ind[i].len)
  {
    seq(|ind|, i requires 0 <= i < |ind| => Entry(Key(ind[i].hi, ind[i].lo), ind[i].pos, ind[i].len))
  }

  ghost predicate KeysAscend(ind: seq<Entry>) {
    forall i, j | 0 <= i < j < |ind| :: ind[i].val < ind[j].val
  }

  /** The extents lie one after the other in the data file. */
  ghost predicate Contiguous(ind: seq<Entry>, file: seq<nat>) {
    && (forall i | 0 <= i < |ind| :: ind[i].pos + ind[i].len <= |file|)
    && (forall i, j | 0 <= i && j == i + 1 < |ind| :: ind[i].pos + ind[i].len == ind[j].pos)
  }

  ghost predicate WellFormed(ind: seq<Entry>, file: seq<nat>) {
    KeysAscend(ind) && Contiguous(ind, file)
  }

  function UrlsAt(file: seq<nat>, e: Entry): seq<nat> {
    if e.pos + e.len <= |file| then file[e.pos..e.pos + e.len] else []
  }

  /** The urls of all entries whose key lies between the bounds. */
  function Selected(ind: seq<Entry>, file: seq<nat>, low: nat, high: nat): seq<nat> {
    if ind == [] then []
    else
      var e := ind[|ind| - 1];
      Selected(ind[..|ind| - 1], file, low, high) + (if low <= e.val <= high then UrlsAt(file, e) else [])
  }

  predicate AnyInRange(ind: seq<Entry>, low: nat, high: nat) {
    exists i :: 0 <= i < |ind| && low <= ind[i].val <= high
  }

  /** The urls a loaded limit must admit: the selection, or the list of the single url 0, which no
      document has, when nothing is selected. */
  ghost predicate Admits(r: Admitted, selection: seq<nat>) {
    && r.Urls? && Ascending(r.urls)
    && (if selection == [] then r.urls == [0] else multiset(r.urls) == multiset(selection))
  }

  /** What a range selects, spelled out: in order, the urls in the extents of the entries whose key is not
      below the lower bound and not above the upper one. */
  lemma SelectedKeeps(ind: seq<Entry>, e: Entry, file: seq<nat>, low: nat, high: nat)
    requires e.pos + e.len <= |file|
    ensures Selected([], file, low, high) == []
    ensures Selected(ind + [e], file, low, high)
         == Selected(ind, file, low, high) + (if low <= e.val && e.val <= high then file[e.pos..e.pos + e.len] else [])
  {
    assert (ind + [e])[..|ind|] == ind;
  }

  // ---------- the extent between two entries is the selection ----------

  lemma {:induction false} NoneSelected(ind: seq<Entry>, file: seq<nat>, low: nat, high: nat)
    requires forall i | 0 <= i < |ind| :: !(low <= ind[i].val <= high)
    ensures Selected(ind, file, low, high) == []
  {
    if ind == [] {
    } else {
      NoneSelected(ind[..|ind| - 1], file, low, high);
    }
  }

  /** The data from the start of entry a to the end of the entry before n. */
  function Extent(ind: seq<Entry>, file: seq<nat>, a: nat, n: nat): seq<nat>
    requires n <= |ind|
  {
    if a < n && ind[a].pos <= ind[n - 1].pos + ind[n - 1].len <= |file|
    then file[ind[a].pos..ind[n - 1].pos + ind[n - 1].len] else []
  }

  lemma PosAscends(ind: seq<Entry>, file: seq<nat>, a: nat, b: nat)
    requires Contiguous(ind, file) && a <= b < |ind|
    ensures ind[a].pos <= ind[b].pos && ind[b].pos + ind[b].len <= |file|
    decreases b - a
  {
    if a < b {
      PosAscends(ind, file, a + 1, b);
    }
  }

  lemma ExtentGrows(ind: seq<Entry>, file: seq<nat>, a: nat, n: nat)
    requires Contiguous(ind, file) && a <= n < |ind|
    ensures Extent(ind, file, a, n + 1) == Extent(ind, file, a, n) + UrlsAt(file, ind[n])
  {
    PosAscends(ind, file, a, n);
    if a < n {
      PosAscends(ind, file, a, n - 1);
      var k := n - 1;
      assert ind[k].pos + ind[k].len == ind[n].pos;
      var p, q, r := ind[a].pos, ind[n].pos, ind[n].pos + ind[n].len;
      assert file[p..r] == file[p..q] + file[q..r];
    }
  }

  /** Entries a to b are exactly those in range. */
  ghost predicate InRangeIs(ind: seq<Entry>, a: nat, b: nat, low: nat, high: nat) {
    && a <= b < |ind|
    && forall i | 0 <= i < |ind| :: low <= ind[i].val <= high <==> a <= i <= b
  }

  lemma {:induction false} SelectedPrefix(ind: seq<Entry>, file: seq<nat>, a: nat, b: nat, low: nat, high: nat, n: nat)
    requires Contiguous(ind, file) && InRangeIs(ind, a, b, low, high) && n <= |ind|
    ensures Selected(ind[..n], file, low, high)
         == if n <= a then [] else Extent(ind, file, a, if n > b then b + 1 else n)
  {
    hide Extent, UrlsAt, Contiguous;
    if n == 0 {
    } else {
      SelectedPrefix(ind, file, a, b, low, high, n - 1);
      assert ind[..n][..n - 1] == ind[..n - 1];
      assert low <= ind[n - 1].val <= high <==> a <= n - 1 <= b;
      if a <= n - 1 <= b {
        ExtentGrows(ind, file, a, n - 1);
        assert n - 1 == a ==> Extent(ind, file, a, a) == [] by { EmptyExtent(ind, file, a); }
      }
    }
  }

  lemma EmptyExtent(ind: seq<Entry>, file: seq<nat>, a: nat)
    requires a <= |ind|
    ensures Extent(ind, file, a, a) == []
  {
  }

  /** The data from the first entry's start to the last one's end are the selection. */
  lemma RangeIsSelected(ind: seq<Entry>, file: seq<nat>, a: nat, b: nat, low: nat, high: nat)
    requires Contiguous(ind, file) && InRangeIs(ind, a, b, low, high)
    ensures ind[a].pos <= ind[b].pos + ind[b].len <= |file|
    ensures Selected(ind, file, low, high) == file[ind[a].pos..ind[b].pos + ind[b].len]
  {
    hide Selected, UrlsAt, Contiguous;
    PosAscends(ind, file, a, b);
    SelectedPrefix(ind, file, a, b, low, high, |ind|);
    assert ind[..|ind|] == ind;
  }

  lemma SortUrls(urls: seq<nat>)
    ensures Ascending(Sort(NatLe, urls))
  {
    SortOrdered(NatLe, urls);
    var sorted := Sort(NatLe, urls);
    hide Sort;
    forall i, j | 0 <= i < j < |sorted| ensures sorted[i] <= sorted[j] {
      assert NatLe(sorted[i], sorted[j]);
    }
  }

  // ---------- LoadNestedLimit ----------

  /** The first entry from `start` on whose key is not below the bound. */
  method SearchNested(ind: seq<NestedEntry>, start: nat, hi: uint32, lo: uint32) returns (r: nat)
    requires KeysAscend(Entries(ind)) && start <= |ind|
    ensures start <= r <= |ind|
    ensures forall i | start <= i < r :: Entries(ind)[i].val < Key(hi, lo)
    ensures forall i | r <= i < |ind| :: Key(hi, lo) <= Entries(ind)[i].val
  {
    ghost var entries, bound := Entries(ind), Key(hi, lo);
    hide Key, KeysAscend, Entries;
    var l := start;
    r := |ind|;
    while l < r
      invariant start <= l <= r <= |ind|
      invariant forall i | start <= i < l :: entries[i].val < bound
      invariant forall i | r <= i < |ind| :: bound <= entries[i].val
    {
      var m := (l + r) / 2;
      KeyBelow(ind[m].hi, ind[m].lo, hi, lo);
      KeysAround(entries, m);
      assert entries[m].val == Key(ind[m].hi, ind[m].lo);
      if ind[m].hi < hi {
        l := m + 1;
      } else if ind[m].hi == hi && ind[m].lo < lo {
        l := m + 1;
      } else {
        r := m;
      }
    }
  }

  lemma KeyBelow(hi: uint32, lo: uint32, hi': uint32, lo': uint32)
    ensures Key(hi, lo) < Key(hi', lo') <==> hi < hi' || (hi == hi' && lo < lo')
  {
  }

  lemma KeysAround(ind: seq<Entry>, m: nat)
    requires KeysAscend(ind) && m < |ind|
    ensures forall i | 0 <= i < m :: ind[i].val < ind[m].val
    ensures forall i | m < i < |ind| :: ind[m].val < ind[i].val
  {
  }

  predicate Above(e: NestedEntry, hi: uint32, lo: uint32) {
    e.hi > hi || (e.hi == hi && e.lo > lo)
  }

  predicate ManyInRange(ind: seq<Entry>, low: nat, high: nat) {
    exists i, j :: 0 <= i < j < |ind| && low <= ind[i].val <= high && low <= ind[j].val <= high
  }

  /** What is in a nested range, spelled out: the entries whose two halves, compared one after the other, are
      not below the lower bound and not above the upper one. */
  lemma NestedRangeMeans(ind: seq<NestedEntry>, hi: uint32, lo: uint32, fHi: uint32, fLo: uint32)
    ensures AnyInRange(Entries(ind), Key(hi, lo), Key(fHi, fLo)) <==>
      exists i :: 0 <= i < |ind| && (ind[i].hi > hi || (ind[i].hi == hi && ind[i].lo >= lo))
        && (ind[i].hi < fHi || (ind[i].hi == fHi && ind[i].lo <= fLo))
    ensures ManyInRange(Entries(ind), Key(hi, lo), Key(fHi, fLo)) <==>
      exists i, j :: 0 <= i < j < |ind|
        && (ind[i].hi > hi || (ind[i].hi == hi && ind[i].lo >= lo))
        && (ind[i].hi < fHi || (ind[i].hi == fHi && ind[i].lo <= fLo))
        && (ind[j].hi > hi || (ind[j].hi == hi && ind[j].lo >= lo))
        && (ind[j].hi < fHi || (ind[j].hi == fHi && ind[j].lo <= fLo))
  {
    var entries, low, high := Entries(ind), Key(hi, lo), Key(fHi, fLo);
    forall i | 0 <= i < |ind|
      ensures low <= entries[i].val <= high
        <==> (ind[i].hi > hi || (ind[i].hi == hi && ind[i].lo >= lo))
             && (ind[i].hi < fHi || (ind[i].hi == fHi && ind[i].lo <= fLo))
    {
      KeyBelow(ind[i].hi, ind[i].lo, hi, lo);
      KeyBelow(fHi, fLo, ind[i].hi, ind[i].lo);
    }
    hide Key, Entries;
  }

  /** Without a lower bound the limit is not loaded; otherwise it admits the entries in range. The urls
      of several entries are sorted, those of a single one are left as they are stored. */
  method LoadNestedLimit(ind: seq<NestedEntry>, file: seq<nat>, hi: uint32, lo: uint32, fHi: uint32, fLo: uint32)
    returns (r: Admitted)
    requires WellFormed(Entries(ind), file)
    ensures hi == 0 && lo == 0 ==> r == NotLoaded
    ensures (hi > 0 || lo > 0) && !AnyInRange(Entries(ind), Key(hi, lo), Key(fHi, fLo)) ==> r == Urls([0])
    ensures (hi > 0 || lo > 0) && AnyInRange(Entries(ind), Key(hi, lo), Key(fHi, fLo)) ==>
      var selection := Selected(Entries(ind), file, Key(hi, lo), Key(fHi, fLo));
      && r.Urls? && multiset(r.urls) == multiset(selection)
      && (if ManyInRange(Entries(ind), Key(hi, lo), Key(fHi, fLo)) then Ascending(r.urls) else r.urls == selection)
      && ((forall i | 0 <= i < |ind| :: Ascending(UrlsAt(file, Entries(ind)[i]))) ==> Ascending(r.urls))
  {
    if hi == 0 && lo == 0 {
      return NotLoaded;
    }
    hide Selected, UrlsAt, Contiguous, KeysAscend, Entries, Key, Ascending;
    var found, start, stop := NestedRange(ind, hi, lo, fHi, fLo);
    if !found {
      return Urls([0]);
    }
    var entries := Entries(ind);
    RangeIsSelected(entries, file, start, stop, Key(hi, lo), Key(fHi, fLo));
    ManyIsSpan(entries, start, stop, Key(hi, lo), Key(fHi, fLo));
    r := Urls(ReadUrls(file, entries[start].pos, entries[stop].pos + entries[stop].len, stop > start));
    if stop == start {
      assert r.urls == UrlsAt(file, entries[start]) by { WholeEntry(file, entries[start]); }
    }
  }

  lemma ManyIsSpan(ind: seq<Entry>, start: nat, stop: nat, low: nat, high: nat)
    requires InRangeIs(ind, start, stop, low, high)
    ensures ManyInRange(ind, low, high) <==> stop > start
  {
    if stop > start {
      assert low <= ind[start].val <= high && low <= ind[stop].val <= high;
    }
  }

  lemma WholeEntry(file: seq<nat>, e: Entry)
    requires e.pos + e.len <= |file|
    ensures UrlsAt(file, e) == file[e.pos..e.pos + e.len]
  {
  }

  /** The first and the last entry in range. */
  method NestedRange(ind: seq<NestedEntry>, hi: uint32, lo: uint32, fHi: uint32, fLo: uint32)
    returns (found: bool, start: nat, stop: nat)
    requires KeysAscend(Entries(ind))
    ensures found <==> AnyInRange(Entries(ind), Key(hi, lo), Key(fHi, fLo))
    ensures found ==> InRangeIs(Entries(ind), start, stop, Key(hi, lo), Key(fHi, fLo))
  {
    hide Key, Entries, Above, KeysAscend, InRangeIs, AnyInRange;
    ghost var entries, low, high := Entries(ind), Key(hi, lo), Key(fHi, fLo);
    stop := 0;
    start := SearchNested(ind, 0, hi, lo);
    if start == |ind| {
      NothingFrom(entries, start, low, high);
      return false, start, stop;
    }
    AboveIsBeyond(ind[start], fHi, fLo);
    if Above(ind[start], fHi, fLo) {
      NothingFrom(entries, start, low, high);
      return false, start, stop;
    }
    stop := SearchNested(ind, start, fHi, fLo);
    if stop == |ind| {
      stop := |ind| - 1;
    }
    AboveIsBeyond(ind[stop], fHi, fLo);
    ghost var first := stop;
    if Above(ind[stop], fHi, fLo) {
      stop := stop - 1;
    }
    found := true;
    SpanInRange(entries, start, first, stop, low, high);
  }

  lemma AboveIsBeyond(e: NestedEntry, hi: uint32, lo: uint32)
    ensures Above(e, hi, lo) <==> Key(hi, lo) < Key(e.hi, e.lo)
  {
  }

  lemma NothingFrom(ind: seq<Entry>, start: nat, low: nat, high: nat)
    requires KeysAscend(ind) && start <= |ind| && forall i | 0 <= i < start :: ind[i].val < low
    requires start < |ind| ==> high < ind[start].val
    ensures !AnyInRange(ind, low, high)
  {
    forall i | 0 <= i < |ind| ensures !(low <= ind[i].val <= high) {
      if start < i {
        assert ind[start].val < ind[i].val;
      }
    }
  }

  /** Both searches together: `first` is where the second one ended, one step back if that is beyond. */
  lemma SpanInRange(ind: seq<Entry>, start: nat, first: nat, stop: int, low: nat, high: nat)
    requires KeysAscend(ind) && start <= first < |ind| && (forall i | 0 <= i < start :: ind[i].val < low)
    requires low <= ind[start].val <= high && forall i | start <= i < first :: ind[i].val < high
    requires high < ind[first].val || first == |ind| - 1 || ind[first].val == high
    requires stop == if high < ind[first].val then first - 1 else first
    ensures start <= stop && InRangeIs(ind, start, stop, low, high) && AnyInRange(ind, low, high)
  {
    forall i | 0 <= i < |ind| ensures low <= ind[i].val <= high <==> start <= i <= stop {
      if start < i {
        assert ind[start].val < ind[i].val;
      }
      if first < i {
        assert ind[first].val < ind[i].val;
      }
    }
  }

  /** Read from the data file, and sort when more than one entry was read. */
  function ReadUrls(file: seq<nat>, from: nat, to: nat, several: bool): (urls: seq<nat>)
    requires from <= to <= |file|
    ensures multiset(urls) == multiset(file[from..to])
    ensures if several then Ascending(urls) else urls == file[from..to]
  {
    var data := file[from..to];
    SortUrls(data);
    assert |data| <= 1 ==> Ascending(data);
    hide Ascending;
    if several && |data| > 1 then Sort(NatLe, data) else data
  }

  // ---------- LoadTimeLimit ----------

  method SearchTime(ind: seq<Entry>, bound: nat) returns (r: nat)
    requires KeysAscend(ind)
    ensures r <= |ind|
    ensures forall i | 0 <= i < r :: ind[i].val < bound
    ensures forall i | r <= i < |ind| :: bound <= ind[i].val
  {
    var l := 0;
    r := |ind|;
    while l < r
      invariant 0 <= l <= r <= |ind|
      invariant forall i | 0 <= i < l :: ind[i].val < bound
      invariant forall i | r <= i < |ind| :: bound <= ind[i].val
    {
      var m := (l + r) / 2;
      if ind[m].val < bound {
        l := m + 1;
      } else {
        r := m;
      }
    }
  }

  /** The one case where the limit refuses what it should admit: the only entry of the index lies in
      the range and below its upper bound. */
  predicate LoneBelow(ind: seq<Entry>, from: nat, to: nat) {
    |ind| == 1 && from <= ind[0].val < to && ind[0].len > 0
  }

  /** The two cases of the answer, spelled out. */
  lemma TimeAnswer(ind: seq<Entry>, from: nat, to: nat, r: Admitted, selection: seq<nat>)
    ensures LoneBelow(ind, from, to) <==> |ind| == 1 && from <= ind[0].val && ind[0].val < to && ind[0].len > 0
    ensures Admits(r, selection) <==>
      && r.Urls? && (forall i, j | 0 <= i < j < |r.urls| :: r.urls[i] <= r.urls[j])
      && (selection == [] ==> r.urls == [0])
      && (selection != [] ==> multiset(r.urls) == multiset(selection))
  {
  }

  /** The limit admits the entries from `from` to `to`, except that a lone entry is found only when
      its key is the upper bound itself. */
  method LoadTimeLimit(ind: seq<Entry>, file: seq<nat>, from: nat, to: nat) returns (r: Admitted)
    requires WellFormed(ind, file)
    ensures (from == 0 && to == 0) || from > to || ind == [] ==> r == NotLoaded
    ensures !(from == 0 && to == 0) && from <= to && ind != [] ==>
      if LoneBelow(ind, from, to) then r == Urls([0]) else Admits(r, Selected(ind, file, from, to))
  {
    if (from == 0 && to == 0) || from > to || |ind| == 0 {
      return NotLoaded;
    }
    hide Selected, UrlsAt, Contiguous;
    var found1, found2 := 0, -1;
    if from > 0 {
      found1 := SearchTime(ind, from);
    }
    var r2 := SearchTime(ind, to);
    if r2 == |ind| {
      if |ind| > 1 {
        found2 := |ind| - 1;
      }
    } else if ind[r2].val == to {
      found2 := r2;
    } else if r2 > 0 {
      found2 := r2 - 1;
    }
    if found1 == |ind| || found2 == -1 {
      LoneOrNone(ind, file, from, to);
      return Urls([0]);
    }
    ExtentOrNone(ind, file, from, to, found1, found2);
    var len := ind[found2].pos + ind[found2].len - ind[found1].pos;
    if len == 0 {
      return Urls([0]);
    }
    r := Urls(ReadUrls(file, ind[found1].pos, ind[found2].pos + ind[found2].len, true));
  }

  lemma {:induction false} LoneOrNone(ind: seq<Entry>, file: seq<nat>, from: nat, to: nat)
    requires WellFormed(ind, file) && ind != [] && from <= to
    ensures |ind| == 1 && from <= ind[0].val < to && ind[0].len == 0 ==> Selected(ind, file, from, to) == []
    ensures !AnyInRange(ind, from, to) ==> Selected(ind, file, from, to) == []
  {
    if !AnyInRange(ind, from, to) {
      NoneSelected(ind, file, from, to);
    }
    if |ind| == 1 && from <= ind[0].val < to && ind[0].len == 0 {
      assert InRangeIs(ind, 0, 0, from, to);
      RangeIsSelected(ind, file, 0, 0, from, to);
    }
  }

  lemma ExtentOrNone(ind: seq<Entry>, file: seq<nat>, from: nat, to: nat, a: nat, b: nat)
    requires WellFormed(ind, file) && a < |ind| && b < |ind| && from <= to
    requires forall i | 0 <= i < a :: ind[i].val < from
    requires forall i | a <= i < |ind| :: from <= ind[i].val
    requires forall i | 0 <= i < |ind| :: ind[i].val <= to <==> i <= b
    ensures ind[a].pos <= ind[b].pos + ind[b].len <= |file|
    ensures Selected(ind, file, from, to) == file[ind[a].pos..ind[b].pos + ind[b].len]
  {
    if a <= b {
      assert InRangeIs(ind, a, b, from, to);
      RangeIsSelected(ind, file, a, b, from, to);
    } else {
      assert b + 1 < |ind| ==> ind[b + 1].val > to;
      assert b + 1 == a;
      NoneSelected(ind, file, from, to);
    }
  }

  /** The lone entry's urls are refused: the answer is right exactly when that case does not arise. */
  lemma LoneIsRefused(ind: seq<Entry>, file: seq<nat>, from: nat, to: nat, r: Admitted)
    requires WellFormed(ind, file) && 0 !in file
    requires if LoneBelow(ind, from, to) then r == Urls([0]) else Admits(r, Selected(ind, file, from, to))
    ensures Admits(r, Selected(ind, file, from, to)) <==> !LoneBelow(ind, from, to)
  {
    if LoneBelow(ind, from, to) {
      assert InRangeIs(ind, 0, 0, from, to);
      RangeIsSelected(ind, file, 0, 0, from, to);
      var selection := Selected(ind, file, from, to);
      assert selection[0] in file;
      assert selection[0] in multiset(selection);
      assert multiset([0])[selection[0]] == 0;
    }
  }
}
