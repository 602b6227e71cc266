/** The search side of src/cache.c: limit tests with a moving cursor, and the walk over the lists of
    all query words. */
module SearchWalk {
  import opened LogClean

  // ---------- limit tests ----------

  /** The urls a limit admits, or no list when it could not be loaded. */
  datatype Admitted = Urls(urls: seq<nat>) | NotLoaded

  ghost predicate Ascending(urls: seq<nat>) {
    forall i, j | 0 <= i < j < |urls| :: urls[i] <= urls[j]
  }

  /** Nothing in front of the cursor matters for urls from `low` on. */
  ghost predicate CursorOk(urls: seq<nat>, start: nat, low: nat) {
    start <= |urls| && forall i | 0 <= i < start :: urls[i] < low || urls[i] in urls[start..]
  }

  /** PresentInLimit: a binary search from the cursor, which moves up to where the search ended. */
  method PresentInLimit(buf: seq<nat>, start: nat, urlId: nat) returns (found: bool, start': nat)
    requires Ascending(buf) && CursorOk(buf, start, urlId)
    ensures found <==> urlId in buf
    ensures start <= start' && forall low: nat | urlId <= low :: CursorOk(buf, start', low)
  {
    var l, r := start, |buf|;
    while l < r
      invariant start <= l <= r <= |buf|
      invariant forall i | start <= i < l :: buf[i] < urlId
      invariant forall i | r <= i < |buf| :: urlId <= buf[i]
    {
      var m := (l + r) / 2;
      if buf[m] == urlId {
        CursorAtHit(buf, m, urlId);
        return true, m;
      }
      if buf[m] < urlId {
        l := m + 1;
      } else {
        r := m;
      }
    }
    CursorAtGap(buf, start, r, urlId);
    found := r < |buf| && buf[r] == urlId;
    start' := r;
  }

  lemma CursorAtHit(buf: seq<nat>, m: nat, urlId: nat)
    requires Ascending(buf) && m < |buf| && buf[m] == urlId
    ensures forall low: nat | urlId <= low :: CursorOk(buf, m, low)
  {
    assert buf[m..][0] == urlId;
    forall i | 0 <= i < m ensures buf[i] < urlId || buf[i] in buf[m..] {
      assert buf[i] <= buf[m];
    }
  }

  lemma CursorAtGap(buf: seq<nat>, start: nat, r: nat, urlId: nat)
    requires Ascending(buf) && CursorOk(buf, start, urlId) && start <= r <= |buf|
    requires forall i | start <= i < r :: buf[i] < urlId
    requires forall i | r <= i < |buf| :: urlId <= buf[i]
    ensures forall low: nat | urlId <= low :: CursorOk(buf, r, low)
    ensures urlId in buf <==> r < |buf| && buf[r] == urlId
  {
    forall i | 0 <= i < r ensures buf[i] < urlId || buf[i] in buf[r..] {
      if i < start && urlId <= buf[i] {
        var k :| start <= k < |buf| && buf[k] == buf[i];
        assert buf[r..][k - r] == buf[i];
      }
    }
    if urlId in buf {
      var i :| 0 <= i < |buf| && buf[i] == urlId;
      if i < r {
        assert urlId in buf[r..];
      }
      var k :| r <= k < |buf| && buf[k] == urlId;
      assert buf[r] <= buf[k];
    }
  }

  /** DPS_SEARCH_LIMIT. */
  class SearchLimit {
    const data: Admitted
    var start: nat

    constructor (data: Admitted)
      ensures this.data == data && start == 0
    {
      this.data := data;
      start := 0;
    }

    ghost predicate Ready(low: nat)
      reads this
    {
      data.Urls? ==> Ascending(data.urls) && CursorOk(data.urls, start, low)
    }
  }

  ghost function ListsOf(limits: seq<SearchLimit>): (lists: seq<Admitted>)
    ensures |lists| == |limits| && forall i | 0 <= i < |limits| :: lists[i] == limits[i].data
  {
    seq(|limits|, i requires 0 <= i < |limits| => limits[i].data)
  }

  predicate InLimits(lists: seq<Admitted>, url: nat) {
    forall i | 0 <= i < |lists| :: lists[i].Urls? ==> url in lists[i].urls
  }

  /** The url is tested against the limits in turn, up to the first that refuses it. */
  method PresentInAll(limits: seq<SearchLimit>, urlId: nat) returns (present: bool)
    requires forall i | 0 <= i < |limits| :: limits[i].Ready(urlId)
    requires Apart(limits)
    modifies limits
    ensures present <==> InLimits(ListsOf(limits), urlId)
    ensures forall i, low: nat | 0 <= i < |limits| && urlId <= low :: limits[i].Ready(low)
  {
    hide CursorOk, Ascending;
    present := true;
    var i := 0;
    forall k, low: nat | 0 <= k < |limits| && urlId <= low ensures limits[k].Ready(low) {
      ReadyLater(limits[k], urlId, low);
    }
    while i < |limits|
      invariant i <= |limits| && present
      invariant forall k | 0 <= k < i :: limits[k].data.Urls? ==> urlId in limits[k].data.urls
      invariant forall k, low: nat | 0 <= k < |limits| && urlId <= low :: limits[k].Ready(low)
    {
      if limits[i].data.Urls? {
        assert limits[i].Ready(urlId);
        var found, start := PresentInLimit(limits[i].data.urls, limits[i].start, urlId);
        limits[i].start := start;
        if !found {
          present := false;
          assert !InLimits(ListsOf(limits), urlId) by { assert ListsOf(limits)[i] == limits[i].data; }
          break;
        }
      }
      i := i + 1;
    }
  }

  lemma ReadyLater(limit: SearchLimit, urlId: nat, low: nat)
    requires limit.Ready(urlId) && urlId <= low
    ensures limit.Ready(low)
  {
  }

  // ---------- which postings a word keeps ----------

  /** What the query asks of a word's postings: section, length, and the number they are tagged with. */
  datatype Tag = Tag(secno: nat, ulen: nat, wordnum: nat)

  /** DPS_WRDSEC. */
  function WrdSec(coord: nat): nat {
    coord / 0x100 % 0x100
  }

  function WrdLen(coord: nat): nat {
    coord % 0x100
  }

  predicate Matches(c: Crd, tag: Tag, lists: seq<Admitted>) {
    && InLimits(lists, c.url)
    && (tag.secno == 0 || WrdSec(c.coord) == tag.secno)
    && (WrdLen(c.coord) == 0 || WrdLen(c.coord) == tag.ulen)
  }

  /** The length in the low byte gives way to the word's number. */
  function Tagged(c: Crd, tag: Tag): Crd {
    Crd(c.url, c.coord - c.coord % 0x100 + tag.wordnum % 0x100)
  }

  /** The matching postings, in order. */
  function Filtered(db: seq<Crd>, tag: Tag, lists: seq<Admitted>): (r: seq<Crd>)
    ensures |r| <= |db|
  {
    if db == [] then []
    else
      var c := db[|db| - 1];
      Filtered(db[..|db| - 1], tag, lists) + (if Matches(c, tag, lists) then [Tagged(c, tag)] else [])
  }

  /** A coordinate holds a position above a section above a length; the tag's number takes the length's
      place. */
  lemma CoordinateParts(url: nat, pos: nat, sec: nat, len: nat, tag: Tag)
    requires sec < 0x100 && len < 0x100
    ensures var coord := 0x1_0000 * pos + 0x100 * sec + len;
      && WrdSec(coord) == sec && WrdLen(coord) == len
      && Tagged(Crd(url, coord), tag) == Crd(url, 0x1_0000 * pos + 0x100 * sec + tag.wordnum % 0x100)
  {
  }

  /** Which postings the walk keeps, and as what, spelled out: those whose url is in every loaded limit, whose
      section is the one asked for if one is, and whose length is the word's if it has one; in order, with the
      word's number in the low byte. */
  lemma FilteredKeeps(db: seq<Crd>, url: nat, pos: nat, sec: nat, len: nat, tag: Tag, lists: seq<Admitted>)
    requires sec < 0x100 && len < 0x100
    ensures Filtered([], tag, lists) == []
    ensures Filtered(db + [Crd(url, 0x1_0000 * pos + 0x100 * sec + len)], tag, lists)
         == Filtered(db, tag, lists)
            + (if && (forall i | 0 <= i < |lists| :: lists[i].Urls? ==> url in lists[i].urls)
                  && (tag.secno == 0 || sec == tag.secno)
                  && (len == 0 || len == tag.ulen)
               then [Crd(url, 0x1_0000 * pos + 0x100 * sec + tag.wordnum % 0x100)] else [])
  {
    var c := Crd(url, 0x1_0000 * pos + 0x100 * sec + len);
    CoordinateParts(url, pos, sec, len, tag);
    assert (db + [c])[..|db|] == db;
    hide WrdSec, WrdLen, Tagged;
  }

  lemma FilteredStep(db: seq<Crd>, n: nat, tag: Tag, lists: seq<Admitted>)
    requires n < |db|
    ensures Filtered(db[..n + 1], tag, lists)
         == Filtered(db[..n], tag, lists) + (if Matches(db[n], tag, lists) then [Tagged(db[n], tag)] else [])
  {
    assert db[..n + 1][..n] == db[..n];
  }

  /** DPS_STACK_ITEM: a query word with its list, its read cursor and the postings checked so far. */
  class StackItem {
    const db: seq<Crd>
    const tag: Tag
    var pcur: nat
    const checked: array<Crd>
    var count: nat

    constructor (db: seq<Crd>, tag: Tag)
      ensures this.db == db && this.tag == tag && pcur == 0 && count == 0
      ensures fresh(checked) && checked.Length == |db|
    {
      this.db, this.tag, pcur, count := db, tag, 0, 0;
      checked := new Crd[|db|](_ => Crd(0, 0));
    }

    ghost predicate Valid(lists: seq<Admitted>)
      reads this, checked
    {
      && CrdUrlsAscend(db)
      && count <= pcur <= |db| == checked.Length
      && checked[..count] == Filtered(db[..pcur], tag, lists)
    }

    predicate More()
      reads this
    {
      pcur < |db|
    }

    /** Unread postings are for urls from `low` on. */
    ghost predicate From(low: nat)
      reads this
    {
      forall k | pcur <= k < |db| :: low <= db[k].url
    }

    /** Read the postings of the current url, keeping those that match. */
    method TakeUrl(url: nat, present: bool, ghost lists: seq<Admitted>)
      requires Valid(lists) && From(url) && (present <==> InLimits(lists, url))
      modifies this, checked
      ensures Valid(lists) && From(url + 1) && pcur >= old(pcur)
      ensures old(More()) && db[old(pcur)].url == url ==> pcur > old(pcur)
    {
      hide Filtered;
      while pcur < |db| && db[pcur].url == url
        invariant Valid(lists) && From(url) && pcur >= old(pcur)
        invariant old(More()) && db[old(pcur)].url == url && pcur == old(pcur) ==> pcur < |db| && db[pcur].url == url
        decreases |db| - pcur
      {
        TakeOne(url, present, lists);
      }
      FromNext(db, pcur, url);
    }

    /** One posting of the current url. */
    method TakeOne(url: nat, present: bool, ghost lists: seq<Admitted>)
      requires Valid(lists) && pcur < |db| && db[pcur].url == url && (present <==> InLimits(lists, url))
      modifies this, checked
      ensures Valid(lists) && pcur == old(pcur) + 1
    {
      FilteredStep(db, pcur, tag, lists);
      hide Filtered, CrdUrlsAscend, InLimits;
      ghost var kept := checked[..count];
      var c := db[pcur];
      if present {
        if tag.secno == 0 || WrdSec(c.coord) == tag.secno {
          var mlen := WrdLen(c.coord);
          if mlen == 0 || mlen == tag.ulen {
            checked[count] := Tagged(c, tag);
            count := count + 1;
            assert checked[..count] == kept + [Tagged(c, tag)];
          }
        }
      }
      pcur := pcur + 1;
    }
  }

  lemma FromNext(db: seq<Crd>, n: nat, url: nat)
    requires CrdUrlsAscend(db) && n <= |db|
    requires forall k | n <= k < |db| :: url <= db[k].url
    requires n < |db| ==> db[n].url != url
    ensures forall k | n <= k < |db| :: url + 1 <= db[k].url
  {
    forall k | n <= k < |db| ensures url + 1 <= db[k].url {
      assert db[n].url <= db[k].url;
    }
  }

  // ---------- the walk ----------

  ghost predicate Distinct(items: seq<StackItem>) {
    forall i, j | 0 <= i < j < |items| :: items[i] != items[j] && items[i].checked != items[j].checked
  }

  ghost predicate AllValid(items: seq<StackItem>, lists: seq<Admitted>)
    reads items, Outputs(items)
  {
    forall i | 0 <= i < |items| :: items[i].Valid(lists)
  }

  ghost predicate AllFrom(items: seq<StackItem>, low: nat)
    reads items
  {
    forall i | 0 <= i < |items| :: items[i].From(low)
  }

  ghost function Outputs(items: seq<StackItem>): set<object> {
    set i | 0 <= i < |items| :: items[i].checked
  }

  ghost function Cursors(items: seq<StackItem>): (r: seq<nat>)
    reads items
    ensures |r| == |items|
  {
    seq(|items|, i requires 0 <= i < |items| reads items => items[i].pcur)
  }

  function Sum(s: seq<nat>): nat {
    if s == [] then 0 else Sum(s[..|s| - 1]) + s[|s| - 1]
  }

  lemma SumStep(s: seq<nat>, n: nat)
    ensures Sum([]) == 0 && Sum(s + [n]) == Sum(s) + n
  {
    assert (s + [n])[..|s|] == s;
  }

  lemma {:induction false} SumGrows(a: seq<nat>, b: seq<nat>)
    requires |a| == |b| && forall i | 0 <= i < |a| :: a[i] <= b[i]
    ensures Sum(a) <= Sum(b) && (a != b ==> Sum(a) < Sum(b))
  {
    if a != [] {
      SumGrows(a[..|a| - 1], b[..|b| - 1]);
      assert a == a[..|a| - 1] + [a[|a| - 1]] && b == b[..|b| - 1] + [b[|b| - 1]];
    }
  }

  /** The smallest url at any read cursor. */
  method NextUrl(items: seq<StackItem>) returns (more: bool, url: nat, ghost at: nat)
    ensures !more ==> forall i | 0 <= i < |items| :: !items[i].More()
    ensures more ==> at < |items| && items[at].More() && items[at].db[items[at].pcur].url == url
    ensures more ==> forall i | 0 <= i < |items| && items[i].More() :: url <= items[i].db[items[i].pcur].url
  {
    more, url, at := false, 0, 0;
    var i := 0;
    while i < |items| && !more
      invariant i <= |items|
      invariant !more ==> forall k | 0 <= k < i :: !items[k].More()
      invariant more ==> at < |items| && items[at].More() && items[at].db[items[at].pcur].url == url
      invariant more ==> forall k | 0 <= k < i && items[k].More() :: url <= items[k].db[items[k].pcur].url
    {
      if items[i].More() {
        more, url, at := true, items[i].db[items[i].pcur].url, i;
      }
      i := i + 1;
    }
    while i < |items|
      invariant i <= |items|
      invariant !more ==> forall k | 0 <= k < i :: !items[k].More()
      invariant more ==> at < |items| && items[at].More() && items[at].db[items[at].pcur].url == url
      invariant more ==> forall k | 0 <= k < i && items[k].More() :: url <= items[k].db[items[k].pcur].url
    {
      if items[i].More() && url > items[i].db[items[i].pcur].url {
        url, at := items[i].db[items[i].pcur].url, i;
      }
      i := i + 1;
    }
  }

  lemma FromCursor(items: seq<StackItem>, lists: seq<Admitted>, url: nat)
    requires AllValid(items, lists)
    requires forall i | 0 <= i < |items| && items[i].More() :: url <= items[i].db[items[i].pcur].url
    ensures AllFrom(items, url)
  {
    hide Filtered;
    forall i, k | 0 <= i < |items| && items[i].pcur <= k < |items[i].db| ensures url <= items[i].db[k].url {
      assert items[i].Valid(lists);
      assert items[i].db[items[i].pcur].url <= items[i].db[k].url;
    }
  }

  /** The merge loop of DpsFindWordsCache: each word ends with its matching postings, in order, and
      the result count is their total. */
  method Walk(items: seq<StackItem>, limits: seq<SearchLimit>) returns (ncoords: nat)
    requires Distinct(items) && Apart(limits)
    requires forall i | 0 <= i < |items| :: CrdUrlsAscend(items[i].db) && items[i].checked.Length == |items[i].db|
    requires forall i | 0 <= i < |items| :: items[i].pcur == 0 && items[i].count == 0
    requires forall i | 0 <= i < |limits| ::
      limits[i].start == 0 && (limits[i].data.Urls? ==> Ascending(limits[i].data.urls))
    modifies items, Outputs(items), limits
    ensures forall i | 0 <= i < |items| ::
      items[i].count <= items[i].checked.Length
      && items[i].checked[..items[i].count] == Filtered(items[i].db, items[i].tag, ListsOf(limits))
    ensures ncoords == Sum(Counts(items))
  {
    ghost var lists := ListsOf(limits);
    WalkStart(items, limits, lists);
    WalkAll(items, limits, lists);
    AllRead(items, lists);
    ncoords := Total(items);
  }

  /** Url after url until every list is read. */
  method WalkAll(items: seq<StackItem>, limits: seq<SearchLimit>, ghost lists: seq<Admitted>)
    requires Distinct(items) && Apart(limits) && lists == ListsOf(limits)
    requires AllValid(items, lists) && AllFrom(items, 0) && AllReady(limits, 0)
    modifies items, Outputs(items), limits
    ensures AllValid(items, lists) && forall i | 0 <= i < |items| :: !items[i].More()
  {
    hide Apart, AllValid, AllReady, AllFrom, Sum, Distinct;
    ghost var total := Sum(Lengths(items));
    ghost var low: nat := 0;
    CursorsBounded(items, lists);
    while true
      invariant AllValid(items, lists) && AllFrom(items, low) && AllReady(limits, low)
      invariant Sum(Cursors(items)) <= total
      decreases total - Sum(Cursors(items))
    {
      var more, url, at := NextUrl(items);
      if !more {
        break;
      }
      UrlIsNext(items, lists, url, at, low);
      WalkUrl(items, limits, url, lists, at, low);
      low := url + 1;
      CursorsBounded(items, lists);
    }
  }

  ghost predicate Apart(limits: seq<SearchLimit>) {
    forall i, j | 0 <= i < j < |limits| :: limits[i] != limits[j]
  }

  ghost predicate AllReady(limits: seq<SearchLimit>, low: nat)
    reads limits
  {
    forall i, m: nat | 0 <= i < |limits| && low <= m :: limits[i].Ready(m)
  }

  lemma UrlIsNext(items: seq<StackItem>, lists: seq<Admitted>, url: nat, at: nat, low: nat)
    requires AllValid(items, lists) && AllFrom(items, low)
    requires at < |items| && items[at].More() && items[at].db[items[at].pcur].url == url
    requires forall i | 0 <= i < |items| && items[i].More() :: url <= items[i].db[items[i].pcur].url
    ensures low <= url && AllFrom(items, url)
  {
    assert items[at].From(low);
    FromCursor(items, lists, url);
  }

  /** One turn: test the url once, then read its postings from every word. */
  method WalkUrl(items: seq<StackItem>, limits: seq<SearchLimit>, url: nat, ghost lists: seq<Admitted>, ghost at: nat,
                 ghost low: nat)
    requires Distinct(items) && Apart(limits)
    requires lists == ListsOf(limits) && AllReady(limits, low) && low <= url
    requires AllValid(items, lists) && AllFrom(items, url)
    requires at < |items| && items[at].More() && items[at].db[items[at].pcur].url == url
    modifies items, Outputs(items), limits
    ensures AllReady(limits, url + 1) && AllValid(items, lists) && AllFrom(items, url + 1)
    ensures Sum(Cursors(items)) > Sum(old(Cursors(items)))
  {
    hide Filtered, CursorOk, Ascending, CrdUrlsAscend, InLimits, Sum;
    var present := PresentInAll(limits, url);
    TakeUrlAll(items, url, present, lists, at);
  }

  lemma AllRead(items: seq<StackItem>, lists: seq<Admitted>)
    requires AllValid(items, lists) && forall i | 0 <= i < |items| :: !items[i].More()
    ensures forall i | 0 <= i < |items| ::
      items[i].count <= items[i].checked.Length
      && items[i].checked[..items[i].count] == Filtered(items[i].db, items[i].tag, lists)
  {
    hide Filtered;
    forall i | 0 <= i < |items|
      ensures items[i].count <= items[i].checked.Length
      ensures items[i].checked[..items[i].count] == Filtered(items[i].db, items[i].tag, lists)
    {
      assert items[i].Valid(lists);
      assert items[i].db[..items[i].pcur] == items[i].db;
    }
  }

  lemma WalkStart(items: seq<StackItem>, limits: seq<SearchLimit>, lists: seq<Admitted>)
    requires forall i | 0 <= i < |items| :: CrdUrlsAscend(items[i].db) && items[i].checked.Length == |items[i].db|
    requires forall i | 0 <= i < |items| :: items[i].pcur == 0 && items[i].count == 0
    requires forall i | 0 <= i < |limits| ::
      limits[i].start == 0 && (limits[i].data.Urls? ==> Ascending(limits[i].data.urls))
    ensures AllValid(items, lists) && AllFrom(items, 0)
    ensures AllReady(limits, 0)
  {
  }

  ghost function Lengths(items: seq<StackItem>): (r: seq<nat>)
    ensures |r| == |items|
  {
    seq(|items|, i requires 0 <= i < |items| => |items[i].db|)
  }

  ghost function Counts(items: seq<StackItem>): (r: seq<nat>)
    reads items
    ensures |r| == |items| && forall i | 0 <= i < |items| :: r[i] == items[i].count
  {
    seq(|items|, i requires 0 <= i < |items| reads items => items[i].count)
  }

  lemma CursorsBounded(items: seq<StackItem>, lists: seq<Admitted>)
    requires AllValid(items, lists)
    ensures Sum(Cursors(items)) <= Sum(Lengths(items))
  {
    hide Filtered, CrdUrlsAscend, Sum;
    forall i | 0 <= i < |items| ensures Cursors(items)[i] <= Lengths(items)[i] {
      assert items[i].Valid(lists);
    }
    SumGrows(Cursors(items), Lengths(items));
  }

  /** Every word reads the postings of the current url. */
  method TakeUrlAll(items: seq<StackItem>, url: nat, present: bool, ghost lists: seq<Admitted>, ghost at: nat)
    requires Distinct(items) && AllValid(items, lists) && AllFrom(items, url) && (present <==> InLimits(lists, url))
    requires at < |items| && items[at].More() && items[at].db[items[at].pcur].url == url
    modifies items, Outputs(items)
    ensures AllValid(items, lists) && AllFrom(items, url + 1)
    ensures Sum(Cursors(items)) > Sum(old(Cursors(items)))
  {
    hide Filtered, CrdUrlsAscend, InLimits, Sum, AllValid, Distinct;
    ghost var before := Cursors(items);
    var i := 0;
    while i < |items|
      invariant i <= |items| && AllValid(items, lists)
      invariant forall k | 0 <= k < |items| :: items[k].From(if k < i then url + 1 else url)
      invariant forall k | 0 <= k < |items| :: items[k].pcur >= before[k] && (k >= i ==> items[k].pcur == before[k])
      invariant at < i ==> items[at].pcur > before[at]
    {
      TakeUrlAt(items, i, url, present, lists);
      i := i + 1;
    }
    assert Cursors(items)[at] > before[at];
    SumGrows(before, Cursors(items));
  }

  /** One word reads the postings of the current url; the others stand still. */
  method TakeUrlAt(items: seq<StackItem>, i: nat, url: nat, present: bool, ghost lists: seq<Admitted>)
    requires Distinct(items) && AllValid(items, lists) && i < |items| && (present <==> InLimits(lists, url))
    requires items[i].From(url)
    modifies items[i], items[i].checked
    ensures AllValid(items, lists) && items[i].From(url + 1) && items[i].pcur >= old(items[i].pcur)
    ensures old(items[i].More()) && items[i].db[old(items[i].pcur)].url == url ==> items[i].pcur > old(items[i].pcur)
    ensures forall k | 0 <= k < |items| && k != i :: items[k].pcur == old(items[k].pcur)
  {
    hide Filtered, CrdUrlsAscend, InLimits;
    items[i].TakeUrl(url, present, lists);
    forall k | 0 <= k < |items| && k != i ensures items[k].Valid(lists) && items[k].pcur == old(items[k].pcur) {
      assert old(items[k].Valid(lists));
    }
  }

  method Total(items: seq<StackItem>) returns (n: nat)
    ensures n == Sum(Counts(items))
  {
    n := 0;
    var i := 0;
    while i < |items|
      invariant i <= |items| && n == Sum(Counts(items)[..i])
    {
      assert Counts(items)[..i + 1][..i] == Counts(items)[..i];
      n := n + items[i].count;
      i := i + 1;
    }
    assert Counts(items)[..i] == Counts(items);
  }
}
