/** The write-behind buffers in memory: DpsLogdStoreDoc, DpsLogdSaveBuf and DpsLogdSaveAllBufs. */
module CacheBuffers {
  import opened Sorting
  import opened LogClean
  import opened LogPasses
  import opened LogFlush
  import opened LogProcess
  import opened WriteBehind
  import opened WriteRuns
  import opened FileNumber

  /** DpsSort on the first n entries. */
  method SortPrefix<T(0)>(a: array<T>, n: nat, le: Order<T>)
    requires n <= a.Length
    modifies a
    ensures a[..n] == Sort(le, old(a[..n]))
  {
    var sorted := Sort(le, a[..n]);
    hide Sort;
    forall k | 0 <= k < n {
      a[k] := sorted[k];
    }
  }

  lemma SortShort<T>(le: Order<T>, s: seq<T>)
    requires |s| <= 1
    ensures Sort(le, s) == s
  {
  }

  /** dps_wrd_buf: the pending words and deletes of one shard. */
  class WordBuffer {
    const data: array<LogWord>
    const delBuf: array<LogDel>
    var nrec: nat
    var ndel: nat
    const base: PostingBase
    ghost var intact: bool

    constructor (maxWords: nat, maxDels: nat)
      ensures Valid() && fresh(Frame()) && data.Length == maxWords && delBuf.Length == maxDels
      ensures State() == EmptyShard
    {
      data := new LogWord[maxWords](_ => LogWord(0, 0, 0, 0));
      delBuf := new LogDel[maxDels](_ => LogDel(0, 0));
      nrec, ndel, intact := 0, 0, true;
      base := new PostingBase();
    }

    ghost predicate Valid()
      reads this, base
    {
      nrec <= data.Length && ndel <= delBuf.Length && ListsOk(base.lists)
    }

    ghost function Frame(): set<object> {
      {this, data, delBuf, base}
    }

    ghost function State(): (s: Shard)
      requires Valid()
      reads this, data, delBuf, base
    {
      Shard(data[..nrec], delBuf[..ndel], base.lists, intact)
    }

    /** Sort and deduplicate the deletes. */
    method PrepareDels() returns (count: nat)
      requires Valid()
      modifies delBuf
      ensures count <= delBuf.Length && delBuf[..count] == NewestDels(old(delBuf[..ndel]))
    {
      hide LastPerUrl, Sort;
      count := ndel;
      if count > 1 {
        SortPrefix(delBuf, count, DelLe);
        count := RemoveDelLogDups(delBuf, count);
      } else {
        SortShort(DelLe, delBuf[..ndel]);
        assert LastPerUrl(delBuf[..ndel]) == delBuf[..ndel] by { LastOfShort(delBuf[..ndel]); }
      }
    }

    /** DpsLogdSaveBuf. */
    method SaveBuf(move: TailMove)
      requires Valid()
      modifies this, data, delBuf, base
      ensures Valid() && State() == Flush(move, old(State()))
    {
      hide FlushLog, NewLists, ListsOk, LogOrdered, OnePerUrl, Intact, NewestDels;
      ghost var before := State();
      FlushLogOrdered(move, before);
      NewestDelsSame(before.dels);
      NewListsOk(before.lists, FlushLog(move, before), NewestDels(before.dels));
      var delCount := PrepareDels();
      var dels := delBuf[..delCount];
      var n := PrepareLog(dels, move, before);
      if n > 0 || delCount > 0 {
        base.ProcessBuf(data[..n], dels);
      } else {
        EmptyFlush(base.lists, data[..n], dels);
      }
      nrec, ndel := 0, 0;
      intact := intact && Intact(move, before);
    }

    /** Drop superseded words and order the rest by word. */
    method PrepareLog(dels: seq<LogDel>, move: TailMove, ghost before: Shard) returns (n: nat)
      requires nrec <= data.Length && before.words == data[..nrec]
      requires OnePerUrl(dels) && dels == NewestDels(before.dels)
      modifies data
      ensures n <= data.Length && data[..n] == FlushLog(move, before)
    {
      hide Sort, RemoveOld, OnePerUrl, UrlsAscend, NewestDels;
      n := nrec;
      SortedIsOrdered(before);
      if n > 1 {
        SortPrefix(data, n, UrlLe);
      } else {
        SortShort(UrlLe, data[..n]);
      }
      n := RemoveOldWords(data, n, dels, move);
      if n > 1 {
        SortPrefix(data, n, WrdLe);
      } else {
        SortShort(WrdLe, data[..n]);
      }
    }

    /** The delete of DpsLogdStoreDoc: make room, then append. */
    method AddDel(cfg: Config, d: LogDel)
      requires Valid() && cfg.maxDels == delBuf.Length > 0
      modifies this, data, delBuf, base
      ensures Valid() && State() == PutDel(cfg, old(State()), d)
    {
      hide ListsOk, Flush;
      if ndel == delBuf.Length {
        ghost var before := State();
        SaveBuf(cfg.move);
        FlushEmpties(cfg.move, before);
      }
      delBuf[ndel] := d;
      ndel := ndel + 1;
    }

    /** The word of DpsLogdStoreDoc: make room, then append. */
    method AddWord(cfg: Config, w: LogWord)
      requires Valid() && cfg.maxWords == data.Length > 0
      modifies this, data, delBuf, base
      ensures Valid() && State() == PutWord(cfg, old(State()), w)
    {
      hide ListsOk, Flush;
      if nrec == data.Length {
        ghost var before := State();
        SaveBuf(cfg.move);
        FlushEmpties(cfg.move, before);
      }
      data[nrec] := w;
      nrec := nrec + 1;
    }
  }

  lemma LastOfShort(dels: seq<LogDel>)
    requires |dels| <= 1
    ensures LastPerUrl(dels) == dels
  {
  }

  lemma EmptyFlush(lists: Lists, log: seq<LogWord>, dels: seq<LogDel>)
    requires ListsOk(lists) && log == [] && dels == []
    ensures NewLists(lists, log, dels) == lists
  {
    EmptyLog(lists, dels);
    FirstPassDone(lists, lists, log, dels);
    NothingToClean(lists, lists, log, lists.Keys - WordsOf(log));
  }

  // ---------- all shards ----------

  /** DPS_LOGD: one buffer for each word file. */
  class WriteCache {
    const cfg: Config
    const bufs: seq<WordBuffer>

    constructor (cfg: Config)
      requires Usable(cfg)
      ensures Valid() && this.cfg == cfg && Contents() == Run(cfg, [])
    {
      var all: seq<WordBuffer> := [];
      while |all| < cfg.files
        invariant |all| <= cfg.files && Apart(all)
        invariant forall k | 0 <= k < |all| ::
          fresh(all[k].Frame()) && Sized(all[k], cfg) && all[k].State() == EmptyShard
        decreases cfg.files - |all|
      {
        var b := new WordBuffer(cfg.maxWords, cfg.maxDels);
        all := all + [b];
      }
      this.cfg := cfg;
      bufs := all;
    }

    ghost predicate Valid()
      reads this, Repr()
    {
      && Usable(cfg) && |bufs| == cfg.files && Apart(bufs)
      && forall k | 0 <= k < |bufs| :: Sized(bufs[k], cfg)
    }

    ghost function Repr(): (r: set<object>)
      ensures forall k | 0 <= k < |bufs| ::
        bufs[k] in r && bufs[k].data in r && bufs[k].delBuf in r && bufs[k].base in r
    {
      (set k | 0 <= k < |bufs| :: bufs[k]) + (set k | 0 <= k < |bufs| :: bufs[k].base)
      + (set k | 0 <= k < |bufs| :: bufs[k].data) + (set k | 0 <= k < |bufs| :: bufs[k].delBuf)
    }

    ghost function Contents(): (index: Index)
      requires Valid()
      reads this, Repr()
      ensures |index| == cfg.files > 0
    {
      seq(|bufs|, k requires 0 <= k < |bufs| && Valid() reads this, Repr() => bufs[k].State())
    }

    method AddDelAt(k: nat, d: LogDel)
      requires Valid() && k < cfg.files
      modifies Repr()
      ensures Valid() && Contents() == old(Contents())[k := PutDel(cfg, old(Contents()[k]), d)]
    {
      hide PutDel, ListsOk;
      ghost var before := Contents();
      bufs[k].AddDel(cfg, d);
      forall j | 0 <= j < |bufs| && j != k ensures Sized(bufs[j], cfg) && bufs[j].State() == before[j] {
        assert before[j] == old(bufs[j].State());
      }
    }

    method AddWordAt(k: nat, w: LogWord)
      requires Valid() && k < cfg.files
      modifies Repr()
      ensures Valid() && Contents() == old(Contents())[k := PutWord(cfg, old(Contents()[k]), w)]
    {
      hide PutWord, ListsOk;
      ghost var before := Contents();
      bufs[k].AddWord(cfg, w);
      forall j | 0 <= j < |bufs| && j != k ensures Sized(bufs[j], cfg) && bufs[j].State() == before[j] {
        assert before[j] == old(bufs[j].State());
      }
    }

    /** Flush one shard if anything is pending in it. */
    method SaveIfPending(k: nat)
      requires Valid() && k < cfg.files
      modifies Repr()
      ensures Valid() && Contents() == old(Contents())[k := Save(cfg, old(Contents()[k]))]
    {
      hide Flush, ListsOk;
      ghost var before := Contents();
      if bufs[k].nrec != 0 || bufs[k].ndel != 0 {
        bufs[k].SaveBuf(cfg.move);
      }
      forall j | 0 <= j < |bufs| && j != k ensures Sized(bufs[j], cfg) && bufs[j].State() == before[j] {
        assert before[j] == old(bufs[j].State());
      }
    }

    /** DpsLogdStoreDoc. */
    method StoreDoc(cmd: Cmd)
      requires Valid()
      modifies Repr()
      ensures Valid() && Contents() == WriteRuns.StoreDoc(cfg, old(Contents()), cmd)
    {
      hide PutDels, PutWords, Valid;
      if !cmd.kind.NewWord? {
        AddDelToAll(LogDel(cmd.stamp, cmd.url));
      }
      if |cmd.words| == 0 && cmd.kind.Delete? {
        NoWords(cfg, Contents(), cmd);
        return;
      }
      AddWords(cmd);
    }

    method AddWords(cmd: Cmd)
      requires Valid()
      modifies Repr()
      ensures Valid() && Contents() == PutWords(cfg, old(Contents()), cmd, |cmd.words|)
    {
      hide PutWord, Valid, FileNo, Contents;
      ghost var before := Contents();
      var i := 0;
      while i < |cmd.words|
        invariant i <= |cmd.words| && Valid() && Contents() == PutWords(cfg, before, cmd, i)
      {
        if cmd.words[i].coord != 0 {
          AddWordAt(FileNo(cmd.words[i].wrd, cfg.files), WordOf(cmd, cmd.words[i]));
        }
        i := i + 1;
      }
    }

    method AddDelToAll(d: LogDel)
      requires Valid()
      modifies Repr()
      ensures Valid() && Contents() == PutDels(cfg, old(Contents()), d)
    {
      hide PutDel, Valid;
      ghost var before := Contents();
      var i := 0;
      while i < cfg.files
        invariant i <= cfg.files && Valid()
        invariant forall k | 0 <= k < cfg.files ::
          Contents()[k] == if k < i then PutDel(cfg, before[k], d) else before[k]
      {
        AddDelAt(i, d);
        i := i + 1;
      }
    }

    /** DpsLogdSaveAllBufs: every shard once, starting at one that depends on the caller. */
    method SaveAllBufs(handle: nat)
      requires Valid()
      modifies Repr()
      ensures Valid() && Contents() == WriteRuns.SaveAllBufs(cfg, old(Contents()))
    {
      hide Save, Valid;
      ghost var before := Contents();
      assert |before| > 0;
      var files := cfg.files;
      var shift: nat := handle * 321 % files;
      var i := 0;
      while i < files
        invariant i <= files && Valid()
        invariant forall k | 0 <= k < files ::
          Contents()[k] == if Turn(k, shift, files) < i then Save(cfg, before[k]) else before[k]
      {
        var pi := Slot(shift, i, files);
        SaveIfPending(pi);
        i := i + 1;
      }
    }

    /** A run step by step: the cache holds what the run says. */
    method Apply(e: Event, handle: nat)
      requires Valid()
      modifies Repr()
      ensures Valid() && Contents() == Step(cfg, old(Contents()), e)
    {
      hide Save, WriteRuns.StoreDoc, WriteRuns.SaveAllBufs, Valid;
      match e
      case Store(cmd) => StoreDoc(cmd);
      case SaveOne(num) =>
        if num < cfg.files {
          SaveIfPending(num);
        }
      case SaveAll => SaveAllBufs(handle);
    }
  }

  lemma NoWords(cfg: Config, index: Index, cmd: Cmd)
    requires |index| == cfg.files > 0 && |cmd.words| == 0
    ensures PutWords(cfg, index, cmd, 0) == index
  {
  }

  /** When a shard's turn comes in a full flush that starts at shard `shift`. */
  function Turn(k: nat, shift: nat, files: nat): nat
    requires k < files && shift < files
  {
    if k >= shift then k - shift else k + files - shift
  }

  /** The shard whose turn is the i-th. */
  function Slot(shift: nat, i: nat, files: nat): (k: nat)
    requires shift < files && i < files
    ensures k < files && forall m: nat | m < files :: Turn(m, shift, files) == i <==> m == k
  {
    assert (shift + i) % files == if shift + i < files then shift + i else shift + i - files;
    (shift + i) % files
  }

  ghost predicate Apart(bufs: seq<WordBuffer>) {
    forall i, j | 0 <= i < j < |bufs| ::
      && bufs[i] != bufs[j] && bufs[i].data != bufs[j].data
      && bufs[i].delBuf != bufs[j].delBuf && bufs[i].base != bufs[j].base
  }

  ghost predicate Sized(b: WordBuffer, cfg: Config)
    reads b, b.base
  {
    b.Valid() && b.data.Length == cfg.maxWords && b.delBuf.Length == cfg.maxDels
  }
}
