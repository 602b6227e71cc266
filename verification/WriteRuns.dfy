/** Runs of document commands and flushes against the index that applies each command at once. */
module WriteRuns {
  import opened LogClean
  import opened LogFlush
  import opened WriteBehind
  import opened FileNumber

  /** DPS_LOGD_CMD_DELETE, DPS_LOGD_CMD_WORD, DPS_LOGD_CMD_NEWORD. */
  datatype Kind = Delete | Word | NewWord
  datatype Posting = Posting(wrd: nat, coord: nat)
  datatype Cmd = Cmd(kind: Kind, stamp: int, url: nat, words: seq<Posting>)

  /** WrdFiles, CacheLogDels, CacheLogWords, and how the flush moves the tail of the log. */
  datatype Config = Config(files: nat, maxDels: nat, maxWords: nat, move: TailMove)

  predicate Usable(cfg: Config) {
    cfg.files > 0 && cfg.maxDels > 0 && cfg.maxWords > 0
  }

  type Index = seq<Shard>

  // ---------- commands ----------

  /** Make room when the delete buffer is full, then append. */
  function PutDel(cfg: Config, s: Shard, d: LogDel): Shard {
    var room := if |s.dels| == cfg.maxDels then Flush(cfg.move, s) else s;
    room.(dels := room.dels + [d])
  }

  function PutWord(cfg: Config, s: Shard, w: LogWord): Shard {
    var room := if |s.words| == cfg.maxWords then Flush(cfg.move, s) else s;
    room.(words := room.words + [w])
  }

  /** The delete goes to every shard. */
  function PutDels(cfg: Config, index: Index, d: LogDel): (r: Index)
    ensures |r| == |index|
  {
    seq(|index|, i requires 0 <= i < |index| => PutDel(cfg, index[i], d))
  }

  function WordOf(cmd: Cmd, p: Posting): LogWord {
    LogWord(cmd.stamp, cmd.url, p.wrd, p.coord)
  }

  /** The first n words of the command go to their shards; coordinate 0 is skipped. */
  function PutWords(cfg: Config, index: Index, cmd: Cmd, n: nat): (r: Index)
    requires |index| == cfg.files > 0 && n <= |cmd.words|
    ensures |r| == |index|
  {
    if n == 0 then index
    else
      var done, p := PutWords(cfg, index, cmd, n - 1), cmd.words[n - 1];
      var num := FileNo(p.wrd, cfg.files);
      if p.coord == 0 then done else done[num := PutWord(cfg, done[num], WordOf(cmd, p))]
  }

  /** DpsLogdStoreDoc. */
  function StoreDoc(cfg: Config, index: Index, cmd: Cmd): (r: Index)
    requires |index| == cfg.files > 0
    ensures |r| == |index|
  {
    var marked := if cmd.kind.NewWord? then index else PutDels(cfg, index, LogDel(cmd.stamp, cmd.url));
    PutWords(cfg, marked, cmd, |cmd.words|)
  }

  /** A shard is flushed when something is pending. */
  function Save(cfg: Config, s: Shard): Shard {
    if s.words != [] || s.dels != [] then Flush(cfg.move, s) else s
  }

  /** DpsLogdSaveAllBufs. */
  function SaveAllBufs(cfg: Config, index: Index): (r: Index)
    ensures |r| == |index|
  {
    seq(|index|, i requires 0 <= i < |index| => Save(cfg, index[i]))
  }

  /** A command, the timed flush of one shard, or the flush of all. */
  datatype Event = Store(cmd: Cmd) | SaveOne(num: nat) | SaveAll

  function Step(cfg: Config, index: Index, e: Event): (r: Index)
    requires |index| == cfg.files > 0
    ensures |r| == |index|
  {
    match e
    case Store(cmd) => StoreDoc(cfg, index, cmd)
    case SaveOne(num) => if num < |index| then index[num := Save(cfg, index[num])] else index
    case SaveAll => SaveAllBufs(cfg, index)
  }

  function Run(cfg: Config, events: seq<Event>): (r: Index)
    requires Usable(cfg)
    ensures |r| == cfg.files
  {
    if events == [] then seq(cfg.files, i => EmptyShard)
    else
      Step(cfg, Run(cfg, events[..|events| - 1]), events[|events| - 1])
  }

  // ---------- the simple index ----------

  /** The postings the first n words of a command give to a word. */
  function NewCrds(cmd: Cmd, n: nat, wrd: nat): seq<Crd>
    requires n <= |cmd.words|
  {
    if n == 0 then []
    else
      var p := cmd.words[n - 1];
      NewCrds(cmd, n - 1, wrd) + (if p.coord != 0 && p.wrd == wrd then [Crd(cmd.url, p.coord)] else [])
  }

  /** On each command, erase the url's postings, then add the new ones. */
  function Eager(events: seq<Event>, wrd: nat): seq<Crd> {
    if events == [] then []
    else
      var sofar, e := Eager(events[..|events| - 1], wrd), events[|events| - 1];
      match e
      case Store(cmd) =>
        (if cmd.kind.NewWord? then sofar else Erase(sofar, cmd.url)) + NewCrds(cmd, |cmd.words|, wrd)
      case SaveOne(_) => sofar
      case SaveAll => sofar
  }

  /** Later commands of a url bear later stamps; one that only adds words may repeat the stamp. */
  ghost predicate StampsAscend(events: seq<Event>) {
    forall i, j | 0 <= i < j < |events| && events[i].Store? && events[j].Store?
      && events[i].cmd.url == events[j].cmd.url ::
      InOrder(events[i].cmd.stamp, events[j].cmd)
  }

  predicate InOrder(stamp: int, cmd: Cmd) {
    if cmd.kind.NewWord? then stamp <= cmd.stamp else stamp < cmd.stamp
  }

  // ---------- stamps of what is pending ----------

  ghost function Mark(w: LogWord): LogDel {
    LogDel(w.stamp, w.url)
  }

  ghost function History(events: seq<Event>): set<LogDel> {
    set i | 0 <= i < |events| && events[i].Store? :: LogDel(events[i].cmd.stamp, events[i].cmd.url)
  }

  /** Everything pending comes from a command of the history. */
  ghost predicate Dated(s: Shard, history: set<LogDel>) {
    && (forall k | 0 <= k < |s.words| :: Mark(s.words[k]) in history)
    && (forall k | 0 <= k < |s.dels| :: s.dels[k] in history)
  }

  ghost predicate Sound(s: Shard, history: set<LogDel>) {
    ListsOk(s.lists) && Dated(s, history)
  }

  ghost predicate Older(history: set<LogDel>, cmd: Cmd) {
    forall x | x in history && x.url == cmd.url :: InOrder(x.stamp, cmd)
  }

  /** s' is sound, and if it is intact then so was s and a word's view has become `crds`. */
  ghost predicate Became(s: Shard, s': Shard, history: set<LogDel>, wrd: nat, crds: seq<Crd>) {
    && Sound(s', history)
    && (s'.intact ==> s.intact && multiset(View(s', wrd)) == multiset(crds))
  }

  lemma FlushBecomes(cfg: Config, s: Shard, history: set<LogDel>, wrd: nat)
    requires Sound(s, history)
    ensures Became(s, Flush(cfg.move, s), history, wrd, View(s, wrd))
    ensures cfg.move.WholeRecords? ==> (Flush(cfg.move, s).intact <==> s.intact)
  {
    FlushKeepsOrder(cfg.move, s);
    if Intact(cfg.move, s) {
      FlushKeepsView(cfg.move, s, wrd);
    }
    hide View, FlushLog, NewestDels, ListsOk, NewLists;
  }

  lemma PutDelBecomes(cfg: Config, s: Shard, cmd: Cmd, history: set<LogDel>, wrd: nat)
    requires Sound(s, history) && Older(history, cmd) && !cmd.kind.NewWord?
    ensures var d := LogDel(cmd.stamp, cmd.url);
      Became(s, PutDel(cfg, s, d), history + {d}, wrd, Erase(View(s, wrd), cmd.url))
    ensures cfg.move.WholeRecords? ==> (PutDel(cfg, s, LogDel(cmd.stamp, cmd.url)).intact <==> s.intact)
  {
    var d := LogDel(cmd.stamp, cmd.url);
    var room := if |s.dels| == cfg.maxDels then Flush(cfg.move, s) else s;
    hide View, Flush, ListsOk, Erase;
    FlushBecomes(cfg, s, history, wrd);
    assert Became(s, room, history, wrd, View(s, wrd));
    BufferedDeleteExact(room, d, wrd);
    if room.intact {
      ErasePermuted(View(room, wrd), View(s, wrd), cmd.url);
    }
  }

  lemma PutWordBecomes(cfg: Config, s: Shard, cmd: Cmd, p: Posting, history: set<LogDel>, wrd: nat)
    requires Sound(s, history) && LogDel(cmd.stamp, cmd.url) in history
    requires forall x | x in history && x.url == cmd.url :: x.stamp <= cmd.stamp
    ensures Became(s, PutWord(cfg, s, WordOf(cmd, p)), history, wrd,
      View(s, wrd) + (if p.wrd == wrd then [Crd(cmd.url, p.coord)] else []))
    ensures cfg.move.WholeRecords? ==> (PutWord(cfg, s, WordOf(cmd, p)).intact <==> s.intact)
  {
    var room := if |s.words| == cfg.maxWords then Flush(cfg.move, s) else s;
    hide View, Flush, ListsOk;
    FlushBecomes(cfg, s, history, wrd);
    assert Became(s, room, history, wrd, View(s, wrd));
    assert Fresh(WordOf(cmd, p), room.dels);
    BufferedWordExact(room, WordOf(cmd, p), wrd);
  }

  // ---------- one command ----------

  lemma {:induction false} PutWordsBecome(cfg: Config, index: Index, cmd: Cmd, n: nat, history: set<LogDel>, wrd: nat)
    requires |index| == cfg.files > 0 && n <= |cmd.words| && LogDel(cmd.stamp, cmd.url) in history
    requires forall x | x in history && x.url == cmd.url :: x.stamp <= cmd.stamp
    requires Sound(index[FileNo(wrd, cfg.files)], history)
    ensures var k := FileNo(wrd, cfg.files); var s, s' := index[k], PutWords(cfg, index, cmd, n)[k];
      Became(s, s', history, wrd, View(s, wrd) + NewCrds(cmd, n, wrd))
        && (cfg.move.WholeRecords? ==> (s'.intact <==> s.intact))
  {
    hide FileNo, PutWord, Sound, View;
    var k := FileNo(wrd, cfg.files);
    var s := index[k];
    if n == 0 {
      assert View(s, wrd) + [] == View(s, wrd);
    } else {
      var p := cmd.words[n - 1];
      PutWordsBecome(cfg, index, cmd, n - 1, history, wrd);
      var done := PutWords(cfg, index, cmd, n - 1)[k];
      PutWordBecomes(cfg, done, cmd, p, history, wrd);
      var more := if p.coord != 0 && p.wrd == wrd then [Crd(cmd.url, p.coord)] else [];
      hide PutWords;
      OnePutWord(cfg, index, cmd, n, k);
      assert View(s, wrd) + (NewCrds(cmd, n - 1, wrd) + more) == (View(s, wrd) + NewCrds(cmd, n - 1, wrd)) + more;
    }
  }

  lemma OnePutWord(cfg: Config, index: Index, cmd: Cmd, n: nat, k: nat)
    requires |index| == cfg.files > 0 && 0 < n <= |cmd.words| && k < |index|
    ensures var p := cmd.words[n - 1]; var done := PutWords(cfg, index, cmd, n - 1)[k];
      PutWords(cfg, index, cmd, n)[k]
        == if p.coord != 0 && FileNo(p.wrd, cfg.files) == k then PutWord(cfg, done, WordOf(cmd, p)) else done
  {
    hide FileNo, PutWord;
  }

  lemma StoreBecomes(cfg: Config, index: Index, cmd: Cmd, history: set<LogDel>, wrd: nat)
    requires |index| == cfg.files > 0 && Older(history, cmd) && Sound(index[FileNo(wrd, cfg.files)], history)
    ensures var k := FileNo(wrd, cfg.files); var s, s' := index[k], StoreDoc(cfg, index, cmd)[k];
      var rest := if cmd.kind.NewWord? then View(s, wrd) else Erase(View(s, wrd), cmd.url);
      Became(s, s', history + {LogDel(cmd.stamp, cmd.url)}, wrd, rest + NewCrds(cmd, |cmd.words|, wrd))
        && (cfg.move.WholeRecords? ==> (s'.intact <==> s.intact))
  {
    var k := FileNo(wrd, cfg.files);
    var d := LogDel(cmd.stamp, cmd.url);
    var marked := if cmd.kind.NewWord? then index else PutDels(cfg, index, d);
    hide View, FileNo, PutDel, Erase, ListsOk, PutWords, NewCrds;
    if !cmd.kind.NewWord? {
      PutDelBecomes(cfg, index[k], cmd, history, wrd);
    }
    assert Sound(marked[k], history + {d});
    PutWordsBecome(cfg, marked, cmd, |cmd.words|, history + {d}, wrd);
  }

  // ---------- runs ----------

  lemma HistoryGrows(events: seq<Event>)
    requires events != []
    ensures var e := events[|events| - 1];
      History(events) == History(events[..|events| - 1]) + if e.Store? then {LogDel(e.cmd.stamp, e.cmd.url)} else {}
  {
    var init, e := events[..|events| - 1], events[|events| - 1];
    var more := if e.Store? then {LogDel(e.cmd.stamp, e.cmd.url)} else {};
    forall x | x in History(init) + more ensures x in History(events) {
      if x in History(init) {
        var i :| 0 <= i < |init| && init[i].Store? && LogDel(init[i].cmd.stamp, init[i].cmd.url) == x;
        assert events[i] == init[i];
      } else {
        assert events[|events| - 1].Store?;
      }
    }
    forall x | x in History(events) ensures x in History(init) + more {
      var i :| 0 <= i < |events| && events[i].Store? && LogDel(events[i].cmd.stamp, events[i].cmd.url) == x;
      assert i < |init| ==> init[i] == events[i];
    }
  }

  lemma LastIsOlder(events: seq<Event>)
    requires events != [] && StampsAscend(events) && events[|events| - 1].Store?
    ensures Older(History(events[..|events| - 1]), events[|events| - 1].cmd)
  {
    var init, cmd := events[..|events| - 1], events[|events| - 1].cmd;
    forall x | x in History(init) && x.url == cmd.url ensures InOrder(x.stamp, cmd) {
      var i :| 0 <= i < |init| && init[i].Store? && LogDel(init[i].cmd.stamp, init[i].cmd.url) == x;
      assert events[i] == init[i];
    }
  }

  ghost predicate Agrees(s: Shard, history: set<LogDel>, wrd: nat, crds: seq<Crd>) {
    Sound(s, history) && (s.intact ==> multiset(View(s, wrd)) == multiset(crds))
  }

  lemma {:induction false} RunAgrees(cfg: Config, events: seq<Event>, wrd: nat)
    requires Usable(cfg) && StampsAscend(events)
    ensures var s := Run(cfg, events)[FileNo(wrd, cfg.files)];
      Agrees(s, History(events), wrd, Eager(events, wrd)) && (cfg.move.WholeRecords? ==> s.intact)
  {
    hide FileNo, View, Step, History, StampsAscend, ListsOk;
    if events == [] {
      EmptyAgrees(wrd, History(events));
    } else {
      var init, e := events[..|events| - 1], events[|events| - 1];
      PrefixAscends(events);
      RunAgrees(cfg, init, wrd);
      HistoryGrows(events);
      hide Agrees, Run, Eager;
      StepAgrees(cfg, Run(cfg, init), events, wrd);
      assert Run(cfg, events) == Step(cfg, Run(cfg, init), e) by { RunStep(cfg, events); }
    }
  }

  lemma PrefixAscends(events: seq<Event>)
    requires events != [] && StampsAscend(events)
    ensures StampsAscend(events[..|events| - 1])
  {
  }

  lemma RunStep(cfg: Config, events: seq<Event>)
    requires Usable(cfg) && events != []
    ensures Run(cfg, events) == Step(cfg, Run(cfg, events[..|events| - 1]), events[|events| - 1])
  {
  }

  lemma EmptyAgrees(wrd: nat, history: set<LogDel>)
    ensures Agrees(EmptyShard, history, wrd, [])
  {
  }

  lemma StepAgrees(cfg: Config, index: Index, events: seq<Event>, wrd: nat)
    requires Usable(cfg) && |index| == cfg.files && events != [] && StampsAscend(events)
    requires var init := events[..|events| - 1]; var s := index[FileNo(wrd, cfg.files)];
      Agrees(s, History(init), wrd, Eager(init, wrd)) && (cfg.move.WholeRecords? ==> s.intact)
    ensures var s := Step(cfg, index, events[|events| - 1])[FileNo(wrd, cfg.files)];
      Agrees(s, History(events), wrd, Eager(events, wrd)) && (cfg.move.WholeRecords? ==> s.intact)
  {
    hide FileNo, View, History, StampsAscend, Sound, StoreDoc, NewCrds, Erase, Flush;
    var init, e := events[..|events| - 1], events[|events| - 1];
    var k := FileNo(wrd, cfg.files);
    HistoryGrows(events);
    match e
    case Store(cmd) =>
      LastIsOlder(events);
      StoreBecomes(cfg, index, cmd, History(init), wrd);
      StoreAgrees(index[k], StoreDoc(cfg, index, cmd)[k], cmd, History(init), wrd, Eager(init, wrd));
    case SaveOne(num) =>
      FlushBecomes(cfg, index[k], History(init), wrd);
      assert History(events) == History(init);
      assert Eager(events, wrd) == Eager(init, wrd);
      assert Step(cfg, index, e)[k] == if num == k then Save(cfg, index[k]) else index[k];
    case SaveAll =>
      FlushBecomes(cfg, index[k], History(init), wrd);
      assert History(events) == History(init);
      assert Eager(events, wrd) == Eager(init, wrd);
      assert Step(cfg, index, e)[k] == Save(cfg, index[k]);
  }

  lemma StoreAgrees(s: Shard, s': Shard, cmd: Cmd, history: set<LogDel>, wrd: nat, crds: seq<Crd>)
    requires Agrees(s, history, wrd, crds)
    requires var rest := if cmd.kind.NewWord? then View(s, wrd) else Erase(View(s, wrd), cmd.url);
      Became(s, s', history + {LogDel(cmd.stamp, cmd.url)}, wrd, rest + NewCrds(cmd, |cmd.words|, wrd))
    ensures Agrees(s', history + {LogDel(cmd.stamp, cmd.url)}, wrd,
      (if cmd.kind.NewWord? then crds else Erase(crds, cmd.url)) + NewCrds(cmd, |cmd.words|, wrd))
  {
    hide View, Sound, NewCrds, Erase;
    if s'.intact {
      ErasePermuted(View(s, wrd), crds, cmd.url);
    }
  }

  /** For every run of commands, and every placement of capacity flushes, timed flushes and full
      flushes, the postings a word's shard stands for are those of the simple index. */
  lemma WriteBehindAgrees(cfg: Config, events: seq<Event>, wrd: nat)
    requires Usable(cfg) && StampsAscend(events)
    ensures var s := Run(cfg, events)[FileNo(wrd, cfg.files)];
      && (s.intact ==> multiset(View(s, wrd)) == multiset(Eager(events, wrd)))
      && (cfg.move.WholeRecords? ==> s.intact)
  {
    hide View;
    RunAgrees(cfg, events, wrd);
  }

  /** After a full flush nothing is pending, and the list on disk is the ordered list of the simple
      index's postings. */
  lemma FlushedListIsEager(cfg: Config, events: seq<Event>, wrd: nat)
    requires Usable(cfg) && StampsAscend(events)
    ensures var s := Run(cfg, events + [SaveAll])[FileNo(wrd, cfg.files)]; var list := OldList(s.lists, wrd);
      && s.words == [] && s.dels == [] && CrdsAscend(list)
      && (wrd in s.lists <==> list != [])
      && (s.intact ==> multiset(list) == multiset(Eager(events, wrd)))
      && (cfg.move.WholeRecords? ==> s.intact)
  {
    var k := FileNo(wrd, cfg.files);
    var all := events + [SaveAll];
    assert all[..|all| - 1] == events && all[|all| - 1] == SaveAll;
    assert StampsAscend(all);
    hide FileNo, StampsAscend, View;
    RunAgrees(cfg, all, wrd);
    RunStep(cfg, all);
    assert Eager(all, wrd) == Eager(events, wrd);
    hide Run, Eager;
    var before := Run(cfg, events)[k];
    var s := Run(cfg, all)[k];
    assert s == Save(cfg, before);
    hide Step;
    assert s.words == [] && s.dels == [] by { hide FlushLog, NewLists, Intact, NewestDels; }
    ViewOfFlushed(s, wrd);
  }

  /** After the flush of one shard nothing is pending in it, its lists on disk are the ordered lists of the
      simple index's postings, and the other shards are as they were. */
  lemma FlushedShardIsEager(cfg: Config, events: seq<Event>, wrd: nat)
    requires Usable(cfg) && StampsAscend(events)
    ensures var k := FileNo(wrd, cfg.files); var after := Run(cfg, events + [SaveOne(k)]);
      var s := after[k]; var list := OldList(s.lists, wrd);
      && s.words == [] && s.dels == [] && CrdsAscend(list)
      && (wrd in s.lists <==> list != [])
      && (s.intact ==> multiset(list) == multiset(Eager(events, wrd)))
      && (cfg.move.WholeRecords? ==> s.intact)
      && forall j | 0 <= j < cfg.files && j != k :: after[j] == Run(cfg, events)[j]
  {
    var k := FileNo(wrd, cfg.files);
    var all := events + [SaveOne(k)];
    assert all[..|all| - 1] == events && all[|all| - 1] == SaveOne(k);
    assert StampsAscend(all);
    hide FileNo, StampsAscend, View;
    RunAgrees(cfg, all, wrd);
    RunStep(cfg, all);
    assert Eager(all, wrd) == Eager(events, wrd);
    hide Run, Eager;
    var s := Run(cfg, all)[k];
    assert s == Save(cfg, Run(cfg, events)[k]);
    assert forall j | 0 <= j < cfg.files && j != k :: Run(cfg, all)[j] == Run(cfg, events)[j];
    hide Step;
    assert s.words == [] && s.dels == [] by { hide FlushLog, NewLists, Intact, NewestDels; }
    ViewOfFlushed(s, wrd);
  }

  // ---------- what runs and the simple index mean, spelled out ----------

  /** A buffer that has room only grows: nothing is flushed before it is full. */
  lemma RoomMeansNoFlush(cfg: Config, s: Shard, d: LogDel, w: LogWord)
    ensures |s.dels| < cfg.maxDels ==> PutDel(cfg, s, d) == Shard(s.words, s.dels + [d], s.lists, s.intact)
    ensures |s.words| < cfg.maxWords ==> PutWord(cfg, s, w) == Shard(s.words + [w], s.dels, s.lists, s.intact)
  {
  }

  /** A full buffer is flushed and then holds the new entry alone. */
  lemma FullMeansFlush(cfg: Config, s: Shard, d: LogDel, w: LogWord)
    ensures |s.dels| == cfg.maxDels ==> PutDel(cfg, s, d).dels == [d] && PutDel(cfg, s, d).words == []
    ensures |s.words| == cfg.maxWords ==> PutWord(cfg, s, w).words == [w] && PutWord(cfg, s, w).dels == []
  {
    hide FlushLog, NewLists, NewestDels, Intact;
  }

  /** A command's n-th word gives a posting of its url and coordinate to its word, unless the coordinate is
      zero. */
  lemma NewCrdsStep(cmd: Cmd, n: nat, wrd: nat)
    requires n < |cmd.words|
    ensures NewCrds(cmd, 0, wrd) == []
    ensures NewCrds(cmd, n + 1, wrd) == NewCrds(cmd, n, wrd)
      + (if cmd.words[n].wrd == wrd && cmd.words[n].coord > 0 then [Crd(cmd.url, cmd.words[n].coord)] else [])
  {
  }

  /** A command of another kind than NewWord first takes all postings of its url away; then it gives those of
      its words. Flushes do nothing to the simple index. */
  lemma EagerStep(events: seq<Event>, cmd: Cmd, num: nat, wrd: nat, c: Crd)
    ensures Eager([], wrd) == []
    ensures multiset(Eager(events + [Store(cmd)], wrd))[c]
         == (if cmd.kind != NewWord && c.url == cmd.url then 0 else multiset(Eager(events, wrd))[c])
            + multiset(NewCrds(cmd, |cmd.words|, wrd))[c]
    ensures Eager(events + [SaveOne(num)], wrd) == Eager(events + [SaveAll], wrd) == Eager(events, wrd)
  {
    assert (events + [Store(cmd)])[..|events|] == events;
    assert (events + [SaveOne(num)])[..|events|] == events && (events + [SaveAll])[..|events|] == events;
    EraseCount(Eager(events, wrd), cmd.url);
    hide Erase, NewCrds;
  }

  ghost predicate AllListsOk(index: Index) {
    forall k | 0 <= k < |index| :: ListsOk(index[k].lists)
  }

  lemma {:induction false} WordsKeepListsOk(cfg: Config, index: Index, cmd: Cmd, n: nat)
    requires |index| == cfg.files > 0 && n <= |cmd.words| && AllListsOk(index)
    ensures AllListsOk(PutWords(cfg, index, cmd, n))
  {
    hide ListsOk, Flush, FileNo;
    if n > 0 {
      WordsKeepListsOk(cfg, index, cmd, n - 1);
      var done := PutWords(cfg, index, cmd, n - 1);
      FlushKeepsOrder(cfg.move, done[FileNo(cmd.words[n - 1].wrd, cfg.files)]);
    }
  }

  lemma StepKeepsListsOk(cfg: Config, index: Index, e: Event)
    requires |index| == cfg.files > 0 && AllListsOk(index)
    ensures AllListsOk(Step(cfg, index, e))
  {
    hide ListsOk, Flush, PutWords;
    forall k | 0 <= k < |index| ensures ListsOk(Flush(cfg.move, index[k]).lists) {
      FlushKeepsOrder(cfg.move, index[k]);
    }
    if e.Store? {
      var cmd := e.cmd;
      var marked := if cmd.kind.NewWord? then index else PutDels(cfg, index, LogDel(cmd.stamp, cmd.url));
      assert AllListsOk(marked);
      WordsKeepListsOk(cfg, marked, cmd, |cmd.words|);
    }
  }

  lemma {:induction false} RunKeepsListsOk(cfg: Config, events: seq<Event>)
    requires Usable(cfg)
    ensures AllListsOk(Run(cfg, events))
  {
    hide Step, ListsOk;
    if events == [] {
      assert ListsOk(EmptyShard.lists) by { EmptyListsOk(); }
    } else {
      RunKeepsListsOk(cfg, events[..|events| - 1]);
      StepKeepsListsOk(cfg, Run(cfg, events[..|events| - 1]), events[|events| - 1]);
    }
  }

  lemma EmptyListsOk()
    ensures ListsOk(EmptyShard.lists)
  {
  }

  /** In every state of every run, each list on disk is ordered by url, and by coordinate within a url. */
  lemma ListsOrdered(cfg: Config, events: seq<Event>, k: nat, wrd: nat, i: nat, j: nat)
    requires Usable(cfg) && k < cfg.files && i < j < |OldList(Run(cfg, events)[k].lists, wrd)|
    ensures var list := OldList(Run(cfg, events)[k].lists, wrd);
      list[i].url < list[j].url || (list[i].url == list[j].url && list[i].coord <= list[j].coord)
  {
    RunKeepsListsOk(cfg, events);
    hide Run;
  }

  /** The commands of a run, without its flushes. */
  function Commands(events: seq<Event>): seq<Cmd> {
    if events == [] then []
    else
      var e := events[|events| - 1];
      Commands(events[..|events| - 1]) + (if e.Store? then [e.cmd] else [])
  }

  function EagerOf(cmds: seq<Cmd>, wrd: nat): seq<Crd> {
    if cmds == [] then []
    else
      var sofar, cmd := EagerOf(cmds[..|cmds| - 1], wrd), cmds[|cmds| - 1];
      (if cmd.kind.NewWord? then sofar else Erase(sofar, cmd.url)) + NewCrds(cmd, |cmd.words|, wrd)
  }

  lemma {:induction false} EagerIgnoresFlushes(events: seq<Event>, wrd: nat)
    ensures Eager(events, wrd) == EagerOf(Commands(events), wrd)
  {
    if events == [] {
    } else {
      var init, e := events[..|events| - 1], events[|events| - 1];
      EagerIgnoresFlushes(init, wrd);
      var sofar := Commands(init);
      hide Erase, NewCrds;
      if e.Store? {
        assert (sofar + [e.cmd])[..|sofar|] == sofar;
      } else {
        assert sofar + [] == sofar;
      }
    }
  }

  /** Where the flushes fall, and how large the buffers are, leaves no trace: two runs of the same
      commands end in the same list for every word, if no flush of its shard lost records in a tail
      move, as none does that moves whole records. */
  lemma PlacementLeavesNoTrace(a: Config, b: Config, xs: seq<Event>, ys: seq<Event>, wrd: nat)
    requires Usable(a) && Usable(b)
    requires StampsAscend(xs) && StampsAscend(ys) && Commands(xs) == Commands(ys)
    requires a.move.WholeRecords? || Run(a, xs + [SaveAll])[FileNo(wrd, a.files)].intact
    requires b.move.WholeRecords? || Run(b, ys + [SaveAll])[FileNo(wrd, b.files)].intact
    ensures OldList(Run(a, xs + [SaveAll])[FileNo(wrd, a.files)].lists, wrd)
         == OldList(Run(b, ys + [SaveAll])[FileNo(wrd, b.files)].lists, wrd)
  {
    hide StampsAscend, CrdsAscend, Run, Eager, FileNo, Commands;
    FlushedListIsEager(a, xs, wrd);
    FlushedListIsEager(b, ys, wrd);
    EagerIgnoresFlushes(xs, wrd);
    EagerIgnoresFlushes(ys, wrd);
    CrdsUnique(OldList(Run(a, xs + [SaveAll])[FileNo(wrd, a.files)].lists, wrd),
               OldList(Run(b, ys + [SaveAll])[FileNo(wrd, b.files)].lists, wrd));
  }
}
