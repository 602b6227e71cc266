/** Two short runs in which the write-behind index and the simple one differ, and a flush whose result
    depends on how the sort orders equal entries. */
module WriteLosses {
  import opened Sorting
  import opened LogClean
  import opened LogFlush
  import opened WriteBehind
  import opened WriteRuns
  import opened FileNumber

  /** One shard with buffers of ten entries. */
  function OneShard(move: TailMove): Config {
    Config(1, 10, 10, move)
  }

  // ---------- why stamps must ascend ----------

  /** Two commands for one document under the same stamp. */
  function SameStampRun(): seq<Event> {
    [Store(Cmd(Word, 7, 1, [Posting(5, 256)])), Store(Cmd(Word, 7, 1, [Posting(6, 256)]))]
  }

  lemma StoreInOneShard(move: TailMove, s: Shard, cmd: Cmd)
    requires |cmd.words| == 1 && cmd.words[0].coord != 0
    requires |s.words| < 10 && |s.dels| < 10
    ensures StoreDoc(OneShard(move), [s], cmd) ==
      [s.(dels := s.dels + (if cmd.kind.NewWord? then [] else [LogDel(cmd.stamp, cmd.url)]),
          words := s.words + [WordOf(cmd, cmd.words[0])])]
  {
    var cfg := OneShard(move);
    var marked := PutDels(cfg, [s], LogDel(cmd.stamp, cmd.url));
    assert marked == [s.(dels := s.dels + [LogDel(cmd.stamp, cmd.url)])];
    assert PutWords(cfg, marked, cmd, 0) == marked && PutWords(cfg, [s], cmd, 0) == [s];
    assert FileNo(cmd.words[0].wrd, 1) == 0;
    assert s.dels + [] == s.dels;
  }

  /** The second command does not erase the first one's word: words as old as the delete stay. */
  lemma SameStampKeepsOldWords()
    ensures View(Run(OneShard(WholeRecords), SameStampRun())[FileNo(5, 1)], 5) == [Crd(1, 256)]
    ensures Eager(SameStampRun(), 5) == []
  {
    SameStampState();
    SameStampView();
    SameStampEager();
  }

  lemma SameStampState()
    ensures Run(OneShard(WholeRecords), SameStampRun())
         == [Shard([LogWord(7, 1, 5, 256), LogWord(7, 1, 6, 256)], [LogDel(7, 1), LogDel(7, 1)], map[], true)]
  {
    hide StoreDoc;
    var events := SameStampRun();
    var one, two := events[0].cmd, events[1].cmd;
    var w, v, d := LogWord(7, 1, 5, 256), LogWord(7, 1, 6, 256), LogDel(7, 1);
    assert events[..1][..0] == [] && events[..2][..1] == events[..1] && events[..2] == events;
    assert Run(OneShard(WholeRecords), []) == [EmptyShard];
    StoreInOneShard(WholeRecords, EmptyShard, one);
    assert EmptyShard.words + [w] == [w] && EmptyShard.dels + [d] == [d];
    RunStep(OneShard(WholeRecords), events[..1]);
    assert Run(OneShard(WholeRecords), events[..1]) == [Shard([w], [d], map[], true)];
    StoreInOneShard(WholeRecords, Shard([w], [d], map[], true), two);
    assert [w] + [v] == [w, v] && [d] + [d] == [d, d];
    RunStep(OneShard(WholeRecords), events);
    assert events[1] == Store(two) && WordOf(two, two.words[0]) == v;
  }

  lemma SameStampView()
    ensures View(Shard([LogWord(7, 1, 5, 256), LogWord(7, 1, 6, 256)], [LogDel(7, 1), LogDel(7, 1)], map[], true), 5)
         == [Crd(1, 256)]
  {
    var w, v, d := LogWord(7, 1, 5, 256), LogWord(7, 1, 6, 256), LogDel(7, 1);
    assert [w, v][..1] == [w] && [w][..0] == [];
    assert Fresh(w, [d, d]) && Fresh(v, [d, d]);
    assert Survivors([w, v], [d, d]) == [w, v];
    assert CrdsFor([w, v], 5) == [Crd(1, 256)];
  }

  lemma SameStampEager()
    ensures Eager(SameStampRun(), 5) == []
  {
    var events := SameStampRun();
    var one, two := events[0].cmd, events[1].cmd;
    assert events[..1][..0] == [] && events[..2][..1] == events[..1] && events[..2] == events;
    assert NewCrds(one, 1, 5) == [Crd(1, 256)] && NewCrds(two, 1, 5) == [];
    assert Erase([], 1) == [];
    assert Eager(events[..1], 5) == [Crd(1, 256)];
    assert Erase([Crd(1, 256)], 1) == [];
  }

  // ---------- why the tail must move by whole records ----------

  /** Url 1 is indexed, url 2 is added, url 1 is indexed again, and everything is flushed. */
  function LostTailRun(): seq<Event> {
    [Store(Cmd(Word, 1, 1, [Posting(5, 256)])), Store(Cmd(NewWord, 1, 2, [Posting(6, 256)])),
     Store(Cmd(Word, 2, 1, [Posting(7, 256)])), SaveAll]
  }

  const LostTailShard: Shard :=
    Shard([LogWord(1, 1, 5, 256), LogWord(1, 2, 6, 256), LogWord(2, 1, 7, 256)],
          [LogDel(1, 1), LogDel(2, 1)], map[], true)

  /** With the move as written, the flush loses url 2's posting and keeps url 1's old one. */
  lemma LostTail()
    ensures StampsAscend(LostTailRun())
    ensures var s := Run(OneShard(AsWritten), LostTailRun())[FileNo(6, 1)];
      && !s.intact
      && OldList(s.lists, 6) == [] && OldList(s.lists, 5) == [Crd(1, 256)]
    ensures Eager(LostTailRun(), 6) == [Crd(2, 256)] && Eager(LostTailRun(), 5) == []
  {
    LostTailState();
    LostTailFlush();
    LostTailEager();
    hide Flush, Run;
    assert FileNo(6, 1) == 0;
  }

  lemma LostTailState()
    ensures Run(OneShard(AsWritten), LostTailRun()) == [Flush(AsWritten, LostTailShard)]
  {
    hide StoreDoc, Flush;
    var cfg, events := OneShard(AsWritten), LostTailRun();
    var w1, w2, w3 := LogWord(1, 1, 5, 256), LogWord(1, 2, 6, 256), LogWord(2, 1, 7, 256);
    var d1, d3 := LogDel(1, 1), LogDel(2, 1);
    assert events[..1][..0] == [] && events[..2][..1] == events[..1] && events[..3][..2] == events[..2];
    assert events[..4] == events && events[..4][..3] == events[..3];
    assert Run(cfg, []) == [EmptyShard];
    assert [] + [w1] == [w1] && [w1] + [w2] == [w1, w2] && [w1, w2] + [w3] == [w1, w2, w3];
    assert [] + [d1] == [d1] && [d1] + [] == [d1] && [d1] + [d3] == [d1, d3];
    StoreInOneShard(AsWritten, EmptyShard, events[0].cmd);
    RunStep(cfg, events[..1]);
    assert Run(cfg, events[..1]) == [Shard([w1], [d1], map[], true)];
    StoreInOneShard(AsWritten, Shard([w1], [d1], map[], true), events[1].cmd);
    RunStep(cfg, events[..2]);
    assert Run(cfg, events[..2]) == [Shard([w1, w2], [d1], map[], true)];
    StoreInOneShard(AsWritten, Shard([w1, w2], [d1], map[], true), events[2].cmd);
    RunStep(cfg, events[..3]);
    assert Run(cfg, events[..3]) == [LostTailShard];
    RunStep(cfg, events);
  }

  lemma LostTailFlush()
    ensures var s := Flush(AsWritten, LostTailShard);
      !s.intact && OldList(s.lists, 6) == [] && OldList(s.lists, 5) == [Crd(1, 256)]
  {
    var s := LostTailShard;
    var log := [LogWord(1, 1, 5, 256), LogWord(2, 1, 7, 256)];
    LostTailDels();
    LostTailSorted();
    ByteMoveLosesAWord();
    LostTailLog();
    hide Sort, NewestDels, NewLists, RemoveOld, NoTailMove, CrdsFor, NewList;
    assert FlushLog(AsWritten, s) == log;
    NewListsHold(s.lists, log, TailDels, 6);
    NewListsHold(s.lists, log, TailDels, 5);
  }

  lemma LostTailLog()
    ensures var log := [LogWord(1, 1, 5, 256), LogWord(2, 1, 7, 256)];
      && Sort(WrdLe, [TailWords[0], TailWords[1]]) == log
      && NewList(map[], log, TailDels, 6) == [] && NewList(map[], log, TailDels, 5) == [Crd(1, 256)]
  {
    var log := [LogWord(1, 1, 5, 256), LogWord(2, 1, 7, 256)];
    LostTailCrds(log);
    assert [TailWords[0], TailWords[1]][1..] == [TailWords[1]];
    hide CrdsFor;
  }

  lemma LostTailCrds(log: seq<LogWord>)
    requires log == [LogWord(1, 1, 5, 256), LogWord(2, 1, 7, 256)]
    ensures CrdsFor(log, 6) == [] && CrdsFor(log, 5) == [Crd(1, 256)]
  {
    assert log[..1] == [log[0]] && log[..1][..0] == [];
    assert CrdsFor(log[..1], 6) == [] && CrdsFor(log[..1], 5) == [Crd(1, 256)];
  }

  lemma LostTailDels()
    ensures NewestDels(LostTailShard.dels) == TailDels
  {
    var dels := LostTailShard.dels;
    assert dels[1..] == [LogDel(2, 1)];
    assert Sort(DelLe, dels) == dels;
    assert dels[..1] == [LogDel(1, 1)];
  }

  lemma LostTailSorted()
    ensures Sort(UrlLe, LostTailShard.words) == TailWords
  {
    var words := LostTailShard.words;
    assert words[1..] == [words[1], words[2]] && words[1..][1..] == [words[2]];
    assert Sort(UrlLe, [words[2]]) == [words[2]];
    assert Insert(UrlLe, words[1], [words[2]]) == [words[2], words[1]] by { assert [words[2]][1..] == []; }
    assert Sort(UrlLe, words[1..]) == [words[2], words[1]];
    assert [words[2], words[1]][1..] == [words[1]];
    assert Insert(UrlLe, words[0], [words[1]]) == [words[0], words[1]];
    assert Insert(UrlLe, words[0], [words[2], words[1]]) == [words[2], words[0], words[1]];
  }

  lemma LostTailEager()
    ensures StampsAscend(LostTailRun())
    ensures Eager(LostTailRun(), 6) == [Crd(2, 256)] && Eager(LostTailRun(), 5) == []
  {
    hide Eager;
    LostTailEagerOf(5);
    LostTailEagerOf(6);
  }

  lemma LostTailEagerOf(wrd: nat)
    requires wrd == 5 || wrd == 6
    ensures Eager(LostTailRun(), wrd) == if wrd == 6 then [Crd(2, 256)] else []
  {
    var events := LostTailRun();
    assert events[..4] == events && events[..4][..3] == events[..3] && events[..3][..2] == events[..2];
    assert events[..2][..1] == events[..1] && events[..1][..0] == [];
    LostTailWord(wrd);
    ShortErase();
    hide NewCrds, Erase;
    var first: seq<Crd> := if wrd == 5 then [Crd(1, 256)] else [];
    assert Eager([], wrd) == [];
    assert Eager(events[..1], wrd) == first;
    assert Eager(events[..2], wrd) == if wrd == 6 then [Crd(2, 256)] else first;
    assert Eager(events[..3], wrd) == if wrd == 6 then [Crd(2, 256)] else [];
  }

  lemma ShortErase()
    ensures Erase([], 1) == [] && Erase([Crd(1, 256)], 1) == [] && Erase([Crd(2, 256)], 1) == [Crd(2, 256)]
    ensures Erase([], 2) == []
  {
    assert [Crd(2, 256)][..0] == [];
  }

  /** What the three commands give to a word. */
  lemma LostTailWord(wrd: nat)
    ensures var events := LostTailRun();
      && NewCrds(events[0].cmd, 1, wrd) == (if wrd == 5 then [Crd(1, 256)] else [])
      && NewCrds(events[1].cmd, 1, wrd) == (if wrd == 6 then [Crd(2, 256)] else [])
      && NewCrds(events[2].cmd, 1, wrd) == (if wrd == 7 then [Crd(1, 256)] else [])
  {
    var events := LostTailRun();
    assert NewCrds(events[0].cmd, 0, wrd) == [] && NewCrds(events[1].cmd, 0, wrd) == [];
    assert NewCrds(events[2].cmd, 0, wrd) == [];
  }

  // ---------- why the tail must move by whole records, once more ----------

  /** Url 1's two old words compare equal under DpsCmplog. */
  const TieWords: seq<LogWord> :=
    [LogWord(2, 1, 7, 256), LogWord(1, 1, 5, 256), LogWord(1, 1, 8, 256), LogWord(1, 2, 6, 256)]

  /** The same words with the two in the other order. */
  const SwappedWords: seq<LogWord> :=
    [LogWord(2, 1, 7, 256), LogWord(1, 1, 8, 256), LogWord(1, 1, 5, 256), LogWord(1, 2, 6, 256)]

  /** Both orders are sorted, but the move as written keeps a superseded posting of word 5 in one and of
      word 8 in the other. */
  lemma SortOrderMatters()
    ensures multiset(TieWords) == multiset(SwappedWords)
    ensures Ordered(UrlLe, TieWords) && Ordered(UrlLe, SwappedWords)
    ensures RemoveOld(AsWritten, TieWords, TailDels) == [LogWord(2, 1, 7, 256), LogWord(1, 1, 5, 256)]
    ensures RemoveOld(AsWritten, SwappedWords, TailDels) == [LogWord(2, 1, 7, 256), LogWord(1, 1, 8, 256)]
  {
    TieKeeps(TieWords, 5, 8);
    TieKeeps(SwappedWords, 8, 5);
    hide RemoveOld, MoveTail;
    BothSorted();
  }

  lemma BothSorted()
    ensures multiset(TieWords) == multiset(SwappedWords)
    ensures Ordered(UrlLe, TieWords) && Ordered(UrlLe, SwappedWords)
  {
    assert forall i, j | 0 <= i < j < 4 :: UrlLe(TieWords[i], TieWords[j]);
    assert forall i, j | 0 <= i < j < 4 :: UrlLe(SwappedWords[i], SwappedWords[j]);
  }

  lemma TieKeeps(words: seq<LogWord>, first: nat, second: nat)
    requires words ==
      [LogWord(2, 1, 7, 256), LogWord(1, 1, first, 256), LogWord(1, 1, second, 256), LogWord(1, 2, 6, 256)]
    ensures RemoveOld(AsWritten, words, TailDels) == [words[0], words[1]]
  {
    var dels := TailDels;
    assert words[1..] == [words[1], words[2], words[3]] && words[1..][1..] == [words[2], words[3]];
    assert words[1..][1..][1..] == [words[3]];
    assert Reach([words[3]], 1) == 0 && Reach([words[2], words[3]], 1) == 1;
    assert Reach(words[1..], 1) == 2 && Reach(words, 1) == 3;
    TieSurvivors(words);
    hide Reach, Survivors;
    assert [words[0]] + words[1..] == words;
    assert MoveTail(AsWritten, words, 1, 3) == [words[0], words[1]];
  }

  lemma TieSurvivors(words: seq<LogWord>)
    requires |words| == 4 && words[0] == LogWord(2, 1, 7, 256)
    requires words[1].url == words[2].url == 1 && words[1].stamp == words[2].stamp == 1
    ensures Survivors(words[..3], TailDels) == [words[0]]
  {
    var dels := TailDels;
    assert words[..3][..2] == words[..2] && words[..2][..1] == words[..1] && words[..1][..0] == [];
    assert dels[0] == LogDel(2, 1) && |dels| == 1;
    assert Fresh(words[0], dels) && !Fresh(words[1], dels) && !Fresh(words[2], dels);
    assert Survivors(words[..1], dels) == [words[0]];
    assert Survivors(words[..2], dels) == [words[0]];
  }
}
