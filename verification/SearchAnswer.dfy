/** From commands to answers: what the walk finds after a full flush is what the simple index holds. */
module SearchAnswer {
  import opened LogClean
  import opened LogFlush
  import opened WriteRuns
  import opened FileNumber
  import opened SearchWalk

  lemma {:induction false} FilteredSplit(a: seq<Crd>, b: seq<Crd>, tag: Tag, lists: seq<Admitted>)
    ensures Filtered(a + b, tag, lists) == Filtered(a, tag, lists) + Filtered(b, tag, lists)
  {
    hide Matches, Tagged;
    if b == [] {
      assert a + b == a;
    } else {
      FilteredSplit(a, b[..|b| - 1], tag, lists);
      assert (a + b)[..|a + b| - 1] == a + b[..|b| - 1];
    }
  }

  /** The same postings in another order give the same matches. */
  lemma {:induction false} FilteredPermuted(a: seq<Crd>, b: seq<Crd>, tag: Tag, lists: seq<Admitted>)
    requires multiset(a) == multiset(b)
    ensures multiset(Filtered(a, tag, lists)) == multiset(Filtered(b, tag, lists))
  {
    hide Filtered;
    if a == [] {
      assert |b| == |multiset(b)| == 0;
    } else {
      var x := a[|a| - 1];
      assert a == a[..|a| - 1] + [x];
      assert x in multiset(b);
      var k :| 0 <= k < |b| && b[k] == x;
      var before, after := b[..k], b[k + 1..];
      assert b == before + ([x] + after);
      assert multiset(b) == multiset(before) + multiset{x} + multiset(after);
      assert multiset(before + after) == multiset(before) + multiset(after);
      assert multiset(a[..|a| - 1]) == multiset(a) - multiset{x};
      FilteredPermuted(a[..|a| - 1], before + after, tag, lists);
      FilteredSplit(a[..|a| - 1], [x], tag, lists);
      FilteredSplit(before, [x] + after, tag, lists);
      FilteredSplit([x], after, tag, lists);
      FilteredSplit(before, after, tag, lists);
    }
  }

  ghost predicate TaggedMatch(db: seq<Crd>, tag: Tag, lists: seq<Admitted>, x: Crd) {
    exists k :: 0 <= k < |db| && Matches(db[k], tag, lists) && x == Tagged(db[k], tag)
  }

  /** The walk's output is in url order, and holds exactly the tagged matches. */
  lemma {:induction false} FilteredIsMatches(db: seq<Crd>, tag: Tag, lists: seq<Admitted>)
    requires CrdUrlsAscend(db)
    ensures CrdUrlsAscend(Filtered(db, tag, lists))
    ensures forall x :: x in Filtered(db, tag, lists) <==> TaggedMatch(db, tag, lists, x)
  {
    hide Matches;
    if db == [] {
    } else {
      var init, c := db[..|db| - 1], db[|db| - 1];
      FilteredIsMatches(init, tag, lists);
      var r := Filtered(init, tag, lists);
      forall i | 0 <= i < |r| ensures r[i].url <= c.url {
        assert r[i] in r;
        var k :| 0 <= k < |init| && Matches(init[k], tag, lists) && r[i] == Tagged(init[k], tag);
        assert db[k].url <= c.url;
      }
      forall x ensures x in Filtered(db, tag, lists) <==> TaggedMatch(db, tag, lists, x) {
        MatchesOneMore(db, tag, lists, x);
      }
    }
  }

  lemma MatchesOneMore(db: seq<Crd>, tag: Tag, lists: seq<Admitted>, x: Crd)
    requires db != []
    ensures var init, c := db[..|db| - 1], db[|db| - 1];
      TaggedMatch(db, tag, lists, x)
      <==> (TaggedMatch(init, tag, lists, x) || (Matches(c, tag, lists) && x == Tagged(c, tag)))
  {
    hide Matches;
    var init := db[..|db| - 1];
    if k :| 0 <= k < |init| && Matches(init[k], tag, lists) && x == Tagged(init[k], tag) {
      assert db[k] == init[k];
    }
    if k :| 0 <= k < |db| && Matches(db[k], tag, lists) && x == Tagged(db[k], tag) {
      assert k < |init| ==> init[k] == db[k];
    }
  }

  /** After any run of commands and a full flush, the list that a search reads for a word is in the
      order the walk needs, and the walk keeps of it what it would keep of the simple index. */
  lemma SearchSeesEager(cfg: Config, events: seq<Event>, wrd: nat, tag: Tag, lists: seq<Admitted>)
    requires Usable(cfg) && StampsAscend(events)
    ensures var s := Run(cfg, events + [SaveAll])[FileNo(wrd, cfg.files)]; var list := OldList(s.lists, wrd);
      && CrdUrlsAscend(list)
      && (s.intact ==> multiset(Filtered(list, tag, lists)) == multiset(Filtered(Eager(events, wrd), tag, lists)))
  {
    var s := Run(cfg, events + [SaveAll])[FileNo(wrd, cfg.files)];
    var list := OldList(s.lists, wrd);
    hide Run, StampsAscend, FileNo, Eager, Filtered;
    FlushedListIsEager(cfg, events, wrd);
    if s.intact {
      FilteredPermuted(list, Eager(events, wrd), tag, lists);
    }
  }
}
