/** The listings of threads, posts and search results: a COUNT query, and the joined query read one page
    at a time. */
module ForumListings {
  import opened Tables
  import opened ForumDb
  import opened ForumForest
  import opened ForumRequests
  import opened ForumForestRuns
  import opened Paging
  import ForumIndex
  import PostLives

  datatype Listing = ThreadsOf(sub: Id) | PostsIn(thread: Id) | PostsBy(author: Id) | Found(query: ForumIndex.Query)

  /** The rows the COUNT query sees: no join on the authors. */
  function Counted(db: Db, l: Listing): set<Id> {
    match l
    case ThreadsOf(sub) => set t | t in db.threads && db.threads[t].sub == sub
    case PostsIn(thread) => set p | p in db.posts && db.posts[p].thread == thread
    case PostsBy(author) => set p | p in db.posts && db.posts[p].author == author && !db.posts[p].deleted
    case Found(query) => ForumIndex.Counted(query, db)
  }

  /** The rows of the listing query, joined to the users (and, for a search, the threads). */
  function Joined(db: Db, l: Listing): set<Id> {
    match l
    case ThreadsOf(sub) => set t | t in Counted(db, l) && db.threads[t].author in db.users
    case PostsIn(_) => set p | p in Counted(db, l) && db.posts[p].author in db.users
    case PostsBy(_) => set p | p in Counted(db, l) && db.posts[p].author in db.users
    case Found(query) => ForumIndex.Hits(query, db)
  }

  /** The order of a result: every row once, ties broken one way or the other. */
  ghost predicate Orders(rows: seq<Id>, ids: set<Id>) {
    && (forall i, j :: 0 <= i < j < |rows| ==> rows[i] != rows[j])
    && (forall id :: id in rows <==> id in ids)
  }

  lemma {:induction false} OrderSize(rows: seq<Id>, ids: set<Id>)
    requires Orders(rows, ids)
    ensures |rows| == |ids|
  {
    if rows == [] {
      assert ids == {};
    } else {
      var n := |rows| - 1;
      forall id ensures id in rows[..n] <==> id in ids - {rows[n]} {
        if id in ids - {rows[n]} {
          var i :| 0 <= i < |rows| && rows[i] == id;
          assert rows[..n][i] == id;
        }
      }
      assert rows[n] in ids;
      OrderSize(rows[..n], ids - {rows[n]});
    }
  }

  /** Counting and joining agree while every reference resolves. */
  lemma {:induction false} JoinLosesNothing(db: Db, l: Listing)
    requires RefsOk(db)
    ensures Joined(db, l) == Counted(db, l)
  {
    forall id | id in Counted(db, l) ensures id in Joined(db, l) {
      if l.ThreadsOf? {
        assert ThreadRefs(db, db.threads[id]);
      } else {
        assert PostRefs(db, db.posts[id]);
      }
    }
  }

  /** In every state that any run can reach: the threads of a subcategory, the posts of a thread, deleted or not,
      and those posts of a user that nobody has soft-deleted since they were stored. */
  lemma {:induction false} ListsExactly(words: Tokenizer, subs: set<Id>, run: seq<Label>, of: Id, id: Id)
    ensures var db, deeds := Exec(words, Init(subs), run).db, PostLives.Deeds(words, Init(subs), run, id);
            && (id in Joined(db, ThreadsOf(of)) <==> id in db.threads && db.threads[id].sub == of)
            && (id in Joined(db, PostsIn(of)) <==> id in db.posts && db.posts[id].thread == of)
            && (id in Joined(db, PostsBy(of)) <==>
                  && id in db.posts && db.posts[id].author == of
                  && !(exists j :: 0 <= j < |run| && deeds[j].Hidden? && PostLives.LivesSince(deeds, j)))
  {
    var db := Exec(words, Init(subs), run).db;
    ForestAlways(words, subs, run);
    PostLives.DeletedIff(words, subs, run, id);
    JoinLosesNothing(db, ThreadsOf(of));
    JoinLosesNothing(db, PostsIn(of));
    JoinLosesNothing(db, PostsBy(of));
  }

  ghost predicate ShownAt(rows: seq<Id>, per: Count, page: Count, place: nat, id: Id) {
    place < |Page(rows, page, per)| && Page(rows, page, per)[place] == id
  }

  /** In every state that any run of overlapping requests can reach, for every listing, order and page
      size: the separate count is the number of rows listed, and the pages up to the last one announced,
      read in a row, are the whole result. */
  lemma {:induction false} ListingAlwaysWhole(words: Tokenizer, subs: set<Id>, run: seq<Label>, l: Listing,
                                              rows: seq<Id>, per: Count)
    requires var db := Exec(words, Init(subs), run).db;
             && |Counted(db, l)| + per <= TWO63
             && Orders(rows, Joined(db, l))
    ensures var db := Exec(words, Init(subs), run).db;
            var pages := TotalPages(|Counted(db, l)|, per);
            && |Counted(db, l)| == |rows|
            && 1 <= pages < TWO63
            && Pages(rows, pages, per) == rows
  {
    var db := Exec(words, Init(subs), run).db;
    ForestAlways(words, subs, run);
    JoinLosesNothing(db, l);
    OrderSize(rows, Joined(db, l));
    PagesPartition(rows, per);
  }

  lemma PlaceOnPage(rows: seq<Id>, per: Count, page: Count, place: nat, id: Id)
    requires |rows| + per <= TWO63 && page <= TotalPages(|rows|, per) && ShownAt(rows, per, page, place, id)
    ensures var i := Skipped(page, per) + place; i < |rows| && rows[i] == id && page == i / per + 1 && place == i % per
  {
    PageSlice(rows, page, per);
    var i := Skipped(page, per) + place;
    RowShownOnce(rows, per, i, page, place);
  }

  /** Shown on one of the pages announced. */
  ghost predicate Shown(rows: seq<Id>, per: Count, id: Id)
    requires |rows| + per <= TWO63
  {
    exists page: Count, place: nat :: page <= TotalPages(|rows|, per) && ShownAt(rows, per, page, place, id)
  }

  lemma ShownIffListed(rows: seq<Id>, per: Count, id: Id)
    requires |rows| + per <= TWO63
    ensures Shown(rows, per, id) <==> id in rows
  {
    if id in rows {
      var i :| 0 <= i < |rows| && rows[i] == id;
      RowIsShown(rows, per, i);
    }
    if Shown(rows, per, id) {
      ShownIsRow(rows, per, id);
    }
  }

  lemma RowIsShown(rows: seq<Id>, per: Count, i: nat)
    requires |rows| + per <= TWO63 && i < |rows|
    ensures Shown(rows, per, rows[i])
  {
    ShownSomewhere(rows, per, i);
    Remainder(i, per);
    var page: Count := i / per + 1;
    var place: nat := i % per;
    assert ShownAt(rows, per, page, place, rows[i]);
  }

  lemma ShownIsRow(rows: seq<Id>, per: Count, id: Id)
    requires |rows| + per <= TWO63 && Shown(rows, per, id)
    ensures id in rows
  {
    var page: Count, place: nat :| page <= TotalPages(|rows|, per) && ShownAt(rows, per, page, place, id);
    PlaceOnPage(rows, per, page, place, id);
  }

  /** Every row counted is shown on one of the pages announced, and no other row is. */
  lemma ShownIffCounted(db: Db, l: Listing, rows: seq<Id>, per: Count, id: Id)
    requires RefsOk(db) && |Counted(db, l)| + per <= TWO63 && Orders(rows, Joined(db, l))
    ensures |rows| == |Counted(db, l)|
    ensures Shown(rows, per, id) <==> id in Counted(db, l)
  {
    JoinLosesNothing(db, l);
    OrderSize(rows, Joined(db, l));
    ShownIffListed(rows, per, id);
  }

  /** And it is shown in one place only. */
  lemma {:induction false} ShownOnce(ids: set<Id>, rows: seq<Id>, per: Count, id: Id, page: Count, place: nat,
                                     page': Count, place': nat)
    requires |rows| + per <= TWO63 && Orders(rows, ids)
    requires page <= TotalPages(|rows|, per) && ShownAt(rows, per, page, place, id)
    requires page' <= TotalPages(|rows|, per) && ShownAt(rows, per, page', place', id)
    ensures page == page' && place == place'
  {
    PlaceOnPage(rows, per, page, place, id);
    PlaceOnPage(rows, per, page', place', id);
    assert Skipped(page, per) + place == Skipped(page', per) + place';
  }

  lemma ShownSomewhere(rows: seq<Id>, per: Count, i: nat)
    requires |rows| + per <= TWO63 && i < |rows|
    ensures i / per + 1 <= TotalPages(|rows|, per) && i / per + 1 < TWO63
            && ShownAt(rows, per, i / per + 1, i % per, rows[i])
  {
    FewPages(|rows|, per);
    PageOfRow(|rows|, per, i);
    Remainder(i, per);
    RowShownOnce(rows, per, i, i / per + 1, i % per);
  }

  lemma Remainder(i: nat, per: Count)
    ensures 0 <= i % per < per && 0 <= i / per
  {
  }
}
