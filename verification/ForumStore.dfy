/** The store object: tables updated in place, one method per store call, and the handlers that call
    them in sequence. */
module ForumStore {
  import opened Tables
  import opened ForumDb
  import opened ForumRequests
  import opened ForumHandlers
  import opened Timestamps
  import ForumIndex

  /** The largest of some row ids, found by a scan. */
  method Largest(ids: set<Id>) returns (m: Id)
    requires ids != {}
    ensures m == MaxId(ids)
  {
    m :| m in ids;
    var left := ids - {m};
    while left != {}
      invariant left <= ids && m in ids
      invariant forall i :: i in ids && i !in left ==> i <= m
      decreases left
    {
      var i :| i in left;
      if i > m { m := i; }
      left := left - {i};
    }
  }

  method Allocate(ids: set<Id>) returns (n: Id)
    ensures n == NextId(ids)
  {
    if ids == {} {
      n := 1;
    } else {
      n := Largest(ids);
      n := n + 1;
    }
  }

  class Store {
    const words: Tokenizer
    var users: map<Id, User>
    var subs: set<Id>
    var threads: map<Id, ForumDb.Thread>
    var posts: map<Id, Post>
    var index: Postings
    var readMarks: map<(Id, Id), Stamp>

    ghost function State(): Db
      reads this
    {
      Db(users, subs, threads, posts, index, readMarks)
    }

    constructor (words: Tokenizer, subs: set<Id>)
      ensures State() == Init(subs).db && this.words == words
    {
      this.words := words;
      this.subs := subs;
      users, threads, posts, index, readMarks := map[], map[], map[], map[], map[];
    }

    method CreateUser() returns (id: Id)
      modifies this`users
      ensures id == NextId(old(users).Keys)
      ensures State() == old(State()).(users := old(users)[id := NewUser()])
    {
      id := Allocate(users.Keys);
      users := users[id := NewUser()];
    }

    method CreateThread(sub: Id, author: Id, title: string, at: Stamp) returns (r: Result<Id>)
      modifies this`threads
      ensures var spec := ForumDb.CreateThread(old(State()), sub, author, title, at);
              if spec.Ok? then State() == spec.value.0 && r == Ok(spec.value.1)
              else State() == old(State()) && r == Failed(spec.error)
    {
      if sub !in subs || author !in users {
        return Failed(ForeignKeyViolation);
      }
      var id := Allocate(threads.Keys);
      threads := threads[id := ForumDb.Thread(sub, author, title, false, 0, at, Some(author))];
      r := Ok(id);
    }

    method UpdateLastPost(t: Id, user: Id, at: Stamp)
      modifies this`threads
      ensures State() == ForumDb.UpdateLastPost(old(State()), t, user, at)
    {
      if t in threads {
        threads := threads[t := threads[t].(lastPostAt := at)];
        threads := threads[t := threads[t].(lastPostBy := Some(user))];
        threads := threads[t := threads[t].(replyCount := threads[t].replyCount + 1)];
      }
    }

    method IncrementPostCount(u: Id)
      modifies this`users
      ensures State() == ForumDb.IncrementPostCount(old(State()), u)
    {
      if u in users {
        users := users[u := users[u].(postCount := users[u].postCount + 1)];
      }
    }

    /** The nesting check is a query of its own, before the insert. */
    method NestedTooDeep(parent: Id) returns (deep: bool)
      ensures deep == TooDeep(posts, parent)
    {
      deep := false;
      if parent in posts && posts[parent].parent.Some? {
        var grand := posts[parent].parent.value;
        if grand in posts {
          deep := posts[grand].parent.Some?;
        }
      }
    }

    method CreatePost(p: Post) returns (r: Result<Id>)
      modifies this`posts, this`index
      ensures var spec := ForumDb.CreatePost(words, old(State()), p);
              if spec.Ok? then State() == spec.value.0 && r == Ok(spec.value.1)
              else State() == old(State()) && r == Failed(spec.error)
    {
      if p.parent.Some? {
        var deep := NestedTooDeep(p.parent.value);
        if deep {
          return Failed(TooDeeplyNested);
        }
      }
      var id := Allocate(posts.Keys);
      if !(p.thread in threads && p.author in users) {
        return Failed(ForeignKeyViolation);
      }
      posts := posts[id := p];
      if p.parent.Some? && p.parent.value !in posts {
        posts := posts - {id};
        assert posts == old(posts);
        return Failed(ForeignKeyViolation);
      }
      index := Index(words, index, threads, id, p);
      r := Ok(id);
    }

    /** Updates one row, firing the update trigger after: the old text comes out, the new text goes in. */
    method ReplaceRow(id: Id, p: Post)
      requires id in posts
      modifies this`posts, this`index
      ensures State() == ReplacePost(words, old(State()), id, p)
    {
      var before := posts[id];
      posts := posts[id := p];
      index := Unindex(words, index, threads, id, before);
      index := Index(words, index, threads, id, p);
    }

    method UpdatePost(id: Id, body: string, held: bool, editor: Id)
      modifies this`posts, this`index
      ensures State() == ForumDb.UpdatePost(words, old(State()), id, body, held, editor)
    {
      if id in posts {
        var before := posts[id];
        var edited :=
          before.(body := body, held := held, editCount := before.editCount + 1, editedBy := Some(editor));
        Edits(words, State(), id, body, held, editor, edited);
        ReplaceRow(id, edited);
      }
    }

    static lemma Edits(words: Tokenizer, db: Db, id: Id, body: string, held: bool, editor: Id, edited: Post)
      requires id in db.posts
      requires var p := db.posts[id];
               edited == p.(body := body, held := held, editCount := p.editCount + 1, editedBy := Some(editor))
      ensures ForumDb.UpdatePost(words, db, id, body, held, editor) == ReplacePost(words, db, id, edited)
    {
    }

    method DeletePost(id: Id, moderator: Id)
      modifies this`posts, this`index
      ensures State() == ForumDb.DeletePost(words, old(State()), id, moderator)
    {
      if id in posts {
        ReplaceRow(id, posts[id].(deleted := true, editedBy := Some(moderator)));
      }
    }

    method MarkThreadRead(u: Id, t: Id, at: Stamp)
      modifies this`readMarks
      ensures State() == ForumDb.MarkThreadRead(old(State()), u, t, at)
    {
      if u in users && t in threads {
        readMarks := readMarks[(u, t) := at];
      }
    }

    /** The thread row, then its posts, then its read marks. */
    method DeleteThread(t: Id)
      modifies this`threads, this`posts, this`index, this`readMarks
      ensures State() == ForumDb.DeleteThread(words, old(State()), t)
    {
      if t !in threads {
        return;
      }
      threads := threads - {t};
      CascadePosts(t);
      readMarks := map k | k in readMarks && k.1 != t :: readMarks[k];
    }

    /** Deletes one row, firing the delete trigger first. */
    method DeleteRow(id: Id)
      requires id in posts
      modifies this`posts, this`index
      ensures index == Unindex(words, old(index), threads, id, old(posts)[id])
      ensures posts == old(posts) - {id}
    {
      index := Unindex(words, index, threads, id, posts[id]);
      posts := posts - {id};
    }

    /** Sets the parent of one row to NULL, firing the update trigger after. */
    method DetachRow(id: Id)
      requires id in posts
      modifies this`posts, this`index
      ensures posts == old(posts)[id := old(posts)[id].(parent := None)]
      ensures index == Reindex(words, old(index), threads, id, old(posts)[id], old(posts)[id].(parent := None))
    {
      ReplaceRow(id, posts[id].(parent := None));
    }

    /** The rows of `ids` have lost their parent. */
    static function Detached(posts: map<Id, Post>, ids: set<Id>): map<Id, Post> {
      map p | p in posts :: if p in ids then posts[p].(parent := None) else posts[p]
    }

    /** ON DELETE SET NULL: the replies to one deleted post, in any thread, in any order. */
    method DetachReplies(id: Id)
      modifies this`posts, this`index
      ensures var kids := Replies(old(posts), {id});
              && posts == Detached(old(posts), kids)
              && index == Triggered(words, old(index), threads, old(posts), kids, Threaded(threads, old(posts), kids))
    {
      ghost var before, was := posts, index;
      var kids := Replies(posts, {id});
      var left := kids;
      ghost var freed: set<Id> := {};
      ForumIndex.TriggeredNone(words, was, threads, before);
      while left != {}
        invariant freed !! left && freed + left == kids && kids <= before.Keys
        invariant posts == Detached(before, freed)
        invariant index == Triggered(words, was, threads, before, freed, Threaded(threads, before, freed))
        decreases left
      {
        var kid :| kid in left;
        DetachedOne(words, was, threads, before, freed, kid);
        DetachRow(kid);
        left := left - {kid};
        freed := freed + {kid};
      }
    }

    static lemma DetachedOne(words: Tokenizer, index: Postings, threads: map<Id, ForumDb.Thread>, before: map<Id, Post>,
                             freed: set<Id>, kid: Id)
      requires freed <= before.Keys && kid in before && kid !in freed
      ensures var posts := Detached(before, freed);
              var now := Triggered(words, index, threads, before, freed, Threaded(threads, before, freed));
              && posts[kid := posts[kid].(parent := None)] == Detached(before, freed + {kid})
              && Reindex(words, now, threads, kid, posts[kid], posts[kid].(parent := None))
                 == Triggered(words, index, threads, before, freed + {kid}, Threaded(threads, before, freed + {kid}))
    {
      var posts := Detached(before, freed);
      var now := Triggered(words, index, threads, before, freed, Threaded(threads, before, freed));
      ForumIndex.OneTrigger(words, now, threads, posts, kid, posts[kid].(parent := None));
      ForumIndex.TriggeredTwice(words, index, threads, before, posts, freed, Threaded(threads, before, freed), {kid},
        Threaded(threads, posts, {kid}));
      assert Threaded(threads, before, freed) + Threaded(threads, posts, {kid})
             == Threaded(threads, before, freed + {kid});
    }

    /** ON DELETE CASCADE: the posts of a deleted thread, in any order, each with its delete trigger, and
        after each the replies to it. */
    method CascadePosts(t: Id)
      requires t !in threads
      modifies this`posts, this`index
      ensures var gone := PostsOf(old(posts), t);
              var orphans := Orphans(old(posts), gone);
              && posts == Survivors(old(posts), gone)
              && index == Triggered(words, old(index), threads, old(posts), gone + orphans,
                 Threaded(threads, old(posts), orphans))
    {
      ghost var before, was := posts, index;
      var gone := PostsOf(posts, t);
      var left := gone;
      ghost var done: set<Id> := {};
      NothingGone(words, was, threads, before);
      while left != {}
        invariant done !! left && done + left == gone
        invariant posts == Survivors(before, done)
        invariant index == Fired(words, was, threads, before, done)
        decreases left
      {
        var id :| id in left;
        OneGone(words, was, threads, before, t, done, id);
        DeleteRow(id);
        DetachReplies(id);
        left := left - {id};
        done := done + {id};
      }
      AllGone(words, was, threads, before, t);
    }

    /** The index when the rows of `done` are deleted and the replies to them have fired. */
    static function Fired(words: Tokenizer, index: Postings, threads: map<Id, ForumDb.Thread>, posts: map<Id, Post>,
                          done: set<Id>): Postings
      requires done <= posts.Keys
    {
      Triggered(words, index, threads, posts, done + Replies(posts, done),
        Threaded(threads, posts, Replies(posts, done)))
    }

    static lemma NothingGone(words: Tokenizer, index: Postings, threads: map<Id, ForumDb.Thread>, posts: map<Id, Post>)
      ensures Fired(words, index, threads, posts, {}) == index && Survivors(posts, {}) == posts
    {
      ForumIndex.TriggeredNone(words, index, threads, posts);
      assert {} + Replies(posts, {}) == {};
      assert Threaded(threads, posts, Replies(posts, {})) == {};
    }

    static lemma AllGone(words: Tokenizer, index: Postings, threads: map<Id, ForumDb.Thread>, posts: map<Id, Post>,
                         t: Id)
      requires t !in threads
      ensures var gone := PostsOf(posts, t);
              var orphans := Orphans(posts, gone);
              Fired(words, index, threads, posts, gone)
                == Triggered(words, index, threads, posts, gone + orphans, Threaded(threads, posts, orphans))
    {
      var gone := PostsOf(posts, t);
      assert gone + Replies(posts, gone) == gone + Orphans(posts, gone);
      assert Threaded(threads, posts, Replies(posts, gone)) == Threaded(threads, posts, Orphans(posts, gone));
    }

    /** One more post of the thread: the rows. */
    static lemma OneGoneRows(threads: map<Id, ForumDb.Thread>, before: map<Id, Post>, t: Id, done: set<Id>, id: Id)
      requires t !in threads && done <= PostsOf(before, t) && id in PostsOf(before, t) && id !in done
      ensures var posts := Survivors(before, done);
              var left := posts - {id};
              var kids := Replies(left, {id});
              && id in posts && Detached(left, kids) == Survivors(before, done + {id})
              && ForumIndex.SameText(before, posts, {id}) && ForumIndex.SameText(before, left, kids)
    {
    }

    /** The rows that fire. */
    static lemma OneGoneFires(threads: map<Id, ForumDb.Thread>, before: map<Id, Post>, t: Id, done: set<Id>, id: Id)
      requires t !in threads && done <= PostsOf(before, t) && id in PostsOf(before, t) && id !in done
      ensures var left := Survivors(before, done) - {id};
              var kids := Replies(left, {id});
              var again := Threaded(threads, before, Replies(before, done));
              && again !! {id} && again !! kids
              && done + Replies(before, done) + {id} + kids == done + {id} + Replies(before, done + {id})
              && again + Threaded(threads, left, kids) == Threaded(threads, before, Replies(before, done + {id}))
    {
    }

    /** And the index. */
    static lemma OneGone(words: Tokenizer, index: Postings, threads: map<Id, ForumDb.Thread>, before: map<Id, Post>,
                         t: Id, done: set<Id>, id: Id)
      requires t !in threads && done <= PostsOf(before, t) && id in PostsOf(before, t) && id !in done
      ensures var posts := Survivors(before, done);
              var left := posts - {id};
              var kids := Replies(left, {id});
              && id in posts
              && Detached(left, kids) == Survivors(before, done + {id})
              && Triggered(words, Unindex(words, Fired(words, index, threads, before, done), threads, id, posts[id]),
                 threads, left, kids, Threaded(threads, left, kids))
                 == Fired(words, index, threads, before, done + {id})
    {
      var posts := Survivors(before, done);
      OneGoneRows(threads, before, t, done, id);
      OneGoneFires(threads, before, t, done, id);
      OneGoneIndex(words, index, threads, before, posts, posts - {id}, done + Replies(before, done),
        Threaded(threads, before, Replies(before, done)),
                   id, Replies(posts - {id}, {id}));
    }

    static lemma OneGoneIndex(words: Tokenizer, index: Postings, threads: map<Id, ForumDb.Thread>,
                              before: map<Id, Post>, posts: map<Id, Post>,
                              left: map<Id, Post>, out: set<Id>, again: set<Id>, id: Id, kids: set<Id>)
      requires out <= before.Keys && again <= before.Keys && again !! {id} && again !! kids
      requires ForumIndex.SameText(before, posts, {id}) && ForumIndex.SameText(before, left, kids)
      ensures var fired := Triggered(words, index, threads, before, out, again);
              Triggered(words, Unindex(words, fired, threads, id, posts[id]), threads, left, kids,
                Threaded(threads, left, kids))
              == Triggered(words, index, threads, before, out + {id} + kids, again + Threaded(threads, left, kids))
    {
      var fired := Triggered(words, index, threads, before, out, again);
      ForumIndex.OneTrigger(words, fired, threads, posts, id, posts[id]);
      ForumIndex.TriggeredTwice(words, index, threads, before, posts, out, again, {id}, {});
      assert again + {} == again;
      ForumIndex.TriggeredTwice(words, index, threads, before, left, out + {id}, again, kids,
        Threaded(threads, left, kids));
    }

    // ----- Handlers -----

    method ReplyToThread(t: Id, u: Id, parent: Option<Id>, body: string, held: bool, now: Moment)
        returns (answer: Reply)
      modifies this
      ensures (State(), answer) == Replied(words, old(State()), t, u, parent, body, held, Text(now))
    {
      if u !in users || users[u].banned {
        return Refused;
      }
      if t !in threads {
        return Reply.NotFound;
      }
      if threads[t].locked && !users[u].moderator {
        return Refused;
      }
      if body == "" {
        return Empty;
      }
      var stored := CreatePost(NewPost(t, u, parent, body, held));
      if stored.Failed? {
        return StoreError;
      }
      UpdateLastPost(t, u, Text(now));
      IncrementPostCount(u);
      answer := Posted(stored.value);
    }

    method StartThread(sub: Id, u: Id, title: string, body: string, held: bool, now: Moment) returns (answer: Started)
      modifies this
      ensures (State(), answer) == ThreadStarted(words, old(State()), sub, u, title, body, held, Text(now))
    {
      if u !in users || users[u].banned || sub !in subs || title == "" || |title| > 200 || body == "" {
        return NotStarted;
      }
      var row := CreateThread(sub, u, title, Text(now));
      if row.Failed? {
        return NotStarted;
      }
      var stored := CreatePost(NewPost(row.value, u, None, body, held));
      answer := if stored.Failed? then Incomplete else Started.Thread(row.value);
    }

    method ThreadPage(t: Id, viewer: Option<Id>, full: bool, now: Moment) returns (found: bool)
      modifies this`readMarks
      ensures found <==> t in threads
      ensures State() == PageOpened(old(State()), t, viewer, full, Text(now))
    {
      found := t in threads;
      if found && full && viewer.Some? {
        MarkThreadRead(viewer.value, t, Text(now));
      }
    }
  }
}
