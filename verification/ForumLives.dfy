/** The life of every post, told by the labels of a run: where it comes from, what it says, and whether it
    is deleted. */
module PostLives {
  import opened Tables
  import opened ForumDb
  import opened ForumForest
  import opened ForumRequests
  import opened ForumForestRuns

  /** What a step does to one post. */
  datatype Deed =
    | Born(first: Post)
    | Edited(body: string, held: bool, editor: Id)
    | Hidden(editor: Id)
    | Detached
    | Gone
    | Nothing

  ghost function DeedOf(s: System, l: Label, p: Id): Deed {
    match l
    case StoreReply(r, up) => if up && StoresReply(s, r, p) then Born(FirstReply(s.flight[r])) else Nothing
    case StoreOpening(r, up) => if up && StoresOpening(s, r, p) then Born(FirstOpening(s.flight[r])) else Nothing
    case Edit(x, body, held, u) =>
      if x == p && p in s.db.posts && u in s.db.users then Edited(body, held, u) else Nothing
    case SoftDelete(x, u) => if x == p && p in s.db.posts && u in s.db.users then Hidden(u) else Nothing
    case HardDelete(t) => if p in s.db.posts && t in s.db.threads then DeletedUnder(s.db.posts, t, p) else Nothing
    case _ => Nothing
  }

  /** A request that has passed its check is about to store post `p`, with references that resolve; it may
      answer itself. */
  ghost predicate StoresReply(s: System, r: nat, p: Id) {
    && r in s.flight && s.flight[r].ReplyPassed? && p == NextId(s.db.posts.Keys)
    && s.flight[r].thread in s.db.threads && s.flight[r].user in s.db.users
    && (s.flight[r].parent.Some? ==> s.flight[r].parent.value in s.db.posts || s.flight[r].parent.value == p)
  }

  ghost predicate StoresOpening(s: System, r: nat, p: Id) {
    && r in s.flight && s.flight[r].ThreadStored? && p == NextId(s.db.posts.Keys)
    && s.flight[r].thread in s.db.threads && s.flight[r].user in s.db.users
  }

  function FirstReply(q: Request): Post
    requires q.ReplyPassed?
  {
    Post(q.thread, q.user, q.parent, q.body, q.held, false, 0, None)
  }

  function FirstOpening(q: Request): Post
    requires q.ThreadStored?
  {
    Post(q.thread, q.user, None, q.body, q.held, false, 0, None)
  }

  /** The post goes with its thread, or is an answer to one that does. */
  function DeletedUnder(posts: map<Id, Post>, t: Id, p: Id): Deed
    requires p in posts
  {
    var parent := posts[p].parent;
    if posts[p].thread == t then Gone
    else if parent.Some? && parent.value in posts && posts[parent.value].thread == t then Detached
    else Nothing
  }

  /** The deeds of a run, step by step. */
  ghost function Deeds(words: Tokenizer, s: System, run: seq<Label>, p: Id): seq<Deed> {
    seq(|run|, j requires 0 <= j < |run| => DeedOf(Exec(words, s, run[..j]), run[j], p))
  }

  /** Those of the present life, from the birth on. */
  function Life(deeds: seq<Deed>): seq<Deed> {
    if deeds == [] then [] else LifeAfter(Life(deeds[..|deeds| - 1]), deeds[|deeds| - 1])
  }

  function LifeAfter(life: seq<Deed>, d: Deed): seq<Deed> {
    match d
    case Born(_) => [d]
    case Gone => []
    case Nothing => life
    case _ => if life == [] then [] else life + [d]
  }

  // ----- The row of a post, column by column -----

  /** The text written last. */
  function TextOf(first: Post, life: seq<Deed>): (string, bool) {
    if life == [] then (first.body, first.held)
    else
      var d := life[|life| - 1];
      if d.Edited? then (d.body, d.held) else TextOf(first, life[..|life| - 1])
  }

  /** Who edited or deleted it last. */
  function EditorOf(life: seq<Deed>): Option<Id> {
    if life == [] then None
    else
      var d := life[|life| - 1];
      if d.Edited? || d.Hidden? then Some(d.editor) else EditorOf(life[..|life| - 1])
  }

  function EditsIn(life: seq<Deed>): nat {
    if life == [] then 0 else EditsIn(life[..|life| - 1]) + if life[|life| - 1].Edited? then 1 else 0
  }

  function RowOf(life: seq<Deed>): Option<Post> {
    if life == [] || !life[0].Born? then None
    else
      var first := life[0].first;
      var (body, held) := TextOf(first, life);
      Some(Post(first.thread, first.author, if Detached in life then None else first.parent, body, held,
        exists d <- life :: d.Hidden?, EditsIn(life), EditorOf(life)))
  }

  function PostAt(s: System, p: Id): Option<Post> {
    if p in s.db.posts then Some(s.db.posts[p]) else None
  }

  /** What a deed makes of the row. */
  function RowAfter(before: Option<Post>, d: Deed): Option<Post> {
    match d
    case Born(first) => Some(first)
    case Gone => None
    case Nothing => before
    case Edited(body, held, u) =>
      if before.None? then None
      else
        var row := before.value;
        Some(row.(body := body, held := held, editCount := row.editCount + 1, editedBy := Some(u)))
    case Hidden(u) => if before.None? then None else Some(before.value.(deleted := true, editedBy := Some(u)))
    case Detached => if before.None? then None else Some(before.value.(parent := None))
  }

  lemma RowSnoc(life: seq<Deed>, d: Deed)
    requires (life == [] || life[0].Born?) && (d.Born? ==> d.first.editCount == 0)
    requires d.Born? ==> !d.first.deleted && d.first.editedBy.None?
    ensures RowOf(LifeAfter(life, d)) == RowAfter(RowOf(life), d)
  {
    if d.Born? {
      assert [d][..0] == [] && TextOf(d.first, [d]) == (d.first.body, d.first.held);
      assert EditorOf([d]) == None && EditsIn([d]) == 0;
    } else if life != [] && !d.Gone? && !d.Nothing? {
      RowGrows(life, d);
    }
  }

  lemma RowGrows(life: seq<Deed>, d: Deed)
    requires life != [] && life[0].Born? && (d.Edited? || d.Hidden? || d.Detached?)
    ensures RowOf(life + [d]) == RowAfter(RowOf(life), d)
  {
    var longer := life + [d];
    assert longer[..|life|] == life && longer[|life|] == d && longer[0] == life[0];
    assert Detached in longer <==> Detached in life || d.Detached?;
    HiddenGrows(life, d);
  }

  lemma HiddenGrows(life: seq<Deed>, d: Deed)
    ensures (exists x <- life + [d] :: x.Hidden?) <==> (exists x <- life :: x.Hidden?) || d.Hidden?
  {
    assert d in life + [d];
    if x :| x in life && x.Hidden? {
      assert x in life + [d];
    }
  }

  // ----- One step -----

  ghost predicate Follows(words: Tokenizer, s: System, l: Label, p: Id) {
    PostAt(Step(words, s, l), p) == RowAfter(PostAt(s, p), DeedOf(s, l, p))
  }

  lemma ReplyFollows(words: Tokenizer, s: System, r: nat, up: bool, p: Id)
    ensures PostAt(StoreReplyStep(words, s, r, up), p) == RowAfter(PostAt(s, p), DeedOf(s, StoreReply(r, up), p))
  {
  }

  lemma OpeningFollows(words: Tokenizer, s: System, r: nat, up: bool, p: Id)
    ensures PostAt(StoreOpeningStep(words, s, r, up), p) == RowAfter(PostAt(s, p), DeedOf(s, StoreOpening(r, up), p))
  {
  }

  lemma EditFollows(words: Tokenizer, s: System, l: Label, p: Id)
    requires l.Edit?
    ensures Follows(words, s, l, p)
  {
  }

  lemma HideFollows(words: Tokenizer, s: System, l: Label, p: Id)
    requires l.SoftDelete?
    ensures Follows(words, s, l, p)
  {
  }

  lemma DeleteFollows(words: Tokenizer, s: System, t: Id, p: Id)
    ensures PostAt(HardDeleteStep(words, s, t), p) == RowAfter(PostAt(s, p), DeedOf(s, HardDelete(t), p))
  {
  }

  lemma StepFollows(words: Tokenizer, s: System, l: Label, p: Id)
    ensures Follows(words, s, l, p)
  {
    if l.StoreReply? {
      ReplyFollows(words, s, l.r, l.up, p);
    } else if l.StoreOpening? {
      OpeningFollows(words, s, l.r, l.up, p);
    } else if l.Edit? {
      EditFollows(words, s, l, p);
    } else if l.SoftDelete? {
      HideFollows(words, s, l, p);
    } else if l.HardDelete? {
      DeleteFollows(words, s, l.thread, p);
    } else {
      OthersLeavePosts(words, s, l);
    }
  }

  // ----- Whole runs -----

  lemma PrefixStays(run: seq<Label>, l: Label, j: nat)
    requires j <= |run|
    ensures (run + [l])[..j] == run[..j]
  {
  }

  lemma DeedsSnoc(words: Tokenizer, s: System, run: seq<Label>, l: Label, p: Id)
    ensures Deeds(words, s, run + [l], p) == Deeds(words, s, run, p) + [DeedOf(Exec(words, s, run), l, p)]
  {
    assert (run + [l])[..|run|] == run;
    forall j | 0 <= j < |run| ensures (run + [l])[..j] == run[..j] {
      PrefixStays(run, l, j);
    }
  }

  lemma LifeSnoc(deeds: seq<Deed>, d: Deed)
    ensures Life(deeds + [d]) == LifeAfter(Life(deeds), d)
  {
    assert (deeds + [d])[..|deeds|] == deeds;
  }

  lemma {:induction false} LifeBegins(deeds: seq<Deed>)
    ensures Life(deeds) == [] || Life(deeds)[0].Born?
  {
    if deeds != [] {
      LifeBegins(deeds[..|deeds| - 1]);
    }
  }

  lemma RunsApart(run: seq<Label>)
    requires run != []
    ensures run == run[..|run| - 1] + [run[|run| - 1]]
  {
  }

  ghost predicate Told(s: System, deeds: seq<Deed>, p: Id) {
    PostAt(s, p) == RowOf(Life(deeds))
  }

  lemma ToldSnoc(words: Tokenizer, s: System, deeds: seq<Deed>, l: Label, p: Id)
    requires Told(s, deeds, p)
    ensures Told(Step(words, s, l), deeds + [DeedOf(s, l, p)], p)
  {
    StepFollows(words, s, l, p);
    LifeSnoc(deeds, DeedOf(s, l, p));
    LifeBegins(deeds);
    BornFresh(s, l, p);
    RowSnoc(Life(deeds), DeedOf(s, l, p));
  }

  lemma BornFresh(s: System, l: Label, p: Id)
    ensures var d := DeedOf(s, l, p); d.Born? ==> d.first.editCount == 0 && !d.first.deleted && d.first.editedBy.None?
  {
  }

  /** After any run, with failing calls and deletions at any moment, a post is there exactly while its life
      lasts, and every column of its row is what the life says: thread and author as stored, no parent once
      that was deleted, the text written last, deleted if ever, the number of edits and the last editor. */
  lemma {:induction false} PostsTold(words: Tokenizer, subs: set<Id>, run: seq<Label>, p: Id)
    ensures Told(Exec(words, Init(subs), run), Deeds(words, Init(subs), run, p), p)
  {
    if run != [] {
      var front, l := run[..|run| - 1], run[|run| - 1];
      PostsTold(words, subs, front, p);
      ToldSnoc(words, Exec(words, Init(subs), front), Deeds(words, Init(subs), front, p), l, p);
      RunsApart(run);
      DeedsSnoc(words, Init(subs), front, l, p);
    }
  }

  // ----- What that means -----

  /** Nothing after step `j` gave birth to the post or took it away. */
  ghost predicate LivesSince(deeds: seq<Deed>, j: nat) {
    j < |deeds| && forall k :: j < k < |deeds| ==> !deeds[k].Born? && !deeds[k].Gone?
  }

  lemma LivesSnoc(deeds: seq<Deed>, d: Deed, j: nat)
    requires j < |deeds|
    ensures LivesSince(deeds + [d], j) <==> LivesSince(deeds, j) && !d.Born? && !d.Gone?
  {
    var longer := deeds + [d];
    assert longer[|deeds|] == d;
    if LivesSince(longer, j) {
      forall k | j < k < |deeds| ensures !deeds[k].Born? && !deeds[k].Gone? {
        assert longer[k] == deeds[k];
      }
    }
  }

  /** Deeds are done to posts that are there. */
  ghost predicate DoneToLiving(deeds: seq<Deed>) {
    forall j :: 0 <= j < |deeds| && (deeds[j].Edited? || deeds[j].Hidden? || deeds[j].Detached?) ==>
      Life(deeds[..j]) != []
  }

  lemma {:induction false} RunsDoToLiving(words: Tokenizer, subs: set<Id>, run: seq<Label>, p: Id)
    ensures DoneToLiving(Deeds(words, Init(subs), run, p))
  {
    var deeds := Deeds(words, Init(subs), run, p);
    forall j | 0 <= j < |run| && (deeds[j].Edited? || deeds[j].Hidden? || deeds[j].Detached?)
      ensures Life(deeds[..j]) != []
    {
      PostsTold(words, subs, run[..j], p);
      DeedsPrefix(words, Init(subs), run, j, p);
    }
  }

  lemma DeedsPrefix(words: Tokenizer, s: System, run: seq<Label>, j: nat, p: Id)
    requires j <= |run|
    ensures Deeds(words, s, run, p)[..j] == Deeds(words, s, run[..j], p)
  {
    forall k | 0 <= k < j ensures Deeds(words, s, run, p)[k] == Deeds(words, s, run[..j], p)[k] {
      assert run[..j][..k] == run[..k];
    }
  }

  lemma {:induction false} HiddenSince(deeds: seq<Deed>)
    requires DoneToLiving(deeds)
    ensures (exists d <- Life(deeds) :: d.Hidden?)
       <==> exists j :: 0 <= j < |deeds| && deeds[j].Hidden? && LivesSince(deeds, j)
  {
    if deeds != [] {
      var n := |deeds| - 1;
      var front, d := deeds[..n], deeds[n];
      assert deeds == front + [d];
      assert DoneToLiving(front) by {
        forall j | 0 <= j < n && (front[j].Edited? || front[j].Hidden? || front[j].Detached?)
          ensures Life(front[..j]) != []
        {
          assert front[..j] == deeds[..j] && deeds[j] == front[j];
        }
      }
      HiddenSince(front);
      LifeSnoc(front, d);
      assert d.Hidden? ==> Life(deeds[..n]) != [];
      HiddenStep(front, d);
    }
  }

  lemma HiddenStep(front: seq<Deed>, d: Deed)
    requires (exists x <- Life(front) :: x.Hidden?)
        <==> exists j :: 0 <= j < |front| && front[j].Hidden? && LivesSince(front, j)
    requires d.Hidden? ==> Life(front) != []
    ensures (exists x <- LifeAfter(Life(front), d) :: x.Hidden?)
       <==> exists j :: 0 <= j < |front + [d]| && (front + [d])[j].Hidden? && LivesSince(front + [d], j)
  {
    var deeds := front + [d];
    assert deeds[|front|] == d;
    HiddenGrows(Life(front), d);
    forall j | 0 <= j < |front| ensures deeds[j] == front[j] {
    }
    if d.Hidden? {
      assert LivesSince(deeds, |front|);
    } else {
      if x :| x in LifeAfter(Life(front), d) && x.Hidden? {
        assert x in Life(front);
        var j :| 0 <= j < |front| && front[j].Hidden? && LivesSince(front, j);
        LivesSnoc(front, d, j);
        assert deeds[j].Hidden?;
      }
      if j :| 0 <= j < |deeds| && deeds[j].Hidden? && LivesSince(deeds, j) {
        LivesSnoc(front, d, j);
        assert front[j].Hidden?;
      }
    }
  }

  /** A post is there and deleted exactly when a known user soft-deleted it while it was there and nothing has
      removed it, or stored another under its id, since; an edit does not bring it back. */
  lemma {:induction false} DeletedIff(words: Tokenizer, subs: set<Id>, run: seq<Label>, p: Id)
    ensures var posts := Exec(words, Init(subs), run).db.posts;
            var deeds := Deeds(words, Init(subs), run, p);
            p in posts && posts[p].deleted <==> exists j :: 0 <= j < |run| && deeds[j].Hidden? && LivesSince(deeds, j)
  {
    var deeds := Deeds(words, Init(subs), run, p);
    PostsTold(words, subs, run, p);
    RunsDoToLiving(words, subs, run, p);
    LifeBegins(deeds);
    HiddenSince(deeds);
  }

  function Wrote(d: Deed): Option<(string, bool)> {
    match d
    case Born(first) => Some((first.body, first.held))
    case Edited(body, held, _) => Some((body, held))
    case _ => None
  }

  /** Step `j` wrote the text, and nothing has written or removed the post since. */
  ghost predicate WroteLast(deeds: seq<Deed>, j: nat) {
    LivesSince(deeds, j) && Wrote(deeds[j]).Some? && forall k :: j < k < |deeds| ==> Wrote(deeds[k]).None?
  }

  lemma WroteSnoc(deeds: seq<Deed>, d: Deed, j: nat)
    requires WroteLast(deeds, j) && Wrote(d).None? && !d.Gone?
    ensures WroteLast(deeds + [d], j)
  {
    LivesSnoc(deeds, d, j);
    forall k | j < k < |deeds| + 1 ensures Wrote((deeds + [d])[k]).None? {
      assert k < |deeds| ==> (deeds + [d])[k] == deeds[k];
    }
  }

  lemma {:induction false} LastText(deeds: seq<Deed>) returns (j: nat)
    requires Life(deeds) != []
    ensures Life(deeds)[0].Born? && WroteLast(deeds, j)
    ensures Some(TextOf(Life(deeds)[0].first, Life(deeds))) == Wrote(deeds[j])
  {
    var n := |deeds| - 1;
    var front, d := deeds[..n], deeds[n];
    assert deeds == front + [d];
    LifeSnoc(front, d);
    LifeBegins(front);
    LifeBegins(deeds);
    if Wrote(d).Some? {
      j := n;
      LastTextNew(Life(front), d);
    } else {
      j := LastText(front);
      WroteSnoc(front, d, j);
      LastTextOld(Life(front), d);
    }
  }

  lemma LastTextNew(life: seq<Deed>, d: Deed)
    requires Wrote(d).Some? && LifeAfter(life, d) != [] && (life == [] || life[0].Born?)
    ensures var after := LifeAfter(life, d); after[0].Born? && Some(TextOf(after[0].first, after)) == Wrote(d)
  {
    if d.Born? {
      assert [d][..0] == [];
    } else {
      assert (life + [d])[..|life|] == life && (life + [d])[|life|] == d;
    }
  }

  lemma LastTextOld(life: seq<Deed>, d: Deed)
    requires Wrote(d).None? && !d.Gone? && life != [] && life[0].Born?
    ensures var after := LifeAfter(life, d);
            after != [] && after[0] == life[0] && TextOf(after[0].first, after) == TextOf(life[0].first, life)
  {
    assert (life + [d])[..|life|] == life && (life + [d])[|life|] == d;
  }

  /** A post says what was written last: by the step that stored it, or by the last edit of a known user. */
  lemma {:induction false} TextIsLast(words: Tokenizer, subs: set<Id>, run: seq<Label>, p: Id) returns (j: nat)
    requires p in Exec(words, Init(subs), run).db.posts
    ensures var row := Exec(words, Init(subs), run).db.posts[p];
            var deeds := Deeds(words, Init(subs), run, p);
            WroteLast(deeds, j) && Wrote(deeds[j]) == Some((row.body, row.held))
  {
    PostsTold(words, subs, run, p);
    LifeBegins(Deeds(words, Init(subs), run, p));
    j := LastText(Deeds(words, Init(subs), run, p));
  }

  // ----- Where a post comes from -----

  /** The label asks for what the request is about to do. */
  predicate AsksFor(l: Label, r: nat, q: Request) {
    match q
    case ReplyChecked(t, u, parent, body, held, at) => l == BeginReply(r, t, u, parent, body, held, at)
    case ReplyPassed(t, u, parent, body, held, at, _) => l == BeginReply(r, t, u, parent, body, held, at)
    case ReplyStored(t, u, at) => l.BeginReply? && l.r == r && l.thread == t && l.user == u && l.at == at
    case ReplyBumped(u) => l.BeginReply? && l.r == r && l.user == u
    case ThreadChecked(sub, u, title, body, held, at) => l == BeginThread(r, sub, u, title, body, held, at)
    case ThreadStored(_, u, body, held) => l.BeginThread? && l.r == r && l.user == u && l.body == body && l.held == held
  }

  /** The forum lets the user do that: known and not banned; a reply goes to a thread that is there and open,
      or to a locked one by a moderator; a thread has a title of 1 to 200 characters and a subcategory. */
  predicate Permitted(db: Db, l: Label)
    requires l.BeginReply? || l.BeginThread?
  {
    && l.user in db.users && !db.users[l.user].banned && l.body != ""
    && (l.BeginReply? ==> l.thread in db.threads && (db.threads[l.thread].locked ==> db.users[l.user].moderator))
    && (l.BeginThread? ==> l.sub in db.subs && 1 <= |l.title| <= 200)
  }

  /** Step `b` of the run asked for it, and was permitted to. */
  ghost predicate AskedAt(words: Tokenizer, s: System, run: seq<Label>, b: nat, r: nat, q: Request) {
    && b < |run| && (run[b].BeginReply? || run[b].BeginThread?)
    && AsksFor(run[b], r, q) && Permitted(Exec(words, s, run[..b]).db, run[b])
  }

  ghost predicate AllAsked(words: Tokenizer, s: System, run: seq<Label>) {
    var flight := Exec(words, s, run).flight;
    forall r <- flight :: exists b :: AskedAt(words, s, run, b, r, flight[r])
  }

  /** The request goes on with what it began with. */
  ghost predicate GoesOn(s: System, next: System, r: nat) {
    r in next.flight && r in s.flight ==> forall l :: AsksFor(l, r, s.flight[r]) ==> AsksFor(l, r, next.flight[r])
  }

  /** Or has just been begun. */
  ghost predicate JustBegun(s: System, l: Label, next: System, r: nat) {
    r in next.flight && r !in s.flight ==>
      (l.BeginReply? || l.BeginThread?) && AsksFor(l, r, next.flight[r]) && Permitted(s.db, l)
  }

  lemma CheckGoesOn(s: System, x: nat, up: bool, r: nat)
    ensures var next := CheckParentStep(s, x, up); GoesOn(s, next, r) && (r in next.flight ==> r in s.flight)
  {
  }

  lemma ReplyGoesOn(words: Tokenizer, s: System, x: nat, up: bool, r: nat)
    ensures var next := StoreReplyStep(words, s, x, up); GoesOn(s, next, r) && (r in next.flight ==> r in s.flight)
  {
  }

  lemma BumpGoesOn(s: System, x: nat, up: bool, r: nat)
    ensures var next := BumpThreadStep(s, x, up); GoesOn(s, next, r) && (r in next.flight ==> r in s.flight)
  {
  }

  lemma CountGoesOn(s: System, x: nat, up: bool, r: nat)
    ensures var next := CountReplyStep(s, x, up); GoesOn(s, next, r) && (r in next.flight ==> r in s.flight)
  {
  }

  lemma RowGoesOn(s: System, x: nat, up: bool, r: nat)
    ensures var next := StoreThreadStep(s, x, up); GoesOn(s, next, r) && (r in next.flight ==> r in s.flight)
  {
  }

  lemma OpeningGoesOn(words: Tokenizer, s: System, x: nat, up: bool, r: nat)
    ensures var next := StoreOpeningStep(words, s, x, up); GoesOn(s, next, r) && (r in next.flight ==> r in s.flight)
  {
  }

  lemma BeginsPermitted(words: Tokenizer, s: System, l: Label, r: nat)
    requires l.BeginReply? || l.BeginThread?
    ensures GoesOn(s, Step(words, s, l), r) && JustBegun(s, l, Step(words, s, l), r)
  {
  }

  lemma StepGoesOn(words: Tokenizer, s: System, l: Label, r: nat)
    ensures GoesOn(s, Step(words, s, l), r) && JustBegun(s, l, Step(words, s, l), r)
  {
    if l.CheckParent? {
      CheckGoesOn(s, l.r, l.up, r);
    } else if l.StoreReply? {
      ReplyGoesOn(words, s, l.r, l.up, r);
    } else if l.BumpThread? {
      BumpGoesOn(s, l.r, l.up, r);
    } else if l.CountReply? {
      CountGoesOn(s, l.r, l.up, r);
    } else if l.StoreThread? {
      RowGoesOn(s, l.r, l.up, r);
    } else if l.StoreOpening? {
      OpeningGoesOn(words, s, l.r, l.up, r);
    } else if l.BeginReply? || l.BeginThread? {
      BeginsPermitted(words, s, l, r);
    } else {
      TablesLeaveFlight(words, s, l);
    }
  }

  lemma AskedLater(words: Tokenizer, s: System, run: seq<Label>, l: Label, b: nat, r: nat, q: Request)
    requires AskedAt(words, s, run, b, r, q)
    ensures AskedAt(words, s, run + [l], b, r, q)
  {
    assert (run + [l])[..b] == run[..b];
  }

  lemma AskedNow(words: Tokenizer, s: System, run: seq<Label>, l: Label, r: nat, q: Request)
    requires (l.BeginReply? || l.BeginThread?) && AsksFor(l, r, q) && Permitted(Exec(words, s, run).db, l)
    ensures AskedAt(words, s, run + [l], |run|, r, q)
  {
    assert (run + [l])[..|run|] == run;
  }

  /** Every request in flight was begun by a label that asked for it, when that was permitted. */
  lemma {:induction false} RequestsAsked(words: Tokenizer, subs: set<Id>, run: seq<Label>)
    ensures AllAsked(words, Init(subs), run)
  {
    if run != [] {
      var front, l := run[..|run| - 1], run[|run| - 1];
      var s := Exec(words, Init(subs), front);
      var next := Step(words, s, l);
      RequestsAsked(words, subs, front);
      RunsApart(run);
      forall r | r in next.flight ensures exists b :: AskedAt(words, Init(subs), run, b, r, next.flight[r]) {
        StepGoesOn(words, s, l, r);
        RequestAsked(words, Init(subs), front, l, s, next, r);
      }
    }
  }

  lemma RequestAsked(words: Tokenizer, s: System, run: seq<Label>, l: Label, before: System, next: System, r: nat)
    requires AllAsked(words, s, run) && before == Exec(words, s, run)
    requires r in next.flight && GoesOn(before, next, r) && JustBegun(before, l, next, r)
    ensures exists b :: AskedAt(words, s, run + [l], b, r, next.flight[r])
  {
    if r in before.flight {
      var b :| AskedAt(words, s, run, b, r, before.flight[r]);
      AskedStill(words, s, run, b, r, before.flight[r], next.flight[r]);
      AskedLater(words, s, run, l, b, r, next.flight[r]);
    } else {
      AskedNow(words, s, run, l, r, next.flight[r]);
    }
  }

  lemma AskedStill(words: Tokenizer, s: System, run: seq<Label>, b: nat, r: nat, q: Request, later: Request)
    requires AskedAt(words, s, run, b, r, q) && forall l :: AsksFor(l, r, q) ==> AsksFor(l, r, later)
    ensures AskedAt(words, s, run, b, r, later)
  {
  }

  lemma {:induction false} BirthOf(deeds: seq<Deed>) returns (k: nat)
    requires Life(deeds) != []
    ensures LivesSince(deeds, k) && deeds[k].Born? && deeds[k] == Life(deeds)[0]
  {
    var n := |deeds| - 1;
    var front, d := deeds[..n], deeds[n];
    assert deeds == front + [d];
    LifeSnoc(front, d);
    if d.Born? {
      k := n;
    } else {
      k := BirthOf(front);
      LivesSnoc(front, d, k);
    }
  }

  /** The label that asked for a post, and what the post has of it. */
  ghost predicate StoredAsAsked(asked: Label, storing: Label, first: Post) {
    && (asked.BeginReply? || asked.BeginThread?) && (storing.StoreReply? || storing.StoreOpening?)
    && asked.r == storing.r && first.author == asked.user && first.body == asked.body && first.held == asked.held
    && (storing.StoreReply? ==> asked.BeginReply? && first.thread == asked.thread && first.parent == asked.parent)
    && (storing.StoreOpening? ==> asked.BeginThread? && first.parent.None?)
  }

  lemma BornIsAsked(s: System, l: Label, p: Id, asked: Label)
    requires DeedOf(s, l, p).Born?
    ensures (l.StoreReply? || l.StoreOpening?) && l.r in s.flight
    ensures (asked.BeginReply? || asked.BeginThread?) && AsksFor(asked, l.r, s.flight[l.r])
            ==> StoredAsAsked(asked, l, DeedOf(s, l, p).first)
  {
  }

  /** Label `b` of the run asked for this post, when that was permitted. */
  ghost predicate AskedFirst(words: Tokenizer, s: System, run: seq<Label>, b: nat, storing: Label, first: Post) {
    && b < |run| && StoredAsAsked(run[b], storing, first) && Permitted(Exec(words, s, run[..b]).db, run[b])
  }

  lemma BornAsAsked(words: Tokenizer, s: System, run: seq<Label>, at: System, l: Label, p: Id) returns (b: nat)
    requires DeedOf(at, l, p).Born? && l.r in at.flight
    requires exists b :: AskedAt(words, s, run, b, l.r, at.flight[l.r])
    ensures AskedFirst(words, s, run, b, l, DeedOf(at, l, p).first)
  {
    b :| AskedAt(words, s, run, b, l.r, at.flight[l.r]);
    BornIsAsked(at, l, p, run[b]);
  }

  /** The step that stored the post, and what the row still has of that. */
  lemma BirthAt(words: Tokenizer, subs: set<Id>, run: seq<Label>, p: Id) returns (k: nat)
    requires p in Exec(words, Init(subs), run).db.posts
    ensures var row, deeds := Exec(words, Init(subs), run).db.posts[p], Deeds(words, Init(subs), run, p);
            && LivesSince(deeds, k) && deeds[k].Born? && row.author == deeds[k].first.author
            && row.thread == deeds[k].first.thread && (row.parent == deeds[k].first.parent || row.parent.None?)
  {
    var deeds := Deeds(words, Init(subs), run, p);
    PostsTold(words, subs, run, p);
    k := BirthOf(deeds);
  }

  lemma AskedBefore(words: Tokenizer, subs: set<Id>, run: seq<Label>, l: Label, p: Id) returns (b: nat)
    requires DeedOf(Exec(words, Init(subs), run), l, p).Born?
    ensures AskedFirst(words, Init(subs), run, b, l, DeedOf(Exec(words, Init(subs), run), l, p).first)
  {
    var at := Exec(words, Init(subs), run);
    RequestsAsked(words, subs, run);
    BornIsAsked(at, l, p, l);
    b := BornAsAsked(words, Init(subs), run, at, l, p);
  }

  /** Every post goes back to the step `k` that stored it and the label `b` that asked for it, when its author
      was permitted to: it has the author, and first had the text and the parent, that were asked for; an answer
      is in the thread it was asked for. */
  lemma {:induction false} PostComesFrom(words: Tokenizer, subs: set<Id>, run: seq<Label>, p: Id)
      returns (k: nat, b: nat)
    requires p in Exec(words, Init(subs), run).db.posts
    ensures var row, deeds := Exec(words, Init(subs), run).db.posts[p], Deeds(words, Init(subs), run, p);
            && b < k < |run| && deeds[k].Born? && LivesSince(deeds, k) && StoredAsAsked(run[b], run[k], deeds[k].first)
            && row.author == run[b].user && row.thread == deeds[k].first.thread
            && (row.parent == deeds[k].first.parent || row.parent.None?)
    ensures Permitted(Exec(words, Init(subs), run[..b]).db, run[b])
  {
    k := BirthAt(words, subs, run, p);
    b := AskedBefore(words, subs, run[..k], run[k], p);
    assert run[..k][..b] == run[..b];
  }
}

/** The life of every thread and of every user. */
module ThreadLives {
  import opened Tables
  import opened ForumDb
  import opened ForumForest
  import opened ForumRequests
  import opened ForumForestRuns
  import PostLives

  /** What a step does to one thread. */
  datatype Deed =
    | Begun(sub: Id, author: Id, title: string, at: Stamp)
    | Locked(on: bool)
    | Counted(user: Id, at: Stamp)
    | Ended
    | Nothing

  ghost function DeedOf(s: System, l: Label, t: Id): Deed {
    match l
    case StoreThread(r, up) =>
      if up && Begins(s, r, t) then Begun(s.flight[r].sub, s.flight[r].user, s.flight[r].title, s.flight[r].at)
      else Nothing
    case BumpThread(r, up) =>
      if up && r in s.flight && s.flight[r].ReplyStored? && s.flight[r].thread == t && t in s.db.threads
        then Counted(s.flight[r].user, s.flight[r].at)
      else Nothing
    case Lock(x, on) => if x == t && t in s.db.threads then Locked(on) else Nothing
    case HardDelete(x) => if x == t && t in s.db.threads then Ended else Nothing
    case _ => Nothing
  }

  /** The request is about to store thread `t`, with references that resolve. */
  ghost predicate Begins(s: System, r: nat, t: Id) {
    && r in s.flight && s.flight[r].ThreadChecked? && t == NextId(s.db.threads.Keys)
    && s.flight[r].sub in s.db.subs && s.flight[r].user in s.db.users
  }

  ghost function Deeds(words: Tokenizer, s: System, run: seq<Label>, t: Id): seq<Deed> {
    seq(|run|, j requires 0 <= j < |run| => DeedOf(Exec(words, s, run[..j]), run[j], t))
  }

  /** The deeds of the present life, from the beginning on. */
  function Life(deeds: seq<Deed>): seq<Deed> {
    if deeds == [] then [] else LifeAfter(Life(deeds[..|deeds| - 1]), deeds[|deeds| - 1])
  }

  function LifeAfter(life: seq<Deed>, d: Deed): seq<Deed> {
    match d
    case Begun(_, _, _, _) => [d]
    case Ended => []
    case Nothing => life
    case _ => if life == [] then [] else life + [d]
  }

  // ----- The row of a thread, column by column -----

  /** The lock set last. */
  function LockOf(life: seq<Deed>): bool {
    if life == [] then false
    else if life[|life| - 1].Locked? then life[|life| - 1].on
    else LockOf(life[..|life| - 1])
  }

  function RepliesIn(life: seq<Deed>): nat {
    if life == [] then 0 else RepliesIn(life[..|life| - 1]) + if life[|life| - 1].Counted? then 1 else 0
  }

  /** The reply counted last, or the thread's own beginning: by whom, and when. */
  function LastPost(life: seq<Deed>): (Option<Id>, Stamp) {
    if life == [] then (None, "")
    else
      var d := life[|life| - 1];
      if d.Counted? then (Some(d.user), d.at)
      else if d.Begun? then (Some(d.author), d.at)
      else LastPost(life[..|life| - 1])
  }

  function RowOf(life: seq<Deed>): Option<Thread> {
    if life == [] || !life[0].Begun? then None
    else
      var (by', at) := LastPost(life);
      Some(Thread(life[0].sub, life[0].author, life[0].title, LockOf(life), RepliesIn(life), at, by'))
  }

  function ThreadAt(s: System, t: Id): Option<Thread> {
    if t in s.db.threads then Some(s.db.threads[t]) else None
  }

  function RowAfter(before: Option<Thread>, d: Deed): Option<Thread> {
    match d
    case Begun(sub, author, title, at) => Some(Thread(sub, author, title, false, 0, at, Some(author)))
    case Ended => None
    case Nothing => before
    case Locked(on) => if before.None? then None else Some(before.value.(locked := on))
    case Counted(u, at) =>
      if before.None? then None
      else
        var row := before.value;
        Some(row.(replyCount := row.replyCount + 1, lastPostAt := at, lastPostBy := Some(u)))
  }

  lemma RowSnoc(life: seq<Deed>, d: Deed)
    requires life == [] || life[0].Begun?
    ensures RowOf(LifeAfter(life, d)) == RowAfter(RowOf(life), d)
  {
    if d.Begun? {
      RowBegins(d);
    } else if life != [] && (d.Locked? || d.Counted?) {
      RowGrows(life, d);
    }
  }

  lemma RowBegins(d: Deed)
    requires d.Begun?
    ensures RowOf([d]) == RowAfter(None, d)
  {
    assert [d][..0] == [] && LockOf([d]) == false && RepliesIn([d]) == 0;
  }

  lemma RowGrows(life: seq<Deed>, d: Deed)
    requires life != [] && life[0].Begun? && (d.Locked? || d.Counted?)
    ensures RowOf(life + [d]) == RowAfter(RowOf(life), d)
  {
    var longer := life + [d];
    assert longer[..|life|] == life && longer[|life|] == d && longer[0] == life[0];
  }

  // ----- One step -----

  ghost predicate Follows(words: Tokenizer, s: System, l: Label, t: Id) {
    ThreadAt(Step(words, s, l), t) == RowAfter(ThreadAt(s, t), DeedOf(s, l, t))
  }

  lemma BeginFollows(s: System, r: nat, up: bool, t: Id)
    ensures ThreadAt(StoreThreadStep(s, r, up), t) == RowAfter(ThreadAt(s, t), DeedOf(s, StoreThread(r, up), t))
  {
  }

  lemma BumpFollows(s: System, r: nat, up: bool, t: Id)
    ensures ThreadAt(BumpThreadStep(s, r, up), t) == RowAfter(ThreadAt(s, t), DeedOf(s, BumpThread(r, up), t))
  {
  }

  lemma LockFollows(words: Tokenizer, s: System, l: Label, t: Id)
    requires l.Lock?
    ensures Follows(words, s, l, t)
  {
  }

  lemma DeleteFollows(words: Tokenizer, s: System, x: Id, t: Id)
    ensures ThreadAt(HardDeleteStep(words, s, x), t) == RowAfter(ThreadAt(s, t), DeedOf(s, HardDelete(x), t))
  {
  }

  lemma StepFollows(words: Tokenizer, s: System, l: Label, t: Id)
    ensures Follows(words, s, l, t)
  {
    if l.StoreThread? {
      BeginFollows(s, l.r, l.up, t);
    } else if l.BumpThread? {
      BumpFollows(s, l.r, l.up, t);
    } else if l.Lock? {
      LockFollows(words, s, l, t);
    } else if l.HardDelete? {
      DeleteFollows(words, s, l.thread, t);
    } else if IsCheck(l) {
      ChecksLeaveTables(words, s, l);
    } else if IsUserStep(l) {
      UserStepsLeave(words, s, l);
    } else if IsPostStep(l) {
      PostStepsLeave(words, s, l);
    } else {
      MarksLeave(words, s, l);
    }
  }

  // ----- Whole runs -----

  lemma DeedsSnoc(words: Tokenizer, s: System, run: seq<Label>, l: Label, t: Id)
    ensures Deeds(words, s, run + [l], t) == Deeds(words, s, run, t) + [DeedOf(Exec(words, s, run), l, t)]
  {
    assert (run + [l])[..|run|] == run;
    forall j | 0 <= j < |run| ensures (run + [l])[..j] == run[..j] {
      PostLives.PrefixStays(run, l, j);
    }
  }

  lemma LifeSnoc(deeds: seq<Deed>, d: Deed)
    ensures Life(deeds + [d]) == LifeAfter(Life(deeds), d)
  {
    assert (deeds + [d])[..|deeds|] == deeds;
  }

  lemma {:induction false} LifeBegins(deeds: seq<Deed>)
    ensures Life(deeds) == [] || Life(deeds)[0].Begun?
  {
    if deeds != [] {
      LifeBegins(deeds[..|deeds| - 1]);
    }
  }

  ghost predicate Told(s: System, deeds: seq<Deed>, t: Id) {
    ThreadAt(s, t) == RowOf(Life(deeds))
  }

  lemma ToldSnoc(words: Tokenizer, s: System, deeds: seq<Deed>, l: Label, t: Id)
    requires Told(s, deeds, t)
    ensures Told(Step(words, s, l), deeds + [DeedOf(s, l, t)], t)
  {
    StepFollows(words, s, l, t);
    LifeSnoc(deeds, DeedOf(s, l, t));
    LifeBegins(deeds);
    RowSnoc(Life(deeds), DeedOf(s, l, t));
  }

  /** After any run a thread is there exactly while its life lasts: subcategory, author and title as it began,
      locked as last set, as many replies as were counted, and the last post by the user and at the time counted
      last. */
  lemma {:induction false} ThreadsTold(words: Tokenizer, subs: set<Id>, run: seq<Label>, t: Id)
    ensures Told(Exec(words, Init(subs), run), Deeds(words, Init(subs), run, t), t)
  {
    if run != [] {
      var front, l := run[..|run| - 1], run[|run| - 1];
      ThreadsTold(words, subs, front, t);
      ToldSnoc(words, Exec(words, Init(subs), front), Deeds(words, Init(subs), front, t), l, t);
      PostLives.RunsApart(run);
      DeedsSnoc(words, Init(subs), front, l, t);
    }
  }

  /** The step that began a thread, with nothing that began or ended it since. */
  ghost predicate BeganLast(deeds: seq<Deed>, k: nat) {
    k < |deeds| && deeds[k].Begun? && forall j :: k < j < |deeds| ==> !deeds[j].Begun? && !deeds[j].Ended?
  }

  lemma {:induction false} BeginningOf(deeds: seq<Deed>) returns (k: nat)
    requires Life(deeds) != []
    ensures BeganLast(deeds, k) && deeds[k] == Life(deeds)[0]
  {
    var n := |deeds| - 1;
    var front, d := deeds[..n], deeds[n];
    assert deeds == front + [d];
    LifeSnoc(front, d);
    if d.Begun? {
      k := n;
    } else {
      k := BeginningOf(front);
    }
  }

  lemma BegunIsAsked(s: System, l: Label, t: Id, asked: Label)
    requires DeedOf(s, l, t).Begun?
    ensures l.StoreThread? && l.r in s.flight
    ensures PostLives.AsksFor(asked, l.r, s.flight[l.r]) ==>
              && asked.BeginThread? && asked.r == l.r
              && DeedOf(s, l, t) == Begun(asked.sub, asked.user, asked.title, asked.at)
  {
  }

  /** The step that began the thread, and what the row still has of that. */
  lemma BeginningAt(words: Tokenizer, subs: set<Id>, run: seq<Label>, t: Id) returns (k: nat)
    requires t in Exec(words, Init(subs), run).db.threads
    ensures var row, deeds := Exec(words, Init(subs), run).db.threads[t], Deeds(words, Init(subs), run, t);
            && BeganLast(deeds, k) && row.sub == deeds[k].sub && row.author == deeds[k].author
            && row.title == deeds[k].title
  {
    var deeds := Deeds(words, Init(subs), run, t);
    ThreadsTold(words, subs, run, t);
    k := BeginningOf(deeds);
  }

  /** Label `b` of the run asked for this thread, when that was permitted. */
  ghost predicate AskedFirst(words: Tokenizer, s: System, run: seq<Label>, b: nat, storing: Label, begun: Deed) {
    && b < |run| && run[b].BeginThread? && storing.StoreThread? && run[b].r == storing.r
    && begun == Begun(run[b].sub, run[b].user, run[b].title, run[b].at)
    && PostLives.Permitted(Exec(words, s, run[..b]).db, run[b])
  }

  lemma AskedBefore(words: Tokenizer, subs: set<Id>, run: seq<Label>, l: Label, t: Id) returns (b: nat)
    requires DeedOf(Exec(words, Init(subs), run), l, t).Begun?
    ensures AskedFirst(words, Init(subs), run, b, l, DeedOf(Exec(words, Init(subs), run), l, t))
  {
    var at := Exec(words, Init(subs), run);
    PostLives.RequestsAsked(words, subs, run);
    BegunIsAsked(at, l, t, l);
    b := BegunAsAsked(words, Init(subs), run, at, l, t);
  }

  lemma BegunAsAsked(words: Tokenizer, s: System, run: seq<Label>, at: System, l: Label, t: Id) returns (b: nat)
    requires DeedOf(at, l, t).Begun? && l.StoreThread? && l.r in at.flight
    requires exists b :: PostLives.AskedAt(words, s, run, b, l.r, at.flight[l.r])
    ensures AskedFirst(words, s, run, b, l, DeedOf(at, l, t))
  {
    b :| PostLives.AskedAt(words, s, run, b, l.r, at.flight[l.r]);
    BegunIsAsked(at, l, t, run[b]);
  }

  /** Every thread goes back to the step `k` that stored it and the label `b` that asked for it, with this
      title in this subcategory, when its author was permitted to. */
  lemma {:induction false} ThreadComesFrom(words: Tokenizer, subs: set<Id>, run: seq<Label>, t: Id)
      returns (k: nat, b: nat)
    requires t in Exec(words, Init(subs), run).db.threads
    ensures var row := Exec(words, Init(subs), run).db.threads[t];
            && b < k < |run| && BeganLast(Deeds(words, Init(subs), run, t), k)
            && run[k].StoreThread? && run[b].BeginThread? && run[b].r == run[k].r
            && row.sub == run[b].sub && row.author == run[b].user && row.title == run[b].title
    ensures PostLives.Permitted(Exec(words, Init(subs), run[..b]).db, run[b])
  {
    k := BeginningAt(words, subs, run, t);
    b := AskedBefore(words, subs, run[..k], run[k], t);
    assert run[..k][..b] == run[..b];
  }
}

/** What a run tells about every user. */
module UserLives {
  import opened Tables
  import opened ForumDb
  import opened ForumForest
  import opened ForumRequests
  import opened ForumForestRuns
  import PostLives
  import ThreadLives

  datatype Deed = Registered | Counted | Judged(banned: bool) | Promoted(moderator: bool) | Nothing

  ghost function DeedOf(s: System, l: Label, u: Id): Deed {
    match l
    case Register => if u == NextId(s.db.users.Keys) then Registered else Nothing
    case CountReply(r, up) =>
      if up && r in s.flight && s.flight[r].ReplyBumped? && s.flight[r].user == u && u in s.db.users then Counted
      else Nothing
    case SetBan(x, banned) => if x == u && u in s.db.users then Judged(banned) else Nothing
    case SetModerator(x, moderator) => if x == u && u in s.db.users then Promoted(moderator) else Nothing
    case _ => Nothing
  }

  ghost function Deeds(words: Tokenizer, s: System, run: seq<Label>, u: Id): seq<Deed> {
    seq(|run|, j requires 0 <= j < |run| => DeedOf(Exec(words, s, run[..j]), run[j], u))
  }

  function CountsIn(deeds: seq<Deed>): nat {
    if deeds == [] then 0 else CountsIn(deeds[..|deeds| - 1]) + if deeds[|deeds| - 1].Counted? then 1 else 0
  }

  /** The last verdict, and the last promotion or demotion. */
  function BannedBy(deeds: seq<Deed>): bool {
    if deeds == [] then false
    else if deeds[|deeds| - 1].Judged? then deeds[|deeds| - 1].banned
    else BannedBy(deeds[..|deeds| - 1])
  }

  function ModeratorBy(deeds: seq<Deed>): bool {
    if deeds == [] then false
    else if deeds[|deeds| - 1].Promoted? then deeds[|deeds| - 1].moderator
    else ModeratorBy(deeds[..|deeds| - 1])
  }

  function RowOf(deeds: seq<Deed>): User {
    User(CountsIn(deeds), BannedBy(deeds), ModeratorBy(deeds))
  }

  /** The row is what the deeds tell; before there is one nothing has been done. */
  ghost predicate Told(s: System, deeds: seq<Deed>, u: Id) {
    && (u in s.db.users <==> Registered in deeds)
    && RowOf(deeds) == if u in s.db.users then s.db.users[u] else NewUser()
  }

  lemma DeedsSnoc(words: Tokenizer, s: System, run: seq<Label>, l: Label, u: Id)
    ensures Deeds(words, s, run + [l], u) == Deeds(words, s, run, u) + [DeedOf(Exec(words, s, run), l, u)]
  {
    assert (run + [l])[..|run|] == run;
    forall j | 0 <= j < |run| ensures (run + [l])[..j] == run[..j] {
      PostLives.PrefixStays(run, l, j);
    }
  }

  lemma RowSnoc(deeds: seq<Deed>, d: Deed)
    ensures var row := RowOf(deeds);
            RowOf(deeds + [d]) ==
              match d
              case Counted => row.(postCount := row.postCount + 1)
              case Judged(banned) => row.(banned := banned)
              case Promoted(moderator) => row.(moderator := moderator)
              case _ => row
    ensures Registered in deeds + [d] <==> Registered in deeds || d.Registered?
  {
    assert (deeds + [d])[..|deeds|] == deeds;
  }

  lemma CountTold(s: System, deeds: seq<Deed>, r: nat, up: bool, u: Id)
    requires Told(s, deeds, u)
    ensures Told(CountReplyStep(s, r, up), deeds + [DeedOf(s, CountReply(r, up), u)], u)
  {
    RowSnoc(deeds, DeedOf(s, CountReply(r, up), u));
  }

  lemma RegisterTold(words: Tokenizer, s: System, deeds: seq<Deed>, u: Id)
    requires Told(s, deeds, u)
    ensures Told(Step(words, s, Register), deeds + [DeedOf(s, Register, u)], u)
  {
    RowSnoc(deeds, DeedOf(s, Register, u));
  }

  lemma JudgeTold(words: Tokenizer, s: System, deeds: seq<Deed>, x: Id, banned: bool, u: Id)
    requires Told(s, deeds, u)
    ensures Told(Step(words, s, SetBan(x, banned)), deeds + [DeedOf(s, SetBan(x, banned), u)], u)
  {
    RowSnoc(deeds, DeedOf(s, SetBan(x, banned), u));
  }

  lemma PromoteTold(words: Tokenizer, s: System, deeds: seq<Deed>, x: Id, moderator: bool, u: Id)
    requires Told(s, deeds, u)
    ensures Told(Step(words, s, SetModerator(x, moderator)), deeds + [DeedOf(s, SetModerator(x, moderator), u)], u)
  {
    RowSnoc(deeds, DeedOf(s, SetModerator(x, moderator), u));
  }

  lemma OthersTold(words: Tokenizer, s: System, deeds: seq<Deed>, l: Label, u: Id)
    requires Told(s, deeds, u) && !IsUserStep(l)
    ensures Told(Step(words, s, l), deeds + [DeedOf(s, l, u)], u)
  {
    UsersLeft(words, s, l);
    RowSnoc(deeds, DeedOf(s, l, u));
  }

  lemma UsersLeft(words: Tokenizer, s: System, l: Label)
    requires !IsUserStep(l)
    ensures Step(words, s, l).db.users == s.db.users
  {
    if IsCheck(l) {
      ChecksLeaveTables(words, s, l);
    } else if IsThreadStep(l) {
      ThreadStepsLeave(words, s, l);
    } else if IsPostStep(l) {
      PostStepsLeave(words, s, l);
    } else if l.MarkRead? {
      MarksLeave(words, s, l);
    } else {
      assert Step(words, s, l) == HardDeleteStep(words, s, l.thread);
    }
  }

  lemma ToldSnoc(words: Tokenizer, s: System, deeds: seq<Deed>, l: Label, u: Id)
    requires Told(s, deeds, u)
    ensures Told(Step(words, s, l), deeds + [DeedOf(s, l, u)], u)
  {
    if l.CountReply? {
      CountTold(s, deeds, l.r, l.up, u);
    } else if l.Register? {
      RegisterTold(words, s, deeds, u);
    } else if l.SetBan? {
      JudgeTold(words, s, deeds, l.user, l.banned, u);
    } else if l.SetModerator? {
      PromoteTold(words, s, deeds, l.user, l.moderator, u);
    } else {
      OthersTold(words, s, deeds, l, u);
    }
  }

  /** After any run a user is there once registered, banned as last judged, moderator as last promoted or
      demoted, with as many posts as were counted. */
  lemma {:induction false} UsersTold(words: Tokenizer, subs: set<Id>, run: seq<Label>, u: Id)
    ensures Told(Exec(words, Init(subs), run), Deeds(words, Init(subs), run, u), u)
  {
    if run != [] {
      var front, l := run[..|run| - 1], run[|run| - 1];
      UsersTold(words, subs, front, u);
      ToldSnoc(words, Exec(words, Init(subs), front), Deeds(words, Init(subs), front, u), l, u);
      PostLives.RunsApart(run);
      DeedsSnoc(words, Init(subs), front, l, u);
    }
  }

  /** So no post was asked for by an author whose last verdict before that was a ban, nor in a thread whose last
      lock was set, unless by a moderator. */
  lemma {:induction false} NoPostWhileBanned(words: Tokenizer, subs: set<Id>, run: seq<Label>, p: Id) returns (b: nat)
    requires p in Exec(words, Init(subs), run).db.posts
    ensures var row := Exec(words, Init(subs), run).db.posts[p];
            && b < |run| && (run[b].BeginReply? || run[b].BeginThread?) && row.author == run[b].user
            && var author := Deeds(words, Init(subs), run[..b], row.author);
               && Registered in author && !BannedBy(author)
               && (run[b].BeginReply? ==>
                     ThreadLives.LockOf(ThreadLives.Life(ThreadLives.Deeds(words, Init(subs), run[..b], run[b].thread)))
                     ==> ModeratorBy(author))
  {
    var k: nat;
    k, b := PostLives.PostComesFrom(words, subs, run, p);
    UsersTold(words, subs, run[..b], run[b].user);
    if run[b].BeginReply? {
      ThreadLives.ThreadsTold(words, subs, run[..b], run[b].thread);
    }
  }
}
