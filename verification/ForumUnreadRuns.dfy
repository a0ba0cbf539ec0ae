/** Unread marks while replies interleave.  UpdateLastPost (internal/store/sqlite/thread.go) overwrites
    last_post_at, so what a listing shows depends on the order in which the replies are counted. */
module ForumUnreadRuns {
  import opened Tables
  import opened ForumDb
  import opened ForumForest
  import opened ForumRequests
  import opened ForumForestRuns
  import opened ForumCounters
  import opened ForumReuse
  import opened Timestamps
  import Unread

  // ----- What a run does to one thread -----

  /** The thread begins, a reply is stored or counted, a viewer opens it as a full page, it is deleted. */
  datatype Note =
    | Begun(at: Stamp)
    | Posted(at: Stamp)
    | Counted(at: Stamp)
    | Opened(viewer: Id, at: Stamp)
    | Ended
    | Nothing

  ghost function NoteOf(words: Tokenizer, s: System, l: Label, t: Id): Note {
    match l
    case StoreThread(r, up) => if up && Begins(s, r, t) then Begun(s.flight[r].at) else Nothing
    case StoreReply(r, up) => if up && Posts(words, s, r, t) then Posted(s.flight[r].at) else Nothing
    case BumpThread(r, up) =>
      if up && r in PendingBumps(s.flight, t) && t in s.db.threads then Counted(s.flight[r].at) else Nothing
    case MarkRead(u, x, at) => if x == t && u in s.db.users && t in s.db.threads then Opened(u, at) else Nothing
    case HardDelete(x) => if x == t then Ended else Nothing
    case _ => Nothing
  }

  /** The request is about to store thread `t`. */
  ghost predicate Begins(s: System, r: nat, t: Id) {
    r in s.flight && s.flight[r].ThreadChecked? && CreatesThread(s, s.flight[r]) && NextId(s.db.threads.Keys) == t
  }

  /** The request is about to store a reply in thread `t`. */
  ghost predicate Posts(words: Tokenizer, s: System, r: nat, t: Id) {
    r in s.flight && s.flight[r].ReplyPassed? && s.flight[r].thread == t
      && InsertPost(words, s.db, PostOf(s.flight[r])).Ok?
  }

  ghost predicate CreatesThread(s: System, q: Request)
    requires q.ThreadChecked?
  {
    CreateThread(s.db, q.sub, q.user, q.title, q.at).Ok?
  }

  ghost function Notes(words: Tokenizer, s: System, run: seq<Label>, t: Id): seq<Note> {
    if run == [] then []
    else
      var n := |run| - 1;
      Notes(words, s, run[..n], t) + [NoteOf(words, Exec(words, s, run[..n]), run[n], t)]
  }

  /** The stamps of the posts stored in the present life of the thread. */
  function Stamps(notes: seq<Note>): seq<Stamp> {
    if notes == [] then [] else StampsAfter(Stamps(notes[..|notes| - 1]), notes[|notes| - 1])
  }

  function StampsAfter(stamps: seq<Stamp>, e: Note): seq<Stamp> {
    match e
    case Begun(at) => [at]
    case Posted(at) => stamps + [at]
    case Ended => []
    case _ => stamps
  }

  /** The stamps counted on the thread row, in the order of counting; the first is the thread's own. */
  function Counts(notes: seq<Note>): seq<Stamp> {
    if notes == [] then [] else CountsAfter(Counts(notes[..|notes| - 1]), notes[|notes| - 1])
  }

  function CountsAfter(counts: seq<Stamp>, e: Note): seq<Stamp> {
    match e
    case Begun(at) => [at]
    case Counted(at) => counts + [at]
    case Ended => []
    case _ => counts
  }

  /** When the viewer last opened the thread in its present life. */
  function LastOpened(notes: seq<Note>, viewer: Id): Option<Stamp> {
    if notes == [] then None else OpenedAfter(LastOpened(notes[..|notes| - 1], viewer), notes[|notes| - 1], viewer)
  }

  function OpenedAfter(before: Option<Stamp>, e: Note, viewer: Id): Option<Stamp> {
    match e
    case Begun(_) => None
    case Opened(u, at) => if u == viewer then Some(at) else before
    case Ended => None
    case _ => before
  }

  // ----- The tables hold what the notes say -----

  function RowAt(s: System, t: Id): Option<Stamp> {
    if t in s.db.threads then Some(s.db.threads[t].lastPostAt) else None
  }

  function MarkAt(s: System, viewer: Id, t: Id): Option<Stamp> {
    if (viewer, t) in s.db.readMarks then Some(s.db.readMarks[(viewer, t)]) else None
  }

  function RowAfter(before: Option<Stamp>, e: Note): Option<Stamp> {
    match e
    case Begun(at) => Some(at)
    case Counted(at) => Some(at)
    case Ended => None
    case _ => before
  }

  /** The row changes as the note says. */
  ghost predicate RowFollows(words: Tokenizer, s: System, l: Label, t: Id) {
    RowAt(Step(words, s, l), t) == RowAfter(RowAt(s, t), NoteOf(words, s, l, t))
  }

  lemma StepRow(words: Tokenizer, s: System, l: Label, t: Id)
    ensures RowFollows(words, s, l, t)
  {
    if IsThreadStep(l) {
      ThreadStepRow(words, s, l, t);
    } else if l.HardDelete? {
      DeleteFollows(words, s, l.thread, t);
    } else {
      RestLeaveThreads(words, s, l);
      RestNoteNothing(words, s, l, t);
    }
  }

  lemma ThreadStepRow(words: Tokenizer, s: System, l: Label, t: Id)
    requires IsThreadStep(l)
    ensures RowFollows(words, s, l, t)
  {
    match l
    case StoreThread(r, up) => BeginFollows(words, s, r, up, t);
    case BumpThread(r, up) => BumpFollows(words, s, r, up, t);
    case Lock(x, locked) => LockFollows(words, s, x, locked, t);
  }

  lemma BeginFollows(words: Tokenizer, s: System, r: nat, up: bool, t: Id)
    ensures RowFollows(words, s, StoreThread(r, up), t)
  {
    BeginRow(words, s, r, up, t);
  }

  lemma BumpFollows(words: Tokenizer, s: System, r: nat, up: bool, t: Id)
    ensures RowFollows(words, s, BumpThread(r, up), t)
  {
    BumpRow(words, s, r, up, t);
  }

  lemma LockFollows(words: Tokenizer, s: System, x: Id, locked: bool, t: Id)
    ensures RowFollows(words, s, Lock(x, locked), t)
  {
    LockRow(words, s, x, locked, t);
  }

  lemma DeleteFollows(words: Tokenizer, s: System, x: Id, t: Id)
    ensures RowFollows(words, s, HardDelete(x), t)
  {
    DeleteRow(words, s, x, t);
  }

  lemma RestNoteNothing(words: Tokenizer, s: System, l: Label, t: Id)
    requires !IsThreadStep(l) && !l.HardDelete?
    ensures var e := NoteOf(words, s, l, t); e.Posted? || e.Opened? || e == Nothing
  {
  }

  lemma BeginRow(words: Tokenizer, s: System, r: nat, up: bool, t: Id)
    ensures RowAt(StoreThreadStep(s, r, up), t) == if up && Begins(s, r, t) then Some(s.flight[r].at) else RowAt(s, t)
  {
  }

  lemma BumpRow(words: Tokenizer, s: System, r: nat, up: bool, t: Id)
    ensures Step(words, s, BumpThread(r, up)) == BumpThreadStep(s, r, up)
    ensures RowAt(BumpThreadStep(s, r, up), t)
         == if up && r in PendingBumps(s.flight, t) && t in s.db.threads then Some(s.flight[r].at) else RowAt(s, t)
  {
  }

  lemma LockRow(words: Tokenizer, s: System, x: Id, locked: bool, t: Id)
    ensures Step(words, s, Lock(x, locked)) == s.(db := LockThread(s.db, x, locked))
    ensures RowAt(s.(db := LockThread(s.db, x, locked)), t) == RowAt(s, t)
  {
  }

  lemma DeleteRow(words: Tokenizer, s: System, x: Id, t: Id)
    ensures Step(words, s, HardDelete(x)) == HardDeleteStep(words, s, x)
    ensures RowAt(HardDeleteStep(words, s, x), t) == if x == t then None else RowAt(s, t)
  {
  }

  lemma RestLeaveThreads(words: Tokenizer, s: System, l: Label)
    requires !IsThreadStep(l) && !l.HardDelete?
    ensures Step(words, s, l).db.threads == s.db.threads
  {
    if IsCheck(l) {
      ChecksLeaveTables(words, s, l);
    } else if IsUserStep(l) {
      UserStepsLeave(words, s, l);
    } else if IsPostStep(l) {
      PostStepsLeave(words, s, l);
    } else {
      MarksLeave(words, s, l);
    }
  }

  lemma StepMark(words: Tokenizer, s: System, l: Label, viewer: Id, t: Id)
    requires RefsOk(s.db)
    ensures MarkAt(Step(words, s, l), viewer, t) == OpenedAfter(MarkAt(s, viewer, t), NoteOf(words, s, l, t), viewer)
  {
    if l.MarkRead? {
      OpenMark(words, s, l.user, l.thread, l.at, viewer, t);
    } else if l.HardDelete? {
      DeleteMark(words, s, l.thread, viewer, t);
    } else {
      RestLeaveMarks(words, s, l);
      NoMarkOnNew(s.db, viewer, t);
      NoMarkYet(words, s, l, viewer, t);
    }
  }

  lemma OpenMark(words: Tokenizer, s: System, u: Id, x: Id, at: Stamp, viewer: Id, t: Id)
    ensures Step(words, s, MarkRead(u, x, at)) == s.(db := MarkThreadRead(s.db, u, x, at))
    ensures MarkAt(s.(db := MarkThreadRead(s.db, u, x, at)), viewer, t)
         == if u == viewer && x == t && u in s.db.users && t in s.db.threads then Some(at) else MarkAt(s, viewer, t)
  {
  }

  lemma DeleteMark(words: Tokenizer, s: System, x: Id, viewer: Id, t: Id)
    requires RefsOk(s.db)
    ensures Step(words, s, HardDelete(x)) == HardDeleteStep(words, s, x)
    ensures MarkAt(HardDeleteStep(words, s, x), viewer, t) == if x == t then None else MarkAt(s, viewer, t)
  {
  }

  lemma NoMarkOnNew(db: Db, viewer: Id, t: Id)
    requires RefsOk(db)
    ensures (viewer, t) in db.readMarks ==> t in db.threads
  {
  }

  /** A thread that begins has no marks. */
  lemma NoMarkYet(words: Tokenizer, s: System, l: Label, viewer: Id, t: Id)
    requires !l.MarkRead? && !l.HardDelete? && ((viewer, t) in s.db.readMarks ==> t in s.db.threads)
    ensures OpenedAfter(MarkAt(s, viewer, t), NoteOf(words, s, l, t), viewer) == MarkAt(s, viewer, t)
  {
    if NoteOf(words, s, l, t).Begun? {
      BegunIsNew(words, s, l, t);
    }
  }

  lemma BegunIsNew(words: Tokenizer, s: System, l: Label, t: Id)
    requires NoteOf(words, s, l, t).Begun?
    ensures t !in s.db.threads
  {
  }

  lemma RestLeaveMarks(words: Tokenizer, s: System, l: Label)
    requires !l.MarkRead? && !l.HardDelete?
    ensures Step(words, s, l).db.readMarks == s.db.readMarks
  {
    if IsCheck(l) {
      ChecksLeaveTables(words, s, l);
    } else if IsUserStep(l) {
      UserStepsLeave(words, s, l);
    } else if IsPostStep(l) {
      PostStepsLeave(words, s, l);
    } else {
      ThreadStepsLeave(words, s, l);
    }
  }

  function LastOf(counts: seq<Stamp>): Option<Stamp> {
    if counts == [] then None else Some(counts[|counts| - 1])
  }

  /** The thread row shows the stamp counted last, and the read mark the last opening. */
  ghost predicate Shows(s: System, notes: seq<Note>, viewer: Id, t: Id) {
    RowAt(s, t) == LastOf(Counts(notes)) && MarkAt(s, viewer, t) == LastOpened(notes, viewer)
  }

  /** After any run the thread row shows the stamp counted last, and the read mark the last opening. */
  lemma {:induction false} RunShows(words: Tokenizer, subs: set<Id>, run: seq<Label>, viewer: Id, t: Id)
    ensures Shows(Exec(words, Init(subs), run), Notes(words, Init(subs), run, t), viewer, t)
  {
    if run != [] {
      var front, l := run[..|run| - 1], run[|run| - 1];
      var s, notes := Exec(words, Init(subs), front), Notes(words, Init(subs), front, t);
      RunShows(words, subs, front, viewer, t);
      ForestAlways(words, subs, front);
      StepShows(words, s, notes, l, viewer, t);
    }
  }

  lemma StepShows(words: Tokenizer, s: System, notes: seq<Note>, l: Label, viewer: Id, t: Id)
    requires RefsOk(s.db) && Shows(s, notes, viewer, t)
    ensures Shows(Step(words, s, l), notes + [NoteOf(words, s, l, t)], viewer, t)
  {
    var e := NoteOf(words, s, l, t);
    StepRow(words, s, l, t);
    StepMark(words, s, l, viewer, t);
    NotesSnoc(notes, e, viewer);
    LastCounted(Counts(notes), e);
  }

  lemma LastCounted(counts: seq<Stamp>, e: Note)
    ensures LastOf(CountsAfter(counts, e)) == RowAfter(LastOf(counts), e)
  {
  }

  lemma NotesSnoc(notes: seq<Note>, e: Note, viewer: Id)
    ensures Stamps(notes + [e]) == StampsAfter(Stamps(notes), e)
    ensures Counts(notes + [e]) == CountsAfter(Counts(notes), e)
    ensures LastOpened(notes + [e], viewer) == OpenedAfter(LastOpened(notes, viewer), e, viewer)
  {
    assert (notes + [e])[..|notes|] == notes;
  }

  // ----- Stored replies are counted in the end -----

  /** A request has stored a reply with this stamp and not yet counted it. */
  ghost predicate Awaits(s: System, t: Id, at: Stamp) {
    exists r :: r in PendingBumps(s.flight, t) && s.flight[r].at == at
  }

  /** Every stored stamp is counted or about to be, and no other. */
  ghost predicate Covered(s: System, notes: seq<Note>, t: Id) {
    forall at :: at in Stamps(notes) <==> at in Counts(notes) || Awaits(s, t, at)
  }

  lemma StepAwaits(words: Tokenizer, s: System, l: Label, t: Id, at: Stamp)
    requires (l.BumpThread? ==> l.up) && (t in s.db.threads || !Awaits(s, t, at))
    ensures var e := NoteOf(words, s, l, t);
            && (e == Posted(at) ==> Awaits(Step(words, s, l), t, at))
            && (e != Posted(at) && Awaits(Step(words, s, l), t, at) ==> Awaits(s, t, at))
            && (e != Counted(at) && Awaits(s, t, at) ==> Awaits(Step(words, s, l), t, at))
            && (e == Counted(at) ==> Awaits(s, t, at))
  {
    match l
    case StoreReply(r, up) => StoreAwaits(words, s, r, up, t, at);
    case BumpThread(r, up) => BumpAwaits(words, s, r, t, at);
    case _ => OthersAwait(words, s, l, t);
  }

  lemma StoreAwaits(words: Tokenizer, s: System, r: nat, up: bool, t: Id, at: Stamp)
    ensures var e := NoteOf(words, s, StoreReply(r, up), t);
            && Step(words, s, StoreReply(r, up)) == StoreReplyStep(words, s, r, up)
            && (Awaits(StoreReplyStep(words, s, r, up), t, at) <==> Awaits(s, t, at) || e == Posted(at))
  {
    var next := StoreReplyStep(words, s, r, up);
    if r in s.flight && s.flight[r].ReplyPassed? {
      if up && InsertPost(words, s.db, PostOf(s.flight[r])).Ok? {
        var q := s.flight[r];
        PutAwaits(s, next, r, ReplyStored(q.thread, q.user, q.at), t, at);
      } else {
        DropElsewhere(s.flight, r, t);
        WaitingAwaits(s, next, t, at);
      }
    }
  }

  lemma PutAwaits(s: System, next: System, r: nat, q: Request, t: Id, at: Stamp)
    requires r in s.flight && !s.flight[r].ReplyStored? && q.ReplyStored? && next.flight == s.flight[r := q]
    ensures Awaits(next, t, at) <==> Awaits(s, t, at) || (q.thread == t && q.at == at)
  {
    PutRequest(s.flight, r, q, t);
    if Awaits(s, t, at) {
      var x :| x in PendingBumps(s.flight, t) && s.flight[x].at == at;
      assert x in PendingBumps(next.flight, t) && next.flight[x] == s.flight[x];
    }
    if q.thread == t && q.at == at {
      assert r in PendingBumps(next.flight, t);
    }
  }

  lemma BumpAwaits(words: Tokenizer, s: System, r: nat, t: Id, at: Stamp)
    requires t in s.db.threads || !Awaits(s, t, at)
    ensures var e := NoteOf(words, s, BumpThread(r, true), t);
            && Step(words, s, BumpThread(r, true)) == BumpThreadStep(s, r, true)
            && (Awaits(BumpThreadStep(s, r, true), t, at) ==> Awaits(s, t, at))
            && (e != Counted(at) && Awaits(s, t, at) ==> Awaits(BumpThreadStep(s, r, true), t, at))
            && (e == Counted(at) ==> Awaits(s, t, at))
  {
    var next := BumpThreadStep(s, r, true);
    if Awaits(next, t, at) {
      var x :| x in PendingBumps(next.flight, t) && next.flight[x].at == at;
      assert x in PendingBumps(s.flight, t);
    }
    if NoteOf(words, s, BumpThread(r, true), t) == Counted(at) {
      assert r in PendingBumps(s.flight, t);
    } else if Awaits(s, t, at) {
      var x :| x in PendingBumps(s.flight, t) && s.flight[x].at == at;
      assert x in PendingBumps(next.flight, t);
    }
  }

  lemma OthersAwait(words: Tokenizer, s: System, l: Label, t: Id)
    requires !l.StoreReply? && !l.BumpThread?
    ensures forall at :: Awaits(Step(words, s, l), t, at) <==> Awaits(s, t, at)
    ensures !NoteOf(words, s, l, t).Posted? && !NoteOf(words, s, l, t).Counted?
  {
    SamePending(words, s, l, t);
    forall at ensures Awaits(Step(words, s, l), t, at) <==> Awaits(s, t, at) {
      WaitingAwaits(s, Step(words, s, l), t, at);
    }
  }

  lemma WaitingAwaits(a: System, b: System, t: Id, at: Stamp)
    requires SameWaiting(a, b, t)
    ensures Awaits(a, t, at) <==> Awaits(b, t, at)
  {
    if Awaits(a, t, at) {
      var r :| r in PendingBumps(a.flight, t) && a.flight[r].at == at;
      assert r in PendingBumps(b.flight, t) && b.flight[r].at == at;
    }
  }

  lemma SamePending(words: Tokenizer, s: System, l: Label, t: Id)
    requires !l.StoreReply? && !l.BumpThread?
    ensures SameWaiting(s, Step(words, s, l), t)
  {
    match l
    case CountReply(r, up) => CountPending(words, s, r, up, t);
    case StoreThread(r, up) => RowPending(words, s, r, up, t);
    case StoreOpening(r, up) => OpeningPending(words, s, r, up, t);
    case CheckParent(r, up) => CheckPending(words, s, r, up, t);
    case BeginReply(_, _, _, _, _, _, _) => BeginningPending(words, s, l, t);
    case BeginThread(_, _, _, _, _, _, _) => BeginningPending(words, s, l, t);
    case _ => TablesLeaveFlight(words, s, l);
  }

  /** The replies of `t` that wait to be counted are the same, and the same requests. */
  ghost predicate SameWaiting(a: System, b: System, t: Id) {
    && PendingBumps(b.flight, t) == PendingBumps(a.flight, t)
    && forall r <- PendingBumps(a.flight, t) :: b.flight[r] == a.flight[r]
  }

  lemma CountPending(words: Tokenizer, s: System, r: nat, up: bool, t: Id)
    ensures Step(words, s, CountReply(r, up)) == CountReplyStep(s, r, up) && SameWaiting(s, CountReplyStep(s, r, up), t)
  {
  }

  lemma RowPending(words: Tokenizer, s: System, r: nat, up: bool, t: Id)
    ensures Step(words, s, StoreThread(r, up)) == StoreThreadStep(s, r, up)
            && SameWaiting(s, StoreThreadStep(s, r, up), t)
  {
  }

  lemma OpeningPending(words: Tokenizer, s: System, r: nat, up: bool, t: Id)
    ensures Step(words, s, StoreOpening(r, up)) == StoreOpeningStep(words, s, r, up)
    ensures SameWaiting(s, StoreOpeningStep(words, s, r, up), t)
  {
    if r in s.flight && s.flight[r].ThreadStored? {
      OpeningGone(words, s, r, up);
      GoneWaiting(s, StoreOpeningStep(words, s, r, up), r, t);
    } else {
      assert StoreOpeningStep(words, s, r, up) == s;
    }
  }

  lemma OpeningGone(words: Tokenizer, s: System, r: nat, up: bool)
    requires r in s.flight && s.flight[r].ThreadStored?
    ensures StoreOpeningStep(words, s, r, up).flight == s.flight - {r}
  {
  }

  lemma GoneWaiting(a: System, b: System, r: nat, t: Id)
    requires r in a.flight && !a.flight[r].ReplyStored? && b.flight == a.flight - {r}
    ensures SameWaiting(a, b, t)
  {
  }

  lemma CheckPending(words: Tokenizer, s: System, r: nat, up: bool, t: Id)
    ensures Step(words, s, CheckParent(r, up)) == CheckParentStep(s, r, up)
            && SameWaiting(s, CheckParentStep(s, r, up), t)
  {
  }

  lemma BeginningPending(words: Tokenizer, s: System, l: Label, t: Id)
    requires l.BeginReply? || l.BeginThread?
    ensures SameWaiting(s, Step(words, s, l), t)
  {
  }

  /** Nothing is pending on a thread that begins or ends. */
  lemma StepCovered(words: Tokenizer, s: System, notes: seq<Note>, l: Label, t: Id)
    requires Covered(s, notes, t) && (l.BumpThread? ==> l.up)
    requires t !in s.db.threads ==> PendingBumps(s.flight, t) == {}
    requires l == HardDelete(t) ==> PendingBumps(s.flight, t) == {}
    ensures Covered(Step(words, s, l), notes + [NoteOf(words, s, l, t)], t)
  {
    var e := NoteOf(words, s, l, t);
    forall at ensures at in Stamps(notes + [e]) <==> at in Counts(notes + [e]) || Awaits(Step(words, s, l), t, at) {
      StepAwaits(words, s, l, t, at);
      BeginsIdle(words, s, l, t);
      assert at in Stamps(notes) <==> at in Counts(notes) || Awaits(s, t, at);
      StampCovered(notes, e, at, Awaits(s, t, at), Awaits(Step(words, s, l), t, at));
    }
  }

  lemma StampCovered(notes: seq<Note>, e: Note, at: Stamp, before: bool, after: bool)
    requires at in Stamps(notes) <==> at in Counts(notes) || before
    requires e == Posted(at) ==> after
    requires e != Posted(at) && after ==> before
    requires e != Counted(at) && before ==> after
    requires e == Counted(at) ==> before
    requires e.Begun? || e.Ended? ==> !before
    ensures at in Stamps(notes + [e]) <==> at in Counts(notes + [e]) || after
  {
    NotesSnoc(notes, e, 0);
  }

  lemma BeginsIdle(words: Tokenizer, s: System, l: Label, t: Id)
    requires t !in s.db.threads ==> PendingBumps(s.flight, t) == {}
    requires l == HardDelete(t) ==> PendingBumps(s.flight, t) == {}
    ensures var e := NoteOf(words, s, l, t); e.Begun? || e.Ended? ==> forall at :: !Awaits(s, t, at)
  {
  }

  lemma {:induction false} RunCovered(words: Tokenizer, subs: set<Id>, run: seq<Label>, t: Id)
    requires Orderly(words, Init(subs), run)
    ensures Covered(Exec(words, Init(subs), run), Notes(words, Init(subs), run, t), t)
  {
    if run != [] {
      var front, l := run[..|run| - 1], run[|run| - 1];
      assert l in run && forall x <- front :: x in run;
      GuardedPrefix(words, Init(subs), run);
      RunCovered(words, subs, front, t);
      IdleWhenGone(words, subs, front, t);
      StepCovered(words, Exec(words, Init(subs), front), Notes(words, Init(subs), front, t), l, t);
    }
  }

  lemma IdleWhenGone(words: Tokenizer, subs: set<Id>, run: seq<Label>, t: Id)
    requires Guarded(words, Init(subs), run)
    ensures t !in Exec(words, Init(subs), run).db.threads ==> PendingBumps(Exec(words, Init(subs), run).flight, t) == {}
  {
    assert Conserved(Init(subs)) by {
      forall x: Id ensures ThreadOk(Init(subs), x) {
      }
    }
    ExecConserves(words, Init(subs), run);
    assert ThreadOk(Exec(words, Init(subs), run), t);
  }

  // ----- The order of the stamps -----

  lemma {:induction false} TextLessTransitive(a: string, b: string, c: string)
    requires TextLess(a, b) && TextLess(b, c)
    ensures TextLess(a, c)
  {
    if a != [] && b != [] && c != [] && a[0] == b[0] == c[0] {
      TextLessTransitive(a[1..], b[1..], c[1..]);
    }
  }

  lemma {:induction false} TextLessTotal(a: string, b: string)
    ensures TextLess(a, b) || a == b || TextLess(b, a)
    ensures !TextLess(a, a)
  {
    if a != [] {
      if b != [] {
        TextLessTotal(a[1..], b[1..]);
        assert a == [a[0]] + a[1..] && b == [b[0]] + b[1..];
      } else {
        TextLessTotal(a[1..], b);
      }
    }
  }

  ghost predicate Latest(at: Stamp, stamps: seq<Stamp>) {
    at in stamps && forall x <- stamps :: !TextLess(at, x)
  }

  /** Something was posted after the mark. */
  ghost predicate PostedAfter(stamps: seq<Stamp>, mark: Stamp) {
    exists x <- stamps :: TextLess(mark, x)
  }

  lemma {:induction false} SomeLatest(stamps: seq<Stamp>) returns (at: Stamp)
    requires stamps != []
    ensures Latest(at, stamps)
  {
    var n := |stamps| - 1;
    TextLessTotal(stamps[n], stamps[n]);
    if n == 0 {
      at := stamps[0];
    } else {
      var front := SomeLatest(stamps[..n]);
      at := if TextLess(front, stamps[n]) then stamps[n] else front;
      LaterOfTwo(stamps, front);
    }
  }

  lemma LaterOfTwo(stamps: seq<Stamp>, front: Stamp)
    requires stamps != [] && Latest(front, stamps[..|stamps| - 1])
    ensures var last := stamps[|stamps| - 1]; Latest(if TextLess(front, last) then last else front, stamps)
  {
    var last := stamps[|stamps| - 1];
    forall x | x in stamps ensures !TextLess(if TextLess(front, last) then last else front, x) {
      TextLessTotal(last, last);
      if x != last {
        assert x in stamps[..|stamps| - 1];
        if TextLess(front, last) && TextLess(last, x) {
          TextLessTransitive(front, last, x);
        }
      }
    }
  }

  lemma LatestRight(at: Stamp, stamps: seq<Stamp>, mark: Stamp)
    requires Latest(at, stamps)
    ensures TextLess(mark, at) <==> PostedAfter(stamps, mark)
  {
    if PostedAfter(stamps, mark) {
      var x :| x in stamps && TextLess(mark, x);
      TextLessTotal(x, at);
      if TextLess(x, at) {
        TextLessTransitive(mark, x, at);
      }
    }
  }

  /** Of some stamps, only the latest tells for every mark whether one of them comes after it. */
  lemma {:induction false} LatestIff(at: Stamp, stamps: seq<Stamp>)
    requires stamps != []
    ensures Latest(at, stamps) <==> forall mark: Stamp :: TextLess(mark, at) <==> PostedAfter(stamps, mark)
  {
    if Latest(at, stamps) {
      forall mark: Stamp ensures TextLess(mark, at) <==> PostedAfter(stamps, mark) {
        LatestRight(at, stamps, mark);
      }
    } else {
      var top := SomeLatest(stamps);
      LatestRight(top, stamps, at);
      LatestRight(top, stamps, top);
      TextLessTotal(at, top);
      TextLessTotal(top, top);
      assert exists mark: Stamp :: !(TextLess(mark, at) <==> PostedAfter(stamps, mark)) by {
        var mark := if TextLess(at, top) then at else top;
        assert !(TextLess(mark, at) <==> PostedAfter(stamps, mark));
      }
    }
  }

  // ----- When the flag is right -----

  /** A thread that is there has been begun. */
  lemma {:induction false} StampsWhileThere(words: Tokenizer, s: System, run: seq<Label>, t: Id)
    requires t !in s.db.threads
    ensures t in Exec(words, s, run).db.threads ==> Stamps(Notes(words, s, run, t)) != []
  {
    if run != [] {
      var front, l := run[..|run| - 1], run[|run| - 1];
      var mid, notes := Exec(words, s, front), Notes(words, s, front, t);
      StampsWhileThere(words, s, front, t);
      StepRow(words, mid, l, t);
      NotesSnoc(notes, NoteOf(words, mid, l, t), 0);
      CountedThereIs(words, mid, l, t);
    }
  }

  lemma CountedThereIs(words: Tokenizer, s: System, l: Label, t: Id)
    ensures NoteOf(words, s, l, t).Counted? ==> t in s.db.threads
  {
  }

  /** In every run, whatever interleaves, fails or is deleted: comparing a read mark with the stamp of the
      thread row tells for every mark whether something was posted after it in the thread's present life
      exactly when the row shows the latest of the stamps posted there. */
  lemma {:induction false} UnreadRightIff(words: Tokenizer, subs: set<Id>, run: seq<Label>, t: Id)
    requires t in Exec(words, Init(subs), run).db.threads
    ensures var shown := Exec(words, Init(subs), run).db.threads[t].lastPostAt;
            var stamps := Stamps(Notes(words, Init(subs), run, t));
            (forall mark: Stamp :: TextLess(mark, shown) <==> PostedAfter(stamps, mark)) <==> Latest(shown, stamps)
  {
    StampsWhileThere(words, Init(subs), run, t);
    LatestIff(Exec(words, Init(subs), run).db.threads[t].lastPostAt, Stamps(Notes(words, Init(subs), run, t)));
  }

  /** Then a thread is listed as unread for a viewer exactly when they are signed in and have not opened it in its
      present life, or something was posted after their last opening. */
  lemma {:induction false} UnreadInterleaved(words: Tokenizer, subs: set<Id>, run: seq<Label>, viewer: Id, t: Id)
    requires t in Exec(words, Init(subs), run).db.threads
    requires Latest(Exec(words, Init(subs), run).db.threads[t].lastPostAt, Stamps(Notes(words, Init(subs), run, t)))
    ensures var notes := Notes(words, Init(subs), run, t);
            Unread.ListedUnread(Exec(words, Init(subs), run).db, viewer, t)
            <==> viewer != 0
                 && (LastOpened(notes, viewer).None? || PostedAfter(Stamps(notes), LastOpened(notes, viewer).value))
  {
    UnreadRightIff(words, subs, run, t);
    RunShows(words, subs, run, viewer, t);
  }

  /** The replies of the thread were counted in the order of their stamps. */
  ghost predicate CountedInOrder(counts: seq<Stamp>) {
    forall i, j :: 0 <= i < j < |counts| ==> !TextLess(counts[j], counts[i])
  }

  /** When no count failed, no thread was deleted under a pending write, and no reply of the thread waits to
      be counted: the row shows the stamp counted last, and that is the latest posted exactly when no reply
      counted before it has a later one; always when replies were counted in the order of their stamps. */
  lemma {:induction false} LatestWhenInOrder(words: Tokenizer, subs: set<Id>, run: seq<Label>, t: Id)
    requires Orderly(words, Init(subs), run)
    requires var s := Exec(words, Init(subs), run); t in s.db.threads && PendingBumps(s.flight, t) == {}
    ensures var shown := Exec(words, Init(subs), run).db.threads[t].lastPostAt;
            var notes := Notes(words, Init(subs), run, t);
            && LastOf(Counts(notes)) == Some(shown)
            && (Latest(shown, Stamps(notes)) <==> Latest(shown, Counts(notes)))
            && (CountedInOrder(Counts(notes)) ==> Latest(shown, Stamps(notes)))
  {
    var s, notes := Exec(words, Init(subs), run), Notes(words, Init(subs), run, t);
    RunShows(words, subs, run, 0, t);
    RunCovered(words, subs, run, t);
    SameStamps(s, notes, t);
    SameLatest(s.db.threads[t].lastPostAt, Stamps(notes), Counts(notes));
    if CountedInOrder(Counts(notes)) {
      LastIsLatest(Counts(notes));
    }
  }

  lemma LastIsLatest(counts: seq<Stamp>)
    requires counts != [] && CountedInOrder(counts)
    ensures Latest(counts[|counts| - 1], counts)
  {
    var last := counts[|counts| - 1];
    forall x | x in counts ensures !TextLess(last, x) {
      var i :| 0 <= i < |counts| && counts[i] == x;
      TextLessTotal(last, last);
    }
  }

  lemma SameStamps(s: System, notes: seq<Note>, t: Id)
    requires Covered(s, notes, t) && PendingBumps(s.flight, t) == {}
    ensures forall at :: at in Stamps(notes) <==> at in Counts(notes)
  {
    forall at ensures at in Stamps(notes) <==> at in Counts(notes) {
      assert !Awaits(s, t, at);
    }
  }

  lemma SameLatest(at: Stamp, a: seq<Stamp>, b: seq<Stamp>)
    requires forall x :: x in a <==> x in b
    ensures Latest(at, a) <==> Latest(at, b)
  {
  }

  /** Two replies of a thread wait to be counted, `b` with a later stamp than `a`.  A viewer opens the thread
      at the stamp of `a`; `b` is counted, and then `a`: the thread is not listed as unread, though `b` was
      posted after the opening. */
  lemma {:induction false} LaterReplyHidden(words: Tokenizer, s: System, a: nat, b: nat, viewer: Id, t: Id)
    requires a in PendingBumps(s.flight, t) && b in PendingBumps(s.flight, t)
             && TextLess(s.flight[a].at, s.flight[b].at)
    requires t in s.db.threads && viewer in s.db.users && viewer != 0
    ensures var at := s.flight[a].at;
            var e := Exec(words, s, [MarkRead(viewer, t, at), BumpThread(b, true), BumpThread(a, true)]);
            && t in e.db.threads && (viewer, t) in e.db.readMarks && e.db.readMarks[(viewer, t)] == at
               && TextLess(at, s.flight[b].at)
            && !Unread.ListedUnread(e.db, viewer, t)
  {
    var at := s.flight[a].at;
    ExecThree(words, s, MarkRead(viewer, t, at), BumpThread(b, true), BumpThread(a, true));
    TextLessTotal(at, at);
    var marked := s.(db := MarkThreadRead(s.db, viewer, t, at));
    assert Step(words, s, MarkRead(viewer, t, at)) == marked;
    IsItsStep(words, marked, b);
    IsItsStep(words, BumpThreadStep(marked, b, true), a);
  }
}
