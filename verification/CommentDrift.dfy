/** Comment deletes statement by statement, beside creates and post deletes, under READ COMMITTED with row locks. The
    delete's first statement finds its thread in a snapshot and then waits for the rows; nothing makes it look again
    whether they are still live, so it may mark, and count, rows another delete has just removed. */
module CommentDrift {
  import opened Runs
  import C = Comments

  type Id = C.Id

  datatype Work =
    | CreateWork(id: Id, post: Id, author: Id, parent: C.Option<Id>)
    | DropWork(post: Id)
    | DeleteWork(id: Id, post: Id)

  /** seen is the post row as found under its lock; again are the rows of a thread that were already deleted when the
      delete got their locks. */
  datatype Phase =
    | Waiting
    | Locked(seen: C.Post)
    | Written(seen: C.Post, marked: set<Id>)
    | Finding(thread: set<Id>)
    | Marked(thread: set<Id>, again: set<Id>)
    | Counted(thread: set<Id>, again: set<Id>, seen: C.Post)
    | Ended(done: bool)

  datatype Txn = Txn(work: Work, phase: Phase)

  /** drift counts, per post, the rows that committed deletes marked a second time. */
  datatype Sys = Sys(db: C.Db, drift: map<Id, nat>, txns: seq<Txn>)

  function Drift(drift: map<Id, nat>, post: Id): nat {
    if post in drift then drift[post] else 0
  }

  predicate HasPost(t: Txn, post: Id) {
    (t.phase.Locked? || t.phase.Written? || t.phase.Counted?) && t.work.post == post
  }

  function Held(t: Txn): set<Id> {
    match t.phase
    case Written(_, marked) => marked
    case Marked(thread, _) => thread
    case Counted(thread, _, _) => thread
    case _ => {}
  }

  predicate PostFree(s: Sys, post: Id) {
    forall j | 0 <= j < |s.txns| :: !HasPost(s.txns[j], post)
  }

  predicate RowsFree(s: Sys, rows: set<Id>) {
    forall j | 0 <= j < |s.txns| :: Held(s.txns[j]) !! rows
  }

  predicate Inserting(t: Txn, id: Id) {
    t.phase.Written? && t.work.CreateWork? && t.work.id == id
  }

  predicate IdFree(s: Sys, id: Id) {
    forall j | 0 <= j < |s.txns| :: !Inserting(s.txns[j], id)
  }

  function Moved(s: Sys, i: nat, phase: Phase): Sys
    requires i < |s.txns|
  {
    s.(txns := s.txns[i := s.txns[i].(phase := phase)])
  }

  // ---- The steps. A statement that has to wait for a lock does not move. ----

  /** A comment delete starts from the pair AuthorAndPostOf handed out. */
  function Begin(s: Sys, work: Work): Sys {
    if work.DeleteWork? && !(work.id in s.db.comments && s.db.comments[work.id].post == work.post) then s
    else s.(txns := s.txns + [Txn(work, Waiting)])
  }

  /** The first statement of a create or a post delete: the post row. */
  function LockPost(s: Sys, i: nat): Sys {
    if i >= |s.txns| || !s.txns[i].phase.Waiting? || s.txns[i].work.DeleteWork?
       || !PostFree(s, s.txns[i].work.post)
    then s
    else
      var post := s.txns[i].work.post;
      Moved(s, i, if C.LivePost(s.db, post) then Locked(s.db.posts[post]) else Ended(false))
  }

  /** Their second statement. */
  function Write(s: Sys, i: nat): Sys {
    if i >= |s.txns| || !s.txns[i].phase.Locked? then s
    else match s.txns[i].work
      case CreateWork(id, post, author, parent) =>
        if !IdFree(s, id) then s
        else
          var done := C.InsertOutcome(s.db, id, post, author, parent).Done?;
          Moved(s, i, if done then Written(s.txns[i].phase.seen, {}) else Ended(false))
      case DropWork(post) =>
        var live := C.LiveOn(s.db.comments, post);
        if RowsFree(s, live) then Moved(s, i, Written(s.txns[i].phase.seen, live)) else s
      case DeleteWork(_, _) => s
  }

  /** The recursive query of a comment delete, on the snapshot its statement starts with. */
  ghost function Find(s: Sys, i: nat): Sys {
    if i >= |s.txns| || !s.txns[i].phase.Waiting? || !s.txns[i].work.DeleteWork?
       || !C.ParentsFirst(s.db.comments)
    then s
    else
      var thread := C.Thread(s.db.comments, s.txns[i].work.id);
      Moved(s, i, if thread == {} then Ended(false) else Finding(thread))
  }

  function Dead(cs: C.Rows, rows: set<Id>): set<Id> {
    set c | c in rows && c in cs && !cs[c].live
  }

  /** Its UPDATE, once it has the locks of all the rows it found. */
  function Mark(s: Sys, i: nat): Sys {
    if i >= |s.txns| || !s.txns[i].phase.Finding? || !RowsFree(s, s.txns[i].phase.thread) then s
    else
      var thread := s.txns[i].phase.thread;
      Moved(s, i, Marked(thread, Dead(s.db.comments, thread)))
  }

  /** The counter UPDATE, with its CHECK. */
  function CountDown(s: Sys, i: nat): Sys {
    if i >= |s.txns| || !s.txns[i].phase.Marked?
       || !PostFree(s, s.txns[i].work.post) || s.txns[i].work.post !in s.db.posts
    then s
    else
      var Marked(thread, again) := s.txns[i].phase;
      var seen := s.db.posts[s.txns[i].work.post];
      Moved(s, i, if seen.count < |thread| then Ended(false) else Counted(thread, again, seen))
  }

  function Published(s: Sys, i: nat): C.Db
    requires i < |s.txns| && (s.txns[i].phase.Written? || s.txns[i].phase.Counted?)
  {
    var t, db := s.txns[i], s.db;
    match t.work
    case CreateWork(id, post, author, parent) =>
      db.(posts := db.posts[post := t.phase.seen.(count := t.phase.seen.count + 1)],
          comments := db.comments[id := C.Comment(post, author, parent, true, db.clock)], clock := db.clock + 1)
    case DropWork(post) =>
      db.(posts := db.posts[post := t.phase.seen.(live := false)], comments := C.SoftDelete(db.comments, Held(t)))
    case DeleteWork(_, post) =>
      db.(posts := db.posts[post := t.phase.seen.(count := t.phase.seen.count - |Held(t)|)],
        comments := C.SoftDelete(db.comments, Held(t)))
  }

  function Commit(s: Sys, i: nat): Sys {
    if i >= |s.txns| || !(s.txns[i].phase.Written? || s.txns[i].phase.Counted?) then s
    else
      var t := s.txns[i];
      Sys(Published(s, i),
          if t.phase.Counted? then s.drift[t.work.post := Drift(s.drift, t.work.post) + |t.phase.again|] else s.drift,
          s.txns[i := t.(phase := Ended(true))])
  }

  /** A cancelled request, a lost connection, a crash, a deadlock's victim. */
  function Abort(s: Sys, i: nat): Sys {
    if i >= |s.txns| || s.txns[i].phase.Ended? then s else Moved(s, i, Ended(false))
  }

  datatype Action =
    | Beginning(work: Work) | LockingPost(i: nat) | Writing(i: nat)
    | Searching(i: nat) | Marking(i: nat) | CountingDown(i: nat)
    | Committing(i: nat) | Aborting(i: nat)

  ghost function Step(s: Sys, a: Action): Sys {
    match a
    case Beginning(work) => Begin(s, work)
    case LockingPost(i) => LockPost(s, i)
    case Writing(i) => Write(s, i)
    case Searching(i) => Find(s, i)
    case Marking(i) => Mark(s, i)
    case CountingDown(i) => CountDown(s, i)
    case Committing(i) => Commit(s, i)
    case Aborting(i) => Abort(s, i)
  }

  // ---- What every step keeps ----

  /** The counters, short by the drift. */
  ghost predicate Base(db: C.Db, drift: map<Id, nat>) {
    && C.ParentsFirst(db.comments)
    && (forall c | c in db.comments :: db.comments[c].born < db.clock && db.comments[c].post in db.posts)
    && (forall c | c in db.comments && db.comments[c].live :: db.posts[db.comments[c].post].live)
    && (forall p | p in db.posts :: db.posts[p].count >= 0)
    && (forall p | C.LivePost(db, p) :: db.posts[p].count + Drift(drift, p) == |C.LiveOn(db.comments, p)|)
  }

  /** What a transaction relies on between its statements. */
  ghost predicate ViewOk(db: C.Db, t: Txn) {
    && (HasPost(t, t.work.post) ==> t.work.post in db.posts && db.posts[t.work.post] == t.phase.seen)
    && (t.phase.Locked? || t.phase.Written? ==> t.phase.seen.live && !t.work.DeleteWork?)
    && (t.phase.Written? && t.work.CreateWork? ==>
          t.phase.marked == {} && C.InsertOutcome(db, t.work.id, t.work.post, t.work.author, t.work.parent).Done?)
    && (t.phase.Written? && t.work.DropWork? ==> t.phase.marked == C.LiveOn(db.comments, t.work.post))
    && (t.phase.Finding? ==> t.work.DeleteWork? && OnPost(db.comments, t.phase.thread, t.work.post))
    && (t.phase.Marked? || t.phase.Counted? ==>
          && t.work.DeleteWork? && OnPost(db.comments, t.phase.thread, t.work.post)
          && t.phase.again == Dead(db.comments, t.phase.thread))
    && (t.phase.Counted? ==> t.phase.seen.count >= |t.phase.thread|)
    && (t.work.DeleteWork? ==> t.work.id in db.comments && db.comments[t.work.id].post == t.work.post)
  }

  predicate OnPost(cs: C.Rows, rows: set<Id>, post: Id) {
    forall c | c in rows :: c in cs && cs[c].post == post
  }

  ghost predicate Apart(t: Txn, u: Txn) {
    && Held(t) !! Held(u)
    && (HasPost(t, t.work.post) && HasPost(u, u.work.post) ==> t.work.post != u.work.post)
    && (t.work.CreateWork? && Inserting(t, t.work.id) ==> !Inserting(u, t.work.id))
  }

  ghost predicate AllApart(txns: seq<Txn>) {
    forall i, j | 0 <= i < |txns| && 0 <= j < |txns| && i != j :: Apart(txns[i], txns[j])
  }

  ghost predicate Inv(s: Sys) {
    && Base(s.db, s.drift)
    && AllApart(s.txns)
    && forall i | 0 <= i < |s.txns| :: ViewOk(s.db, s.txns[i])
  }

  /** One transaction moves, nothing is committed. */
  lemma MoveKeepsInv(s: Sys, i: nat, phase: Phase)
    requires Inv(s) && i < |s.txns|
    requires ViewOk(s.db, s.txns[i].(phase := phase))
    requires forall j | 0 <= j < |s.txns| && j != i ::
      Apart(s.txns[i].(phase := phase), s.txns[j]) && Apart(s.txns[j], s.txns[i].(phase := phase))
    ensures Inv(Moved(s, i, phase))
  {
  }

  lemma EndKeepsInv(s: Sys, i: nat, done: bool)
    requires Inv(s) && i < |s.txns|
    ensures Inv(Moved(s, i, Ended(done)))
  {
    MoveKeepsInv(s, i, Ended(done));
  }

  lemma LockPostKeepsInv(s: Sys, i: nat)
    requires Inv(s)
    ensures Inv(LockPost(s, i))
  {
    if LockPost(s, i) != s {
      var post := s.txns[i].work.post;
      if C.LivePost(s.db, post) {
        MoveKeepsInv(s, i, Locked(s.db.posts[post]));
      } else {
        EndKeepsInv(s, i, false);
      }
    }
  }

  lemma WriteKeepsInv(s: Sys, i: nat)
    requires Inv(s)
    ensures Inv(Write(s, i))
  {
    if i < |s.txns| && s.txns[i].phase.Locked? && Write(s, i) != s {
      var t, seen := s.txns[i], s.txns[i].phase.seen;
      assert ViewOk(s.db, t);
      forall j | 0 <= j < |s.txns| && j != i ensures Apart(t, s.txns[j]) {
      }
      match t.work
      case CreateWork(id, post, author, parent) =>
        if C.InsertOutcome(s.db, id, post, author, parent).Done? {
          MoveKeepsInv(s, i, Written(seen, {}));
        } else {
          EndKeepsInv(s, i, false);
        }
      case DropWork(post) => MoveKeepsInv(s, i, Written(seen, C.LiveOn(s.db.comments, post)));
      case DeleteWork(_, _) =>
    }
  }

  lemma FindKeepsInv(s: Sys, i: nat)
    requires Inv(s)
    ensures Inv(Find(s, i))
  {
    if i < |s.txns| && s.txns[i].phase.Waiting? && s.txns[i].work.DeleteWork? {
      var thread := C.Thread(s.db.comments, s.txns[i].work.id);
      C.ThreadOnOnePost(s.db.comments, s.txns[i].work.id);
      if thread == {} {
        EndKeepsInv(s, i, false);
      } else {
        MoveKeepsInv(s, i, Finding(thread));
      }
    }
  }

  /** No call is answered with success except by its own commit. */
  lemma OnlyCommitsSucceed(s: Sys, a: Action, i: nat)
    requires i < |s.txns| && s.txns[i].phase != Ended(true)
    ensures i < |Step(s, a).txns|
    ensures Step(s, a).txns[i].phase == Ended(true) ==> a == Committing(i)
  {
  }

  /** The search of a delete goes on exactly when its comment is live, and then with the whole thread below it. */
  lemma SearchFindsLive(s: Sys, i: nat)
    requires Inv(s) && i < |s.txns| && s.txns[i].phase.Waiting? && s.txns[i].work.DeleteWork?
    ensures var id, cs := s.txns[i].work.id, s.db.comments;
      Step(s, Searching(i)) ==
        Moved(s, i, if id in cs && cs[id].live then Finding(C.Thread(cs, id)) else Ended(false))
  {
    C.ThreadOnOnePost(s.db.comments, s.txns[i].work.id);
  }

  lemma MarkKeepsInv(s: Sys, i: nat)
    requires Inv(s)
    ensures Inv(Mark(s, i))
  {
    if Mark(s, i) != s {
      var thread := s.txns[i].phase.thread;
      assert ViewOk(s.db, s.txns[i]);
      MoveKeepsInv(s, i, Marked(thread, Dead(s.db.comments, thread)));
    }
  }

  lemma CountDownKeepsInv(s: Sys, i: nat)
    requires Inv(s)
    ensures Inv(CountDown(s, i))
  {
    if CountDown(s, i) != s {
      var Marked(thread, again) := s.txns[i].phase;
      var seen := s.db.posts[s.txns[i].work.post];
      assert ViewOk(s.db, s.txns[i]);
      if seen.count < |thread| {
        EndKeepsInv(s, i, false);
      } else {
        forall j | 0 <= j < |s.txns| && j != i ensures Apart(s.txns[i], s.txns[j]) && Apart(s.txns[j], s.txns[i]) {
        }
        MoveKeepsInv(s, i, Counted(thread, again, seen));
      }
    }
  }

  // ---- Commits ----

  lemma BornBeforeClock(db: C.Db, drift: map<Id, nat>, c: Id)
    requires Base(db, drift) && c in db.comments
    ensures db.comments[c].born < db.clock
  {
  }

  lemma CreateKeepsBase(db: C.Db, drift: map<Id, nat>, id: Id, row: C.Comment)
    requires Base(db, drift) && row.live && row.born == db.clock && C.LivePost(db, row.post)
    requires C.InsertOutcome(db, id, row.post, row.author, row.parent).Done?
    ensures var p := db.posts[row.post];
      Base(db.(posts := db.posts[row.post := p.(count := p.count + 1)],
               comments := db.comments[id := row], clock := db.clock + 1), drift)
  {
    if row.parent.Some? {
      BornBeforeClock(db, drift, row.parent.value);
    }
    C.InsertKeepsParentsFirst(db.comments, id, row);
    forall p {
      C.LiveOnAfterInsert(db.comments, id, row, p);
    }
  }

  function WithPost(db: C.Db, post: Id, q: C.Post, gone: set<Id>): C.Db {
    db.(posts := db.posts[post := q], comments := C.SoftDelete(db.comments, gone))
  }

  lemma SoftDeleteKeepsLive(cs: C.Rows, gone: set<Id>, post: Id, p: Id)
    requires OnPost(cs, gone, post)
    ensures C.LiveOn(C.SoftDelete(cs, gone), p) == if p == post then C.LiveOn(cs, p) - gone else C.LiveOn(cs, p)
  {
    forall c ensures c in C.LiveOn(C.SoftDelete(cs, gone), p) <==> c in C.LiveOn(cs, p) && (p == post ==> c !in gone) {
      assert c in gone ==> c in cs && cs[c].post == post;
    }
  }

  lemma SoftDeleteKeepsBase(db: C.Db, drift: map<Id, nat>, post: Id, q: C.Post, gone: set<Id>, drift': map<Id, nat>)
    requires Base(db, drift) && post in db.posts && OnPost(db.comments, gone, post) && q.count >= 0
    requires q.live ==> db.posts[post].live && q.count + Drift(drift', post) == |C.LiveOn(db.comments, post) - gone|
    requires !q.live ==> C.LiveOn(db.comments, post) <= gone
    requires forall p | p != post :: Drift(drift', p) == Drift(drift, p)
    ensures Base(WithPost(db, post, q, gone), drift')
  {
    var db' := WithPost(db, post, q, gone);
    forall p | C.LivePost(db', p) ensures db'.posts[p].count + Drift(drift', p) == |C.LiveOn(db'.comments, p)| {
      SoftDeleteKeepsLive(db.comments, gone, post, p);
      assert p != post ==> C.LivePost(db, p);
    }
    forall c | c in db'.comments && db'.comments[c].live ensures db'.posts[db'.comments[c].post].live {
      if db.comments[c].post == post {
        assert c in C.LiveOn(db.comments, post) && c !in gone;
      }
    }
  }

  /** A thread taken off the counter row by row, again or not: live comments fall by the rows that were still live. */
  lemma ThreadComesOff(cs: C.Rows, thread: set<Id>, post: Id)
    requires OnPost(cs, thread, post)
    ensures |C.LiveOn(cs, post) - thread| == |C.LiveOn(cs, post)| - |thread| + |Dead(cs, thread)|
  {
    var live := thread - Dead(cs, thread);
    C.SetMinus(thread, Dead(cs, thread));
    forall c | c in live ensures c in C.LiveOn(cs, post) {
      assert c in thread && c !in Dead(cs, thread);
      assert c in cs && cs[c].post == post;
    }
    C.SetMinus(C.LiveOn(cs, post), live);
    forall c | c in C.LiveOn(cs, post) ensures c !in Dead(cs, thread) {
    }
    assert C.LiveOn(cs, post) - thread == C.LiveOn(cs, post) - live;
  }

  lemma CommitKeepsBase(s: Sys, i: nat)
    requires Inv(s) && Commit(s, i) != s
    ensures Base(Commit(s, i).db, Commit(s, i).drift)
  {
    var t := s.txns[i];
    assert ViewOk(s.db, t);
    match t.work
    case CreateWork(id, post, author, parent) =>
      CreateKeepsBase(s.db, s.drift, id, C.Comment(post, author, parent, true, s.db.clock));
    case DropWork(post) =>
      SoftDeleteKeepsBase(s.db, s.drift, post, t.phase.seen.(live := false), t.phase.marked, s.drift);
    case DeleteWork(_, post) => ThreadKeepsBase(s.db, s.drift, post, t.phase.thread);
  }

  lemma ThreadKeepsBase(db: C.Db, drift: map<Id, nat>, post: Id, thread: set<Id>)
    requires Base(db, drift) && post in db.posts && OnPost(db.comments, thread, post)
    requires db.posts[post].count >= |thread|
    ensures var q := db.posts[post];
      Base(WithPost(db, post, q.(count := q.count - |thread|), thread),
           drift[post := Drift(drift, post) + |Dead(db.comments, thread)|])
  {
    var q := db.posts[post];
    ThreadComesOff(db.comments, thread, post);
    if !q.live {
      DeadPostHasNone(db, drift, post);
    }
    SoftDeleteKeepsBase(db, drift, post, q.(count := q.count - |thread|), thread,
      drift[post := Drift(drift, post) + |Dead(db.comments, thread)|]);
  }

  lemma DeadPostHasNone(db: C.Db, drift: map<Id, nat>, p: Id)
    requires Base(db, drift) && !C.LivePost(db, p)
    ensures C.LiveOn(db.comments, p) == {}
  {
    assert forall c :: c !in C.LiveOn(db.comments, p);
  }

  lemma ViewAfterSoftDelete(db: C.Db, u: Txn, post: Id, q: C.Post, gone: set<Id>)
    requires ViewOk(db, u) && OnPost(db.comments, gone, post) && !HasPost(u, post) && Held(u) !! gone
    ensures ViewOk(WithPost(db, post, q, gone), u)
  {
    SoftDeleteKeepsLive(db.comments, gone, post, u.work.post);
    if u.phase.Marked? || u.phase.Counted? {
      assert Dead(C.SoftDelete(db.comments, gone), u.phase.thread) == Dead(db.comments, u.phase.thread);
    }
  }

  lemma ViewAfterCreate(db: C.Db, u: Txn, id: Id, row: C.Comment, q: C.Post)
    requires ViewOk(db, u) && id !in db.comments && !HasPost(u, row.post) && !Inserting(u, id) && row.live
    ensures ViewOk(db.(posts := db.posts[row.post := q], comments := db.comments[id := row], clock := db.clock + 1), u)
  {
    C.LiveOnAfterInsert(db.comments, id, row, u.work.post);
    if u.phase.Marked? || u.phase.Counted? {
      assert Dead(db.comments[id := row], u.phase.thread) == Dead(db.comments, u.phase.thread);
    }
  }

  lemma CommitKeepsView(s: Sys, i: nat, j: nat)
    requires Inv(s) && Commit(s, i) != s && j < |s.txns| && j != i
    ensures ViewOk(Commit(s, i).db, s.txns[j])
  {
    var t, u := s.txns[i], s.txns[j];
    assert ViewOk(s.db, t) && ViewOk(s.db, u) && Apart(t, u);
    assert HasPost(t, t.work.post);
    match t.work
    case CreateWork(id, post, author, parent) =>
      assert Inserting(t, id);
      ViewAfterCreate(s.db, u, id, C.Comment(post, author, parent, true, s.db.clock),
        t.phase.seen.(count := t.phase.seen.count + 1));
    case DropWork(post) => ViewAfterSoftDelete(s.db, u, post, t.phase.seen.(live := false), t.phase.marked);
    case DeleteWork(_, post) =>
      ViewAfterSoftDelete(s.db, u, post, t.phase.seen.(count := t.phase.seen.count - |t.phase.thread|), t.phase.thread);
  }

  lemma EndedView(db: C.Db, t: Txn, db': C.Db)
    requires ViewOk(db, t)
    requires forall c | c in db.comments :: c in db'.comments && db'.comments[c].post == db.comments[c].post
    ensures ViewOk(db', t.(phase := Ended(true)))
  {
  }

  lemma CommitKeepsInv(s: Sys, i: nat)
    requires Inv(s)
    ensures Inv(Commit(s, i))
  {
    if Commit(s, i) != s {
      var s' := Commit(s, i);
      CommitKeepsBase(s, i);
      assert ViewOk(s.db, s.txns[i]);
      EndedView(s.db, s.txns[i], s'.db);
      forall j | 0 <= j < |s'.txns| ensures ViewOk(s'.db, s'.txns[j]) {
        if j != i {
          CommitKeepsView(s, i, j);
        }
      }
      assert AllApart(s'.txns) by {
        EndKeepsInv(s, i, true);
      }
    }
  }

  lemma BeginKeepsInv(s: Sys, work: Work)
    requires Inv(s)
    ensures Inv(Begin(s, work))
  {
  }

  lemma StepKeepsInv(s: Sys, a: Action)
    requires Inv(s)
    ensures Inv(Step(s, a))
  {
    match a
    case Beginning(work) =>
      assert Step(s, a) == Begin(s, work);
      BeginKeepsInv(s, work);
    case LockingPost(i) =>
      assert Step(s, a) == LockPost(s, i);
      LockPostKeepsInv(s, i);
    case Writing(i) =>
      assert Step(s, a) == Write(s, i);
      WriteKeepsInv(s, i);
    case Searching(i) =>
      assert Step(s, a) == Find(s, i);
      FindKeepsInv(s, i);
    case Marking(i) =>
      assert Step(s, a) == Mark(s, i);
      MarkKeepsInv(s, i);
    case CountingDown(i) =>
      assert Step(s, a) == CountDown(s, i);
      CountDownKeepsInv(s, i);
    case Committing(i) =>
      assert Step(s, a) == Commit(s, i);
      CommitKeepsInv(s, i);
    case Aborting(i) =>
      assert Step(s, a) == Abort(s, i);
      if Abort(s, i) != s {
        EndKeepsInv(s, i, false);
      }
  }

  // ---- What holds over every run ----

  /** However creates, post deletes and comment deletes interleave, no live comment is on a deleted post, no counter is
      negative, and the counter of a live post is short of its live comments by exactly the rows that committed deletes
      marked a second time: it is exact if and only if there were none. */
  lemma CounterShortByDrift(db0: C.Db, actions: seq<Action>)
    requires C.Inv(db0)
    ensures var s := Run(Step, Sys(db0, map[], []), actions);
      && (forall c | c in s.db.comments && s.db.comments[c].live :: C.LivePost(s.db, s.db.comments[c].post))
      && (forall p | p in s.db.posts :: s.db.posts[p].count >= 0)
      && (forall p | C.LivePost(s.db, p) :: s.db.posts[p].count == |C.LiveOn(s.db.comments, p)| - Drift(s.drift, p))
      && (forall p | C.LivePost(s.db, p) ::
        s.db.posts[p].count == |C.LiveOn(s.db.comments, p)| <==> Drift(s.drift, p) == 0)
  {
    var s0 := Sys(db0, map[], []);
    assert Inv(s0);
    forall s: Sys, a: Action | Inv(s) ensures Inv(Step(s, a)) {
      StepKeepsInv(s, a);
    }
    RunKeeps(Step, Inv, s0, actions);
  }

  /** What a commit adds to the drift: nothing unless a comment delete got its rows after another had removed some. */
  lemma DriftGrowsByOverlap(s: Sys, i: nat, p: Id)
    requires Inv(s)
    ensures Drift(Commit(s, i).drift, p) == Drift(s.drift, p)
      + if i < |s.txns| && s.txns[i].phase.Counted? && s.txns[i].work.post == p
        then |Dead(s.db.comments, s.txns[i].phase.thread)| else 0
  {
    if i < |s.txns| {
      assert ViewOk(s.db, s.txns[i]);
    }
  }

  // ---- Replies under deleted comments ----

  /** What a commit must not do if no live reply is to be left under a deleted comment. */
  ghost predicate StrandsNothing(cs: C.Rows, t: Txn) {
    match t.work
    case CreateWork(_, _, _, parent) => parent.Some? && parent.value in cs ==> cs[parent.value].live
    case DropWork(_) => true
    case DeleteWork(_, _) => NoReplyOutside(cs, Held(t))
  }

  ghost predicate NoReplyOutside(cs: C.Rows, thread: set<Id>) {
    forall c | c in cs && cs[c].live && cs[c].parent.Some? && cs[c].parent.value in thread :: c in thread
  }

  /** A comment delete strands a reply exactly when a live comment outside the thread it found has its parent inside:
      one committed since. A create strands its own exactly under a deleted parent, a post delete never. */
  lemma CommitKeepsNoOrphansIff(s: Sys, i: nat)
    requires Inv(s) && Commit(s, i) != s && C.NoOrphans(s.db.comments)
    ensures C.NoOrphans(Commit(s, i).db.comments) <==> StrandsNothing(s.db.comments, s.txns[i])
  {
    var t := s.txns[i];
    assert ViewOk(s.db, t);
    match t.work
    case CreateWork(id, post, author, parent) =>
      CreateStrandsIff(s.db.comments, id, C.Comment(post, author, parent, true, s.db.clock));
    case DropWork(post) =>
      DropStrandsNone(s.db.comments, post);
      SoftDeleteStrandsIff(s.db.comments, Held(t));
    case DeleteWork(_, _) => SoftDeleteStrandsIff(s.db.comments, Held(t));
  }

  lemma CreateStrandsIff(cs: C.Rows, id: Id, row: C.Comment)
    requires C.ParentsFirst(cs) && C.NoOrphans(cs) && id !in cs && row.live
    requires row.parent.Some? ==> row.parent.value in cs
    ensures C.NoOrphans(cs[id := row]) <==> (row.parent.Some? ==> cs[row.parent.value].live)
  {
    var after := cs[id := row];
    assert after[id] == row;
    if row.parent.Some? {
      assert after[row.parent.value] == cs[row.parent.value];
    }
    forall c | c in cs && cs[c].live && cs[c].parent.Some? ensures after[cs[c].parent.value].live {
      var p := cs[c].parent.value;
      assert p in cs && after[p] == cs[p];
    }
  }

  lemma DropStrandsNone(cs: C.Rows, post: Id)
    requires C.ParentsFirst(cs)
    ensures NoReplyOutside(cs, C.LiveOn(cs, post))
  {
    var gone := C.LiveOn(cs, post);
    forall c | c in cs && cs[c].live && cs[c].parent.Some? && cs[c].parent.value in gone ensures c in gone {
      var p := cs[c].parent.value;
      assert cs[p].post == cs[c].post;
    }
  }

  lemma SoftDeleteStrandsIff(cs: C.Rows, gone: set<Id>)
    requires C.ParentsFirst(cs) && C.NoOrphans(cs)
    ensures C.NoOrphans(C.SoftDelete(cs, gone)) <==> NoReplyOutside(cs, gone)
  {
    var after := C.SoftDelete(cs, gone);
    if C.NoOrphans(after) {
      forall c | c in cs && cs[c].live && cs[c].parent.Some? && cs[c].parent.value in gone ensures c in gone {
        var p := cs[c].parent.value;
        assert p in cs && after[c].parent == cs[c].parent;
      }
    }
    if NoReplyOutside(cs, gone) {
      forall c | c in after && after[c].live && after[c].parent.Some? ensures after[after[c].parent.value].live {
        var p := cs[c].parent.value;
        assert p in cs && cs[p].live && c !in gone;
      }
    }
  }

  lemma StrandedStates(s: Sys, id: Id, post: Id, reply: Id, author: Id) returns (t: Sys)
    requires Inv(s) && s.txns == [] && id in s.db.comments && s.db.comments[id].live && s.db.comments[id].post == post
    requires reply !in s.db.comments && author in s.db.users && s.db.posts[post].count >= |C.Thread(s.db.comments, id)|
    ensures t == Through(Replied(s, id, post, reply, author), 0)
    ensures |t.txns| == 2 && t.txns[0].phase == t.txns[1].phase == Ended(true)
    ensures Inv(t) && reply in t.db.comments && t.db.comments[reply].live && t.db.comments[reply].parent == C.Some(id)
    ensures id in t.db.comments && !t.db.comments[id].live
  {
    C.ThreadOnOnePost(s.db.comments, id);
    var replied := ReplyInBetween(s, id, post, reply, author);
    t := GoesThrough(replied, 0);
  }

  lemma RunCreated(s: Sys, i: nat)
    ensures Run(Step, s, Replying(i)) == Created(s, i)
  {
    RunOfThree(s, LockingPost(i), Writing(i), Committing(i));
  }

  function Opening(id: Id, post: Id, u: Work): seq<Action> {
    [Beginning(DeleteWork(id, post)), Searching(0), Beginning(u)]
  }

  lemma RunOpening(s: Sys, id: Id, post: Id, u: Work)
    ensures Run(Step, s, Opening(id, post, u)) == Begin(Find(Begin(s, DeleteWork(id, post)), 0), u)
  {
    RunOfThree(s, Beginning(DeleteWork(id, post)), Searching(0), Beginning(u));
  }

  lemma RunStranding(s: Sys, id: Id, post: Id, reply: Id, author: Id)
    ensures Run(Step, s, Stranding(id, post, reply, author)) == Through(Replied(s, id, post, reply, author), 0)
  {
    var u := CreateWork(reply, post, author, C.Some(id));
    RunOpening(s, id, post, u);
    RunAppend(Step, s, Opening(id, post, u), Replying(1));
    RunCreated(Run(Step, s, Opening(id, post, u)), 1);
    RunAppend(Step, s, Opening(id, post, u) + Replying(1), Finishing(0));
    RunThrough(Replied(s, id, post, reply, author), 0);
  }

  /** Whenever a comment can be replied to, its delete can strand the reply: the reply commits between the delete's
      snapshot and its commit, and both calls succeed. */
  lemma StrandedReplyArises(s: Sys, id: Id, post: Id, reply: Id, author: Id) returns (t: Sys)
    requires Inv(s) && s.txns == [] && id in s.db.comments && s.db.comments[id].live && s.db.comments[id].post == post
    requires reply !in s.db.comments && author in s.db.users && s.db.posts[post].count >= |C.Thread(s.db.comments, id)|
    ensures t == Run(Step, s, Stranding(id, post, reply, author))
    ensures |t.txns| == 2 && t.txns[0].phase == t.txns[1].phase == Ended(true)
    ensures Inv(t) && reply in t.db.comments && t.db.comments[reply].live && t.db.comments[reply].parent == C.Some(id)
    ensures id in t.db.comments && !t.db.comments[id].live
  {
    t := StrandedStates(s, id, post, reply, author);
    RunStranding(s, id, post, reply, author);
  }

  function Replying(i: nat): seq<Action> {
    [LockingPost(i), Writing(i), Committing(i)]
  }

  function Finishing(i: nat): seq<Action> {
    [Marking(i), CountingDown(i), Committing(i)]
  }

  /** The delete takes its snapshot, a create under the comment runs from start to end, the delete goes on. */
  function Stranding(id: Id, post: Id, reply: Id, author: Id): seq<Action> {
    Opening(id, post, CreateWork(reply, post, author, C.Some(id))) + Replying(1) + Finishing(0)
  }

  /** The state when the delete has its snapshot and the reply is committed. */
  ghost function Replied(s: Sys, id: Id, post: Id, reply: Id, author: Id): Sys {
    Created(Begin(Find(Begin(s, DeleteWork(id, post)), 0), CreateWork(reply, post, author, C.Some(id))), 1)
  }

  function Created(s: Sys, i: nat): Sys {
    Commit(Write(LockPost(s, i), i), i)
  }

  lemma ReplyInBetween(s: Sys, id: Id, post: Id, reply: Id, author: Id) returns (t: Sys)
    requires Inv(s) && s.txns == [] && id in s.db.comments && s.db.comments[id].live && s.db.comments[id].post == post
    requires reply !in s.db.comments && author in s.db.users && C.Thread(s.db.comments, id) != {}
    ensures t == Replied(s, id, post, reply, author) && Inv(t)
    ensures t.txns == [Txn(DeleteWork(id, post), Finding(C.Thread(s.db.comments, id))),
                       Txn(CreateWork(reply, post, author, C.Some(id)), Ended(true))]
    ensures post in t.db.posts && t.db.posts[post].count == s.db.posts[post].count + 1
    ensures t.db.comments == s.db.comments[reply := C.Comment(post, author, C.Some(id), true, s.db.clock)]
  {
    var w, u := DeleteWork(id, post), CreateWork(reply, post, author, C.Some(id));
    var s1 := Begin(s, w);
    StepKeepsInv(s, Beginning(w));
    var s2 := Find(s1, 0);
    FindKeepsInv(s1, 0);
    t := Replies(s2, u);
  }

  /** A create with nobody else in the way of its locks. */
  lemma Replies(s: Sys, u: Work) returns (t: Sys)
    requires Inv(s) && |s.txns| == 1 && s.txns[0].phase.Finding? && u.CreateWork? && C.LivePost(s.db, u.post)
    requires C.InsertOutcome(s.db, u.id, u.post, u.author, u.parent).Done?
    ensures t == Created(Begin(s, u), 1) && Inv(t)
    ensures t.txns == [s.txns[0], Txn(u, Ended(true))]
    ensures var q := s.db.posts[u.post];
      t.db.posts == s.db.posts[u.post := q.(count := q.count + 1)]
      && t.db.comments == s.db.comments[u.id := C.Comment(u.post, u.author, u.parent, true, s.db.clock)]
  {
    var s1 := Begin(s, u);
    StepKeepsInv(s, Beginning(u));
    t := Created(s1, 1);
    CreatedKeepsInv(s1, 1);
    assert s1.txns == [s.txns[0], Txn(u, Waiting)];
  }

  lemma CreatedKeepsInv(s: Sys, i: nat)
    requires Inv(s)
    ensures Inv(Created(s, i))
  {
    LockPostKeepsInv(s, i);
    WriteKeepsInv(LockPost(s, i), i);
    CommitKeepsInv(Write(LockPost(s, i), i), i);
  }

  // ---- Two deletes of one comment ----

  lemma BothFind(s: Sys, id: Id, post: Id) returns (t: Sys)
    requires Inv(s) && s.txns == [] && id in s.db.comments && s.db.comments[id].live && s.db.comments[id].post == post
    ensures t == Run(Step, s, TwoSearches(id, post))
    ensures var thread := C.Thread(s.db.comments, id);
      t == s.(txns := [Txn(DeleteWork(id, post), Finding(thread)), Txn(DeleteWork(id, post), Finding(thread))])
    ensures Inv(t)
  {
    var w := DeleteWork(id, post);
    C.ThreadOnOnePost(s.db.comments, id);
    var s1 := Begin(s, w);
    var s2 := Begin(s1, w);
    var s3 := Find(s2, 0);
    t := Find(s3, 1);
    RunOfFour(s, Beginning(w), Beginning(w), Searching(0), Searching(1));
    StepKeepsInv(s, Beginning(w));
    StepKeepsInv(s1, Beginning(w));
    FindKeepsInv(s2, 0);
    FindKeepsInv(s3, 1);
  }

  function TwoSearches(id: Id, post: Id): seq<Action> {
    [Beginning(DeleteWork(id, post)), Beginning(DeleteWork(id, post)), Searching(0), Searching(1)]
  }

  function Overlapping(id: Id, post: Id): seq<Action> {
    TwoSearches(id, post) + Finishing(0) + Finishing(1)
  }

  lemma RunOfThree(s: Sys, a: Action, b: Action, c: Action)
    ensures Run(Step, s, [a, b, c]) == Step(Step(Step(s, a), b), c)
  {
    var s1 := Step(s, a);
    var s2 := Step(s1, b);
    assert [a, b, c][1..] == [b, c] && [b, c][1..] == [c] && [c][1..] == [];
    assert Run(Step, s, [a, b, c]) == Run(Step, s1, [b, c]) == Run(Step, s2, [c]) == Run(Step, Step(s2, c), []);
  }

  lemma RunOfFour(s: Sys, a: Action, b: Action, c: Action, d: Action)
    ensures Run(Step, s, [a, b, c, d]) == Step(Step(Step(Step(s, a), b), c), d)
  {
    var s1 := Step(s, a);
    var s2 := Step(s1, b);
    var s3 := Step(s2, c);
    assert [a, b, c, d][1..] == [b, c, d] && [b, c, d][1..] == [c, d] && [c, d][1..] == [d] && [d][1..] == [];
    assert Run(Step, s, [a, b, c, d]) == Run(Step, s1, [b, c, d]) == Run(Step, s2, [c, d]) == Run(Step, s3, [d])
      == Run(Step, Step(s3, d), []);
  }

  ghost function Through(s: Sys, i: nat): Sys {
    Commit(CountDown(Mark(s, i), i), i)
  }

  lemma RunThrough(s: Sys, i: nat)
    ensures Run(Step, s, Finishing(i)) == Through(s, i)
  {
    RunOfThree(s, Marking(i), CountingDown(i), Committing(i));
  }

  /** A found thread is marked, counted and committed with nobody in between. */
  lemma GoesThrough(s: Sys, i: nat) returns (t: Sys)
    requires Inv(s) && i < |s.txns| && s.txns[i].phase.Finding? && s.txns[i].work.post in s.db.posts
    requires forall j | 0 <= j < |s.txns| :: s.txns[j].phase.Finding? || s.txns[j].phase.Ended?
    requires s.db.posts[s.txns[i].work.post].count >= |s.txns[i].phase.thread|
    ensures t == Through(s, i) && Inv(t)
    ensures var post, thread := s.txns[i].work.post, s.txns[i].phase.thread;
      && t.db == WithPost(s.db, post, s.db.posts[post].(count := s.db.posts[post].count - |thread|), thread)
      && Drift(t.drift, post) == Drift(s.drift, post) + |Dead(s.db.comments, thread)|
      && t.txns == s.txns[i := s.txns[i].(phase := Ended(true))]
  {
    MarkKeepsInv(s, i);
    CountDownKeepsInv(Mark(s, i), i);
    t := Commit(CountDown(Mark(s, i), i), i);
    CommitKeepsInv(CountDown(Mark(s, i), i), i);
  }

  lemma OverlapStates(s: Sys, id: Id, post: Id) returns (found: Sys, t: Sys)
    requires Inv(s) && s.txns == [] && id in s.db.comments && s.db.comments[id].live && s.db.comments[id].post == post
    requires s.db.posts[post].count >= 2 * |C.Thread(s.db.comments, id)|
    ensures found == Run(Step, s, TwoSearches(id, post)) && t == Through(Through(found, 0), 1)
    ensures Inv(t) && |t.txns| == 2 && t.txns[0].phase == t.txns[1].phase == Ended(true)
    ensures C.LivePost(t.db, post) && Drift(t.drift, post) > 0
  {
    var thread := C.Thread(s.db.comments, id);
    C.ThreadOnOnePost(s.db.comments, id);
    assert thread != {};
    found := BothFind(s, id, post);
    var once := GoesThrough(found, 0);
    t := GoesThrough(once, 1);
    assert Dead(once.db.comments, thread) == thread;
  }

  lemma RunOverlapping(s: Sys, id: Id, post: Id)
    ensures Run(Step, s, Overlapping(id, post)) == Through(Through(Run(Step, s, TwoSearches(id, post)), 0), 1)
  {
    var found := Run(Step, s, TwoSearches(id, post));
    RunAppend(Step, s, TwoSearches(id, post), Finishing(0));
    RunThrough(found, 0);
    RunAppend(Step, s, TwoSearches(id, post) + Finishing(0), Finishing(1));
    RunThrough(Through(found, 0), 1);
  }

  /** Both find the thread before either marks it: both succeed, and a live post's counter is short by the whole
      thread. */
  lemma OverlapUndercounts(s: Sys, id: Id, post: Id) returns (t: Sys)
    requires Inv(s) && s.txns == [] && id in s.db.comments && s.db.comments[id].live && s.db.comments[id].post == post
    requires s.db.posts[post].count >= 2 * |C.Thread(s.db.comments, id)|
    ensures t == Run(Step, s, Overlapping(id, post))
    ensures Inv(t) && |t.txns| == 2 && t.txns[0].phase == t.txns[1].phase == Ended(true)
    ensures C.LivePost(t.db, post) && t.db.posts[post].count < |C.LiveOn(t.db.comments, post)|
  {
    var found: Sys;
    found, t := OverlapStates(s, id, post);
    RunOverlapping(s, id, post);
  }

  // ---- A database on which both happen ----

  /** One post with two top-level comments. */
  const SMALL: C.Db := C.Db({5}, map[0 := C.Post(true, 2)],
    map[1 := C.Comment(0, 5, C.None, true, 0), 2 := C.Comment(0, 5, C.None, true, 1)], 2)

  lemma SmallIsSound()
    ensures C.Inv(SMALL) && Inv(Sys(SMALL, map[], [])) && C.ParentsFirst(SMALL.comments)
    ensures C.Thread(SMALL.comments, 1) == {1}
  {
    var cs := SMALL.comments;
    assert C.LiveOn(cs, 0) == {1, 2};
    C.ThreadOnOnePost(cs, 1);
    forall c | c in C.Thread(cs, 1) ensures c == 1 {
      assert c in cs && cs[c].parent.None?;
    }
    assert C.Thread(cs, 1) == {1};
  }

  lemma SmallUndercounts()
    ensures var t := Run(Step, Sys(SMALL, map[], []), Overlapping(1, 0));
      C.LivePost(t.db, 0) && t.db.posts[0].count < |C.LiveOn(t.db.comments, 0)|
  {
    SmallIsSound();
    var t := OverlapUndercounts(Sys(SMALL, map[], []), 1, 0);
  }

  lemma SmallStrandsReply()
    ensures var t := Run(Step, Sys(SMALL, map[], []), Stranding(1, 0, 3, 5));
      && |t.txns| == 2 && t.txns[0].phase == t.txns[1].phase == Ended(true)
      && !C.NoOrphans(t.db.comments)
  {
    SmallIsSound();
    var t := StrandedReplyArises(Sys(SMALL, map[], []), 1, 0, 3, 5);
    assert t.db.comments[3].live && t.db.comments[3].parent == C.Some(1);
  }
}
