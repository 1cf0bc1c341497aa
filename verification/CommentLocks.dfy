/** The same writes statement by statement, under READ COMMITTED with PostgreSQL row locks. A transaction's first
    statement updates the post row and so holds its lock until commit or rollback; what it writes stays
    invisible until then. Any number of transactions interleave, and any of them may be cut off at any point. */
module CommentLocks {
  import opened Runs
  import opened Tallies
  import C = Comments

  type Id = C.Id

  datatype Work =
    | CreateWork(id: Id, post: Id, author: Id, parent: C.Option<Id>)
    | DropWork(post: Id)
    | RemoveWork(id: Id, post: Id)  // a whole comment delete, taken as one step

  /** seen is the post row as the first statement found it; marked are the comments the second one will delete. */
  datatype Phase =
    | Waiting
    | Locked(seen: C.Post)
    | Written(seen: C.Post, marked: set<Id>)
    | Ended(outcome: C.Outcome)

  datatype Txn = Txn(work: Work, phase: Phase)

  datatype Sys = Sys(db: C.Db, txns: seq<Txn>, commits: seq<Work>, removals: multiset<Work>)

  predicate Holds(t: Txn, post: Id) {
    (t.phase.Locked? || t.phase.Written?) && t.work.post == post
  }

  predicate LockFree(s: Sys, post: Id) {
    forall j | 0 <= j < |s.txns| :: !Holds(s.txns[j], post)
  }

  /** An uncommitted row with the same primary key makes a second INSERT wait. */
  predicate IdPending(s: Sys, id: Id) {
    exists j | 0 <= j < |s.txns| :: s.txns[j].phase.Written? && s.txns[j].work.CreateWork? && s.txns[j].work.id == id
  }

  function Moved(s: Sys, i: nat, phase: Phase): Sys
    requires i < |s.txns|
  {
    s.(txns := s.txns[i := s.txns[i].(phase := phase)])
  }

  function Begin(s: Sys, work: Work): Sys {
    if work.RemoveWork? then s else s.(txns := s.txns + [Txn(work, Waiting)])
  }

  /** UPDATE posts ... WHERE id = $1 AND deleted_at IS NULL. Blocks while another transaction has the row;
      then the predicate is evaluated on the committed row. */
  function Lock(s: Sys, i: nat): Sys {
    if i >= |s.txns| || !s.txns[i].phase.Waiting? || !LockFree(s, s.txns[i].work.post) then s
    else
      var post := s.txns[i].work.post;
      Moved(s, i, if C.LivePost(s.db, post) then Locked(s.db.posts[post]) else Ended(C.PostNotFound))
  }

  /** The second statement: the INSERT with its constraints, or the UPDATE of the live comments it can see. */
  function Write(s: Sys, i: nat): Sys {
    if i >= |s.txns| || !s.txns[i].phase.Locked? then s
    else match s.txns[i].work
      case CreateWork(id, post, author, parent) =>
        if IdPending(s, id) then s
        else
          var outcome := C.InsertOutcome(s.db, id, post, author, parent);
          Moved(s, i, if outcome.Done? then Written(s.txns[i].phase.seen, {}) else Ended(outcome))
      case DropWork(post) => Moved(s, i, Written(s.txns[i].phase.seen, C.LiveOn(s.db.comments, post)))
      case RemoveWork(_, _) => s
  }

  /** What was written becomes visible and the lock goes. */
  function Commit(s: Sys, i: nat): Sys {
    if i >= |s.txns| || !s.txns[i].phase.Written? then s
    else
      var Txn(work, Written(seen, marked)) := s.txns[i];
      var t := Moved(s, i, Ended(C.Done(1))).(commits := s.commits + [work]);
      match work
      case CreateWork(id, post, author, parent) =>
        t.(db := s.db.(posts := s.db.posts[post := seen.(count := seen.count + 1)],
                       comments := s.db.comments[id := C.Comment(post, author, parent, true, s.db.clock)],
                       clock := s.db.clock + 1))
      case DropWork(post) =>
        t.(db := s.db.(posts := s.db.posts[post := seen.(live := false)],
          comments := C.SoftDelete(s.db.comments, marked)))
      case RemoveWork(_, _) => s
  }

  /** A cancelled request, a lost connection, a crash: everything uncommitted is discarded. */
  function Abort(s: Sys, i: nat): Sys {
    if i >= |s.txns| || s.txns[i].phase.Ended? then s else Moved(s, i, Ended(C.Internal))
  }

  ghost function Remove(s: Sys, id: Id): Sys {
    if id !in s.db.comments || !LockFree(s, s.db.comments[id].post) || !C.ParentsFirst(s.db.comments) then s
    else
      var post := s.db.comments[id].post;
      s.(db := C.Deleted(s.db, id, post), commits := s.commits + [RemoveWork(id, post)],
           removals := s.removals + multiset{RemoveWork(id, post)})
  }

  datatype Action =
    | Beginning(work: Work) | Locking(i: nat) | Writing(i: nat) | Committing(i: nat) | Aborting(i: nat)
    | Removing(id: Id)

  ghost function Step(s: Sys, a: Action): Sys {
    match a
    case Beginning(work) => Begin(s, work)
    case Locking(i) => Lock(s, i)
    case Writing(i) => Write(s, i)
    case Committing(i) => Commit(s, i)
    case Aborting(i) => Abort(s, i)
    case Removing(id) => Remove(s, id)
  }

  // ---- The serial semantics: whole calls, one after the other ----

  ghost function Apply(db: C.Db, work: Work): C.Db {
    match work
    case CreateWork(id, post, author, parent) => C.Created(db, id, post, author, parent)
    case DropWork(post) => C.PostDeleted(db, post)
    case RemoveWork(id, post) => if C.ParentsFirst(db.comments) then C.Deleted(db, id, post) else db
  }

  ghost function Serial(db: C.Db, works: seq<Work>): C.Db {
    Run(Apply, db, works)
  }

  // ---- What a lock holder may rely on ----

  ghost predicate ViewsCurrent(db: C.Db, t: Txn) {
    && !t.work.RemoveWork?
    && (t.phase.Locked? || t.phase.Written? ==>
          C.LivePost(db, t.work.post) && db.posts[t.work.post] == t.phase.seen)
    && (t.phase.Written? && t.work.CreateWork? ==>
          C.InsertOutcome(db, t.work.id, t.work.post, t.work.author, t.work.parent).Done?)
    && (t.phase.Written? && t.work.DropWork? ==> t.phase.marked == C.LiveOn(db.comments, t.work.post))
  }

  ghost predicate Exclusive(txns: seq<Txn>) {
    && (forall i, j | 0 <= i < j < |txns| && (txns[i].phase.Locked? || txns[i].phase.Written?) ::
      !Holds(txns[j], txns[i].work.post))
    && (forall i, j | 0 <= i < j < |txns| && txns[i].phase.Written? && txns[j].phase.Written?
          && txns[i].work.CreateWork? && txns[j].work.CreateWork? :: txns[i].work.id != txns[j].work.id)
  }

  function CommittedWork(t: Txn): multiset<Work> {
    if t.phase.Ended? && t.phase.outcome.Done? then multiset{t.work} else multiset{}
  }

  /** The commit log holds every committed transaction once, and nothing that was refused or cut off. */
  ghost predicate Logged(s: Sys) {
    multiset(s.commits) == Gather(s.txns, CommittedWork) + s.removals
  }

  ghost predicate Inv(db0: C.Db, s: Sys) {
    && C.Inv(s.db)
    && Exclusive(s.txns)
    && (forall i | 0 <= i < |s.txns| :: ViewsCurrent(s.db, s.txns[i]))
    && s.db == Serial(db0, s.commits)
  }

  lemma LockKeepsInv(db0: C.Db, s: Sys, i: nat)
    requires Inv(db0, s)
    ensures Inv(db0, Lock(s, i))
  {
  }

  lemma WriteKeepsInv(db0: C.Db, s: Sys, i: nat)
    requires Inv(db0, s)
    ensures Inv(db0, Write(s, i))
  {
    var t := Write(s, i);
    if i < |s.txns| && s.txns[i].phase.Locked? && s.txns[i].work.CreateWork? && !IdPending(s, s.txns[i].work.id) {
      assert forall j | 0 <= j < |s.txns| && j != i && s.txns[j].phase.Written? && s.txns[j].work.CreateWork? ::
        s.txns[j].work.id != s.txns[i].work.id;
    }
  }

  lemma SerialAppend(db0: C.Db, works: seq<Work>, work: Work)
    ensures Serial(db0, works + [work]) == Apply(Serial(db0, works), work)
  {
    RunAppend(Apply, db0, works, [work]);
    assert [work][1..] == [];
  }

  /** The commit publishes exactly what the whole call would have done to the committed state at that instant. */
  lemma CommitIsTheCall(s: Sys, i: nat)
    requires i < |s.txns| && s.txns[i].phase.Written? && ViewsCurrent(s.db, s.txns[i])
    ensures Commit(s, i).db == Apply(s.db, s.txns[i].work)
  {
  }

  /** A statement that refuses its transaction answers what the whole call would have answered at that instant. */
  lemma RefusalIsTheCall(db0: C.Db, s: Sys, i: nat, a: Action)
    requires Inv(db0, s) && i < |s.txns| && !s.txns[i].phase.Ended? && (a == Locking(i) || a == Writing(i))
    requires Step(s, a).txns[i].phase.Ended?
    ensures var w, outcome := s.txns[i].work, Step(s, a).txns[i].phase.outcome;
      && Step(s, a).db == s.db && !outcome.Done?
      && (w.CreateWork? ==> outcome == C.CreateOutcome(s.db, w.id, w.post, w.author, w.parent))
      && (w.DropWork? ==> outcome == C.PostNotFound && !C.LivePost(s.db, w.post))
  {
    assert ViewsCurrent(s.db, s.txns[i]);
  }

  /** Inserting a comment under one post leaves what the holders of other posts rely on. */
  lemma OthersKeepViewsOnCreate(db: C.Db, t: Txn, w: Work)
    requires w.CreateWork? && ViewsCurrent(db, t) && !Holds(t, w.post)
    requires C.CreateOutcome(db, w.id, w.post, w.author, w.parent).Done?
    requires t.phase.Written? && t.work.CreateWork? ==> t.work.id != w.id
    ensures ViewsCurrent(Apply(db, w), t)
  {
    if t.phase.Written? && t.work.DropWork? {
      var row := C.Comment(w.post, w.author, w.parent, true, db.clock);
      C.LiveOnAfterInsert(db.comments, w.id, row, t.work.post);
    }
  }

  lemma OthersKeepViewsOnSoftDelete(db: C.Db, t: Txn, post: Id, gone: set<Id>, now: C.Post)
    requires ViewsCurrent(db, t) && !Holds(t, post)
    requires gone <= C.LiveOn(db.comments, post)
    ensures ViewsCurrent(db.(posts := db.posts[post := now], comments := C.SoftDelete(db.comments, gone)), t)
  {
    if t.phase.Written? && t.work.DropWork? {
      assert C.LiveOn(C.SoftDelete(db.comments, gone), t.work.post) == C.LiveOn(db.comments, t.work.post);
    }
  }

  lemma CommitKeepsViews(db0: C.Db, s: Sys, i: nat, j: nat)
    requires Inv(db0, s) && i < |s.txns| && s.txns[i].phase.Written? && j < |s.txns|
    ensures ViewsCurrent(Commit(s, i).db, Commit(s, i).txns[j])
  {
    if j != i {
      var w := s.txns[i].work;
      assert !Holds(s.txns[j], w.post) by {
        if j < i && Holds(s.txns[j], w.post) {
          assert Holds(s.txns[i], s.txns[j].work.post);
        }
      }
      CommitIsTheCall(s, i);
      if w.CreateWork? {
        OthersKeepViewsOnCreate(s.db, s.txns[j], w);
      } else {
        OthersKeepViewsOnSoftDelete(s.db, s.txns[j], w.post, s.txns[i].phase.marked,
          s.txns[i].phase.seen.(live := false));
      }
    }
  }

  lemma CommitKeepsInv(db0: C.Db, s: Sys, i: nat)
    requires Inv(db0, s)
    ensures Inv(db0, Commit(s, i))
  {
    if i < |s.txns| && s.txns[i].phase.Written? {
      var w := s.txns[i].work;
      CommitIsTheCall(s, i);
      SerialAppend(db0, s.commits, w);
      if w.CreateWork? {
        C.CreateKeepsInv(s.db, w.id, w.post, w.author, w.parent);
      } else {
        C.PostDeleteKeepsInv(s.db, w.post);
      }
      forall j | 0 <= j < |s.txns| ensures ViewsCurrent(Commit(s, i).db, Commit(s, i).txns[j]) {
        CommitKeepsViews(db0, s, i, j);
      }
    }
  }

  lemma RemoveKeepsInv(db0: C.Db, s: Sys, id: Id)
    requires Inv(db0, s)
    ensures Inv(db0, Remove(s, id))
  {
    if id in s.db.comments && LockFree(s, s.db.comments[id].post) {
      var post := s.db.comments[id].post;
      C.DeleteKeepsInv(s.db, id, post);
      C.ThreadOnOnePost(s.db.comments, id);
      SerialAppend(db0, s.commits, RemoveWork(id, post));
      if s.db.comments[id].live {
        var after := C.Deleted(s.db, id, post);
        forall j | 0 <= j < |s.txns| ensures ViewsCurrent(after, s.txns[j]) {
          OthersKeepViewsOnSoftDelete(s.db, s.txns[j], post, C.Thread(s.db.comments, id), after.posts[post]);
        }
      }
    }
  }

  lemma MoveLogs(s: Sys, i: nat, phase: Phase)
    requires Logged(s) && i < |s.txns| && !s.txns[i].phase.Ended?
    ensures CommittedWork(Txn(s.txns[i].work, phase)) == multiset{} ==> Logged(Moved(s, i, phase))
    ensures phase == Ended(C.Done(1)) ==> Logged(Moved(s, i, phase).(commits := s.commits + [s.txns[i].work]))
  {
    GatherUpdate(s.txns, CommittedWork, i, s.txns[i].(phase := phase));
    assert multiset(s.commits + [s.txns[i].work]) == multiset(s.commits) + multiset{s.txns[i].work};
  }

  lemma LockKeepsLogged(s: Sys, i: nat)
    requires Logged(s)
    ensures Logged(Lock(s, i))
  {
    if Lock(s, i) != s {
      MoveLogs(s, i, Lock(s, i).txns[i].phase);
    }
  }

  lemma WriteKeepsLogged(s: Sys, i: nat)
    requires Logged(s)
    ensures Logged(Write(s, i))
  {
    if Write(s, i) != s {
      MoveLogs(s, i, Write(s, i).txns[i].phase);
    }
  }

  lemma CommitKeepsLogged(s: Sys, i: nat)
    requires Logged(s)
    ensures Logged(Commit(s, i))
  {
    if i < |s.txns| && s.txns[i].phase.Written? {
      MoveLogs(s, i, Ended(C.Done(1)));
    }
  }

  lemma AbortKeepsLogged(s: Sys, i: nat)
    requires Logged(s)
    ensures Logged(Abort(s, i))
  {
    if Abort(s, i) != s {
      MoveLogs(s, i, Ended(C.Internal));
    }
  }

  lemma RemoveKeepsLogged(s: Sys, id: Id)
    requires Logged(s)
    ensures Logged(Remove(s, id))
  {
    if Remove(s, id) != s {
      var w := RemoveWork(id, s.db.comments[id].post);
      assert multiset(s.commits + [w]) == multiset(s.commits) + multiset{w};
    }
  }

  lemma BeginKeepsLogged(s: Sys, work: Work)
    requires Logged(s)
    ensures Logged(Begin(s, work))
  {
    GatherAppend(s.txns, CommittedWork, Txn(work, Waiting));
  }

  lemma StepKeepsLogged(s: Sys, a: Action)
    requires Logged(s)
    ensures Logged(Step(s, a))
  {
    match a
    case Beginning(work) =>
      assert Step(s, a) == Begin(s, work);
      BeginKeepsLogged(s, work);
    case Locking(i) =>
      assert Step(s, a) == Lock(s, i);
      LockKeepsLogged(s, i);
    case Writing(i) =>
      assert Step(s, a) == Write(s, i);
      WriteKeepsLogged(s, i);
    case Committing(i) =>
      assert Step(s, a) == Commit(s, i);
      CommitKeepsLogged(s, i);
    case Aborting(i) =>
      assert Step(s, a) == Abort(s, i);
      AbortKeepsLogged(s, i);
    case Removing(id) =>
      assert Step(s, a) == Remove(s, id);
      RemoveKeepsLogged(s, id);
  }

  lemma StepKeepsInv(db0: C.Db, s: Sys, a: Action)
    requires Inv(db0, s)
    ensures Inv(db0, Step(s, a))
  {
    match a
    case Beginning(_) =>
    case Locking(i) => LockKeepsInv(db0, s, i);
    case Writing(i) => WriteKeepsInv(db0, s, i);
    case Committing(i) => CommitKeepsInv(db0, s, i);
    case Aborting(_) =>
    case Removing(id) => RemoveKeepsInv(db0, s, id);
  }

  /** Every interleaving leaves the committed state that the committed calls leave when made one after the other
      in commit order; so no committed state has a live comment on a deleted post, and every counter is exact. */
  lemma InterleavingsSerialise(db0: C.Db, actions: seq<Action>)
    requires C.Inv(db0)
    ensures var s := Run(Step, Sys(db0, [], [], multiset{}), actions);
      && s.db == Serial(db0, s.commits) && Logged(s)
      && (forall c | c in s.db.comments && s.db.comments[c].live :: C.LivePost(s.db, s.db.comments[c].post))
      && (forall p | C.LivePost(s.db, p) :: s.db.posts[p].count == |C.LiveOn(s.db.comments, p)|)
  {
    var inv := (s: Sys) => Inv(db0, s) && Logged(s);
    forall s: Sys, a: Action | inv(s) ensures inv(Step(s, a)) {
      StepKeepsInv(db0, s, a);
      StepKeepsLogged(s, a);
    }
    assert inv(Sys(db0, [], [], multiset{}));
    RunKeeps(Step, inv, Sys(db0, [], [], multiset{}), actions);
  }
}
