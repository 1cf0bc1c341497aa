/** Posts, threaded comments and the denormalised comment_count: internal/comment/repository.go,
    the cascading delete of internal/post/repository.go and the constraints of migrations/0001_init.up.sql. */
module Comments {
  import opened Runs

  type Id = int

  datatype Option<T> = None | Some(value: T)

  datatype Post = Post(live: bool, count: int)

  /** born numbers the inserts: a parent row exists before its replies because the foreign key requires it. */
  datatype Comment = Comment(post: Id, author: Id, parent: Option<Id>, live: bool, born: nat)

  type Rows = map<Id, Comment>

  datatype Db = Db(users: set<Id>, posts: map<Id, Post>, comments: Rows, clock: nat)

  datatype Outcome = Done(rows: nat) | PostNotFound | CommentNotFound | ParentInvalid | AccountGone | Internal

  // ---- Create ----

  predicate LivePost(db: Db, post: Id) {
    post in db.posts && db.posts[post].live
  }

  /** What the INSERT runs into: the CHECK, the primary key, then the foreign keys in declaration order. */
  function InsertOutcome(db: Db, id: Id, post: Id, author: Id, parent: Option<Id>): Outcome {
    if parent == Some(id) || id in db.comments then Internal
    else if author !in db.users then AccountGone
    else if parent.Some? && (parent.value !in db.comments || db.comments[parent.value].post != post) then ParentInvalid
    else Done(1)
  }

  function CreateOutcome(db: Db, id: Id, post: Id, author: Id, parent: Option<Id>): Outcome {
    if !LivePost(db, post) then PostNotFound else InsertOutcome(db, id, post, author, parent)
  }

  function Created(db: Db, id: Id, post: Id, author: Id, parent: Option<Id>): Db {
    if !CreateOutcome(db, id, post, author, parent).Done? then db
    else db.(posts := db.posts[post := db.posts[post].(count := db.posts[post].count + 1)],
             comments := db.comments[id := Comment(post, author, parent, true, db.clock)],
             clock := db.clock + 1)
  }

  // ---- Delete ----

  ghost predicate ParentsFirst(cs: Rows) {
    forall c | c in cs && cs[c].parent.Some? ::
      && cs[c].parent.value in cs
      && cs[cs[c].parent.value].born < cs[c].born
      && cs[cs[c].parent.value].post == cs[c].post
  }

  /** c is live and its chain of parents leads to root through live comments only. */
  ghost predicate Reaches(cs: Rows, c: Id, root: Id)
    requires ParentsFirst(cs) && c in cs
    decreases cs[c].born
  {
    cs[c].live && (c == root || (cs[c].parent.Some? && Reaches(cs, cs[c].parent.value, root)))
  }

  ghost function Thread(cs: Rows, root: Id): set<Id>
    requires ParentsFirst(cs)
  {
    set c | c in cs && Reaches(cs, c, root)
  }

  function SoftDelete(cs: Rows, gone: set<Id>): Rows {
    map c | c in cs :: if c in gone then cs[c].(live := false) else cs[c]
  }

  /** The counter UPDATE has no deleted_at guard; its CHECK refuses a negative count. */
  ghost function DeleteOutcome(db: Db, id: Id, post: Id): Outcome
    requires ParentsFirst(db.comments)
  {
    var removed := |Thread(db.comments, id)|;
    if removed == 0 then CommentNotFound
    else if post in db.posts && db.posts[post].count < removed then Internal
    else Done(removed)
  }

  ghost function Deleted(db: Db, id: Id, post: Id): Db
    requires ParentsFirst(db.comments)
  {
    match DeleteOutcome(db, id, post)
    case Done(removed) =>
      db.(comments := SoftDelete(db.comments, Thread(db.comments, id)),
          posts := if post in db.posts then db.posts[post := db.posts[post].(count := db.posts[post].count - removed)]
            else db.posts)
    case _ => db
  }

  // ---- Post delete ----

  function LiveOn(cs: Rows, post: Id): set<Id> {
    set c | c in cs && cs[c].live && cs[c].post == post
  }

  function PostDeleted(db: Db, post: Id): Db {
    if !LivePost(db, post) then db
    else db.(posts := db.posts[post := db.posts[post].(live := false)],
      comments := SoftDelete(db.comments, LiveOn(db.comments, post)))
  }

  // ---- The invariant ----

  ghost predicate Inv(db: Db) {
    && ParentsFirst(db.comments)
    && (forall c | c in db.comments :: db.comments[c].born < db.clock && db.comments[c].post in db.posts)
    && (forall c | c in db.comments :: db.comments[c].author in db.users)
    && (forall c | c in db.comments && db.comments[c].live :: db.posts[db.comments[c].post].live)
    && (forall p | p in db.posts :: db.posts[p].count >= 0)
    && (forall p | LivePost(db, p) :: db.posts[p].count == |LiveOn(db.comments, p)|)
  }

  lemma LiveOnAfterInsert(cs: Rows, id: Id, row: Comment, p: Id)
    requires id !in cs && row.live
    ensures LiveOn(cs[id := row], p) == if p == row.post then LiveOn(cs, p) + {id} else LiveOn(cs, p)
    ensures id !in LiveOn(cs, p)
  {
  }

  lemma InsertKeepsParentsFirst(cs: Rows, id: Id, row: Comment)
    requires ParentsFirst(cs) && id !in cs
    requires row.parent.Some? ==>
      row.parent.value in cs && cs[row.parent.value].born < row.born && cs[row.parent.value].post == row.post
    ensures ParentsFirst(cs[id := row])
  {
  }

  lemma BornBeforeClock(db: Db, c: Id)
    requires Inv(db) && c in db.comments
    ensures db.comments[c].born < db.clock
  {
  }

  lemma InsertKeepsRows(db: Db, row: Comment, id: Id)
    requires Inv(db) && id !in db.comments && row.born == db.clock && row.live && LivePost(db, row.post)
    requires row.parent.Some? ==> row.parent.value in db.comments && db.comments[row.parent.value].post == row.post
    ensures ParentsFirst(db.comments[id := row])
    ensures forall p :: LiveOn(db.comments[id := row], p) == if p == row.post then LiveOn(db.comments, p) + {id}
      else LiveOn(db.comments, p)
    ensures id !in LiveOn(db.comments, row.post)
  {
    if row.parent.Some? {
      BornBeforeClock(db, row.parent.value);
    }
    InsertKeepsParentsFirst(db.comments, id, row);
    forall p
      ensures LiveOn(db.comments[id := row], p) == if p == row.post then LiveOn(db.comments, p) + {id}
        else LiveOn(db.comments, p)
    {
      LiveOnAfterInsert(db.comments, id, row, p);
    }
  }

  /** For which input a create is refused, and with what. */
  lemma CreateRefusals(db: Db, id: Id, post: Id, author: Id, parent: Option<Id>)
    ensures CreateOutcome(db, id, post, author, parent) ==
      if post !in db.posts || !db.posts[post].live then PostNotFound
      else if id in db.comments || parent == Some(id) then Internal
      else if author !in db.users then AccountGone
      else match parent
        case None => Done(1)
        case Some(p) => if p in db.comments && db.comments[p].post == post then Done(1) else ParentInvalid
  {
  }

  /** What a create stores, and that nothing else moves. */
  lemma CreatedRow(db: Db, id: Id, post: Id, author: Id, parent: Option<Id>)
    requires CreateOutcome(db, id, post, author, parent).Done?
    ensures var t := Created(db, id, post, author, parent);
      && id in t.comments && t.comments - {id} == db.comments
      && t.comments[id].post == post && t.comments[id].author == author && t.comments[id].parent == parent
      && t.comments[id].live && t.users == db.users
      && t.posts.Keys == db.posts.Keys && t.posts - {post} == db.posts - {post}
      && t.posts[post].live && t.posts[post].count == db.posts[post].count + 1
  {
  }

  lemma CreateKeepsInv(db: Db, id: Id, post: Id, author: Id, parent: Option<Id>)
    requires Inv(db)
    ensures Inv(Created(db, id, post, author, parent))
  {
    if CreateOutcome(db, id, post, author, parent).Done? {
      var after := Created(db, id, post, author, parent);
      InsertKeepsRows(db, Comment(post, author, parent, true, db.clock), id);
      assert forall p | LivePost(after, p) :: LivePost(db, p);
    }
  }

  lemma DeadPostHasNone(db: Db, p: Id)
    requires Inv(db) && !LivePost(db, p)
    ensures LiveOn(db.comments, p) == {}
  {
    assert forall c :: c !in LiveOn(db.comments, p);
  }

  lemma {:induction false} ReachesFacts(cs: Rows, c: Id, root: Id)
    requires ParentsFirst(cs) && c in cs && Reaches(cs, c, root)
    ensures root in cs && cs[root].live && cs[c].post == cs[root].post
    ensures c != root ==> cs[root].born < cs[c].born
    decreases cs[c].born
  {
    if c != root {
      ReachesFacts(cs, cs[c].parent.value, root);
    }
  }

  /** The thread is a set of live comments of the root's own post, empty exactly when the root is not live. */
  lemma ThreadOnOnePost(cs: Rows, root: Id)
    requires ParentsFirst(cs)
    ensures root in cs && cs[root].live ==> root in Thread(cs, root) && Thread(cs, root) <= LiveOn(cs, cs[root].post)
    ensures !(root in cs && cs[root].live) ==> Thread(cs, root) == {}
  {
    forall c | c in Thread(cs, root) ensures root in cs && cs[root].live && c in LiveOn(cs, cs[root].post) {
      ReachesFacts(cs, c, root);
    }
  }

  /** A thread is its root and, with any comment in it, the live replies to that one; nothing else. */
  lemma ThreadIff(cs: Rows, root: Id, c: Id)
    requires ParentsFirst(cs)
    ensures c in Thread(cs, root) <==>
      c in cs && cs[c].live && (c == root || (cs[c].parent.Some? && cs[c].parent.value in Thread(cs, root)))
  {
  }

  lemma SetMinus<T>(s: set<T>, t: set<T>)
    requires t <= s
    ensures |s - t| == |s| - |t|
  {
    assert s == (s - t) + t;
  }

  /** Removing a thread takes its size off the counter of its post and touches no other post; the
      non-negative CHECK never fires. */
  lemma DeleteKeepsInv(db: Db, id: Id, post: Id)
    requires Inv(db)
    requires id in db.comments ==> db.comments[id].post == post
    ensures Inv(Deleted(db, id, post))
    ensures DeleteOutcome(db, id, post) != Internal
    ensures DeleteOutcome(db, id, post).Done? <==> id in db.comments && db.comments[id].live
    ensures DeleteOutcome(db, id, post) == CommentNotFound <==> !(id in db.comments && db.comments[id].live)
  {
    var gone := Thread(db.comments, id);
    ThreadOnOnePost(db.comments, id);
    if id in db.comments && db.comments[id].live {
      SetMinus(LiveOn(db.comments, post), gone);
      var after := Deleted(db, id, post);
      forall p | LivePost(after, p) ensures after.posts[p].count == |LiveOn(after.comments, p)| {
        assert LivePost(db, p);
        if p == post {
          assert LiveOn(after.comments, p) == LiveOn(db.comments, p) - gone;
        } else {
          assert LiveOn(after.comments, p) == LiveOn(db.comments, p);
        }
      }
    }
  }

  /** A delete that succeeds marks the comments of the thread and takes their number off the post it is given; nothing
      else in any row changes. */
  lemma DeletedRows(db: Db, id: Id, post: Id)
    requires ParentsFirst(db.comments) && DeleteOutcome(db, id, post).Done?
    ensures var t, thread := Deleted(db, id, post), Thread(db.comments, id);
      && t.users == db.users && t.clock == db.clock && t.comments.Keys == db.comments.Keys
      && (forall c | c in db.comments :: var r := db.comments[c];
            t.comments[c] == Comment(r.post, r.author, r.parent, r.live && c !in thread, r.born))
      && t.posts.Keys == db.posts.Keys && t.posts - {post} == db.posts - {post}
      && (post in db.posts ==> t.posts[post] == Post(db.posts[post].live, db.posts[post].count - |thread|))
  {
  }

  /** Deleting a post marks it and every comment on it, and leaves its counter. */
  lemma PostDeletedRows(db: Db, post: Id)
    requires LivePost(db, post)
    ensures var t := PostDeleted(db, post);
      && t.users == db.users && t.clock == db.clock && t.comments.Keys == db.comments.Keys
      && (forall c | c in db.comments :: var r := db.comments[c];
            t.comments[c] == Comment(r.post, r.author, r.parent, r.live && r.post != post, r.born))
      && t.posts == db.posts[post := Post(false, db.posts[post].count)]
  {
  }

  /** A delete that names another post than the comment's takes the thread off the wrong counter: right exactly when the
      CHECK or a missing comment stops it. */
  lemma DeleteKeepsInvIff(db: Db, id: Id, post: Id)
    requires Inv(db) && id in db.comments
    ensures Inv(Deleted(db, id, post)) <==> !DeleteOutcome(db, id, post).Done? || db.comments[id].post == post
  {
    var own, gone := db.comments[id].post, Thread(db.comments, id);
    if own == post {
      DeleteKeepsInv(db, id, post);
    } else if DeleteOutcome(db, id, post).Done? {
      ThreadOnOnePost(db.comments, id);
      SetMinus(LiveOn(db.comments, own), gone);
      var after := Deleted(db, id, post);
      assert LiveOn(after.comments, own) == LiveOn(db.comments, own) - gone;
      assert LivePost(after, own);
    }
  }

  lemma PostDeleteKeepsInv(db: Db, post: Id)
    requires Inv(db)
    ensures Inv(PostDeleted(db, post))
  {
    var after := PostDeleted(db, post);
    if LivePost(db, post) {
      forall p | LivePost(after, p) ensures after.posts[p].count == |LiveOn(after.comments, p)| {
        assert LivePost(db, p);
        assert LiveOn(after.comments, p) == LiveOn(db.comments, p);
      }
    }
  }

  // ---- Runs of the service's calls ----

  /** A comment delete is two calls: AuthorAndPostOf hands out the pair, Delete uses it some time later. */
  datatype Sys = Sys(db: Db, looked: set<(Id, Id)>)

  datatype Call =
    | AddUser(user: Id) | AddPost(post: Id)
    | Create(id: Id, post: Id, author: Id, parent: Option<Id>)
    | AuthorAndPostOf(id: Id)
    | Delete(id: Id, post: Id)
    | DeletePost(post: Id)

  ghost function Step(s: Sys, call: Call): Sys {
    match call
    case AddUser(user) => s.(db := s.db.(users := s.db.users + {user}))
    case AddPost(post) => if post in s.db.posts then s else s.(db := s.db.(posts := s.db.posts[post := Post(true, 0)]))
    case Create(id, post, author, parent) => s.(db := Created(s.db, id, post, author, parent))
    case AuthorAndPostOf(id) =>
      if id in s.db.comments && s.db.comments[id].live then s.(looked := s.looked + {(id, s.db.comments[id].post)})
        else s
    case Delete(id, post) =>
      if (id, post) in s.looked && ParentsFirst(s.db.comments) then s.(db := Deleted(s.db, id, post)) else s
    case DeletePost(post) => s.(db := PostDeleted(s.db, post))
  }

  ghost predicate SysInv(s: Sys) {
    Inv(s.db) && forall pair | pair in s.looked :: pair.0 in s.db.comments && s.db.comments[pair.0].post == pair.1
  }

  lemma CallKeepsInv(s: Sys, call: Call)
    requires SysInv(s)
    ensures SysInv(Step(s, call))
  {
    match call
    case AddUser(_) =>
    case AddPost(post) =>
      if post !in s.db.posts {
        DeadPostHasNone(s.db, post);
        var after := Step(s, call).db;
        assert forall p | LivePost(after, p) && p != post :: LivePost(s.db, p);
      }
    case Create(id, post, author, parent) => CreateKeepsInv(s.db, id, post, author, parent);
    case AuthorAndPostOf(_) =>
    case Delete(id, post) =>
      if (id, post) in s.looked {
        DeleteKeepsInv(s.db, id, post);
      }
    case DeletePost(post) => PostDeleteKeepsInv(s.db, post);
  }

  const EMPTY: Sys := Sys(Db({}, map[], map[], 0), {})

  /** Over every run: each live post's counter is its number of live comments, a deleted post has none, and
      no delete that is about to run can trip the non-negative CHECK. */
  lemma CounterExactOverRuns(calls: seq<Call>)
    ensures var s := Run(Step, EMPTY, calls);
      && SysInv(s)
      && (forall p | p in s.db.posts && s.db.posts[p].live :: s.db.posts[p].count == |LiveOn(s.db.comments, p)|)
      && (forall p | p in s.db.posts && !s.db.posts[p].live :: LiveOn(s.db.comments, p) == {})
      && (forall pair | pair in s.looked :: DeleteOutcome(s.db, pair.0, pair.1) != Internal)
  {
    var s := Run(Step, EMPTY, calls);
    forall s: Sys, call: Call | SysInv(s) ensures SysInv(Step(s, call)) {
      CallKeepsInv(s, call);
    }
    RunKeeps(Step, SysInv, EMPTY, calls);
    forall p | p in s.db.posts && s.db.posts[p].live ensures s.db.posts[p].count == |LiveOn(s.db.comments, p)| {
      assert LivePost(s.db, p);
    }
    forall p | p in s.db.posts && !s.db.posts[p].live ensures LiveOn(s.db.comments, p) == {} {
      DeadPostHasNone(s.db, p);
    }
    forall pair | pair in s.looked ensures DeleteOutcome(s.db, pair.0, pair.1) != Internal {
      DeleteKeepsInv(s.db, pair.0, pair.1);
    }
  }

  // ---- What one call undoes, and what a delete may leave behind ----

  /** Deleting a comment just created restores every counter and every other comment. */
  lemma DeleteUndoesCreate(db: Db, id: Id, post: Id, author: Id, parent: Option<Id>)
    requires Inv(db) && CreateOutcome(db, id, post, author, parent).Done?
    ensures ParentsFirst(Created(db, id, post, author, parent).comments)
    ensures DeleteOutcome(Created(db, id, post, author, parent), id, post) == Done(1)
    ensures Deleted(Created(db, id, post, author, parent), id, post).posts == db.posts
    ensures Deleted(Created(db, id, post, author, parent), id, post).comments - {id} == db.comments
  {
    CreateKeepsInv(db, id, post, author, parent);
    var after := Created(db, id, post, author, parent);
    assert Thread(after.comments, id) == {id} by {
      forall c | c in Thread(after.comments, id) ensures c == id {
        ReachesFacts(after.comments, c, id);
      }
    }
  }

  ghost predicate NoOrphans(cs: Rows) {
    forall c | c in cs && cs[c].live && cs[c].parent.Some? && cs[c].parent.value in cs :: cs[cs[c].parent.value].live
  }

  /** A thread delete and a post delete never strand a live reply under a deleted comment. */
  lemma DeletesKeepNoOrphans(db: Db, id: Id, post: Id)
    requires Inv(db) && NoOrphans(db.comments)
    ensures NoOrphans(Deleted(db, id, post).comments)
    ensures NoOrphans(PostDeleted(db, post).comments)
  {
  }

  /** A create strands its comment exactly when it replies to a comment already deleted: the foreign key does not
      look. */
  lemma CreateKeepsNoOrphansIff(db: Db, id: Id, post: Id, author: Id, parent: Option<Id>)
    requires Inv(db) && NoOrphans(db.comments) && CreateOutcome(db, id, post, author, parent).Done?
    ensures NoOrphans(Created(db, id, post, author, parent).comments)
      <==> parent.None? || db.comments[parent.value].live
  {
    var after := Created(db, id, post, author, parent).comments;
    assert after[id].live && after[id].parent == parent;
    if parent.Some? {
      assert after[parent.value] == db.comments[parent.value];
    }
  }

  // ---- The repository ----

  lemma {:induction false} ClosedHoldsThread(cs: Rows, thread: set<Id>, c: Id, root: Id)
    requires ParentsFirst(cs) && c in cs && Reaches(cs, c, root) && root in thread
    requires forall d | d in cs && cs[d].live && cs[d].parent.Some? && cs[d].parent.value in thread :: d in thread
    ensures c in thread
    decreases cs[c].born
  {
    if c != root {
      ClosedHoldsThread(cs, thread, cs[c].parent.value, root);
    }
  }

  class Repository {
    var users: set<Id>
    var posts: map<Id, Post>
    var comments: Rows
    var clock: nat

    ghost function Contents(): Db
      reads this
    {
      Db(users, posts, comments, clock)
    }

    constructor ()
      ensures Contents() == EMPTY.db
    {
      users, posts, comments, clock := {}, map[], map[], 0;
    }

    /** One transaction: the counter first, then the insert; a refused insert rolls the counter back. */
    method Create(id: Id, post: Id, author: Id, parent: Option<Id>) returns (outcome: Outcome)
      requires Inv(Contents())
      modifies this
      ensures outcome == CreateOutcome(old(Contents()), id, post, author, parent)
      ensures Contents() == Created(old(Contents()), id, post, author, parent)
      ensures Inv(Contents())
    {
      CreateKeepsInv(Contents(), id, post, author, parent);
      if post !in posts || !posts[post].live {
        return PostNotFound;
      }
      var savepoint := posts;
      posts := posts[post := posts[post].(count := posts[post].count + 1)];
      if parent == Some(id) || id in comments {
        outcome := Internal;
      } else if author !in users {
        outcome := AccountGone;
      } else if parent.Some? && (parent.value !in comments || comments[parent.value].post != post) {
        outcome := ParentInvalid;
      } else {
        comments := comments[id := Comment(post, author, parent, true, clock)];
        clock := clock + 1;
        return Done(1);
      }
      posts := savepoint;
    }

    /** The recursive CTE: each round joins the previous round's rows with their live replies. UNION ALL never
        removes duplicates, so it ends only because no comment is its own ancestor; rows counts what it emits. */
    method CollectThread(root: Id) returns (thread: set<Id>, rows: nat)
      requires ParentsFirst(comments)
      ensures thread == Thread(comments, root) && rows == |thread|
    {
      var working := if root in comments && comments[root].live then {root} else {};
      thread, rows := working, |working|;
      while working != {}
        invariant working <= thread <= Thread(comments, root) && rows == |thread|
        invariant thread != {} ==> root in thread
        invariant root in comments && comments[root].live ==> root in thread
        invariant forall c | c in comments && comments[c].live && comments[c].parent.Some?
                             && comments[c].parent.value in thread - working :: c in thread
        invariant forall c | c in thread && c != root ::
          comments[c].parent.Some? && comments[c].parent.value in thread - working
        decreases comments.Keys - (thread - working)
      {
        var replies := set c | c in comments && comments[c].live && comments[c].parent.Some?
          && comments[c].parent.value in working;
        RepliesAreNew(comments, root, thread, working, replies);
        thread, rows, working := thread + replies, rows + |replies|, replies;
      }
      forall c | c in Thread(comments, root) ensures c in thread {
        ReachesFacts(comments, c, root);
        ClosedHoldsThread(comments, thread, c, root);
      }
    }

    /** One transaction: the thread, then the counter of the post named; a refused counter rolls the thread back. */
    method Delete(id: Id, post: Id) returns (outcome: Outcome)
      requires ParentsFirst(comments)
      modifies this
      ensures outcome == DeleteOutcome(old(Contents()), id, post)
      ensures outcome == CommentNotFound <==> !(id in old(comments) && old(comments)[id].live)
      ensures Contents() == Deleted(old(Contents()), id, post)
      ensures Inv(old(Contents())) ==>
        (Inv(Contents()) <==> (outcome.Done? ==> id in old(comments) && old(comments)[id].post == post))
    {
      ghost var before := Contents();
      var thread, removed := CollectThread(id);
      ThreadOnOnePost(comments, id);
      if removed == 0 {
        return CommentNotFound;
      }
      if Inv(before) {
        DeleteKeepsInvIff(before, id, post);
      }
      var savepoint := comments;
      comments := map c | c in comments :: if c in thread then comments[c].(live := false) else comments[c];
      if post in posts {
        if posts[post].count < removed {
          comments := savepoint;
          return Internal;
        }
        posts := posts[post := posts[post].(count := posts[post].count - removed)];
      }
      return Done(removed);
    }

    method DeletePost(post: Id) returns (outcome: Outcome)
      requires Inv(Contents())
      modifies this
      ensures outcome == if LivePost(old(Contents()), post) then Done(1) else PostNotFound
      ensures Contents() == PostDeleted(old(Contents()), post)
      ensures Inv(Contents())
    {
      PostDeleteKeepsInv(Contents(), post);
      if post !in posts || !posts[post].live {
        return PostNotFound;
      }
      posts := posts[post := posts[post].(live := false)];
      comments := map c | c in comments ::
        if comments[c].live && comments[c].post == post then comments[c].(live := false) else comments[c];
      return Done(1);
    }
  }

  lemma RepliesAreNew(cs: Rows, root: Id, thread: set<Id>, working: set<Id>, replies: set<Id>)
    requires ParentsFirst(cs) && working <= thread <= Thread(cs, root)
    requires forall c | c in thread && c != root :: cs[c].parent.Some? && cs[c].parent.value in thread - working
    requires replies == set c | c in cs && cs[c].live && cs[c].parent.Some? && cs[c].parent.value in working
    ensures replies !! thread && replies <= Thread(cs, root)
    ensures |thread + replies| == |thread| + |replies|
  {
    forall c | c in replies ensures c !in thread && c in Thread(cs, root) {
      ReachesFacts(cs, cs[c].parent.value, root);
    }
  }
}
