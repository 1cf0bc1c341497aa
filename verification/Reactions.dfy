/** Post reactions and the counters their row trigger maintains: post_reactions_maintain_counts in
    database-assessment/schema.sql, proved equal to what queries 6b and 6c of queries.sql count. */
module Reactions {
  import opened Runs

  type Id = int

  datatype Kind = Like | Love | Haha | Wow | Sad | Angry

  /** posts holds posts.reaction_count, tallies the post_reaction_counts table. */
  datatype Db = Db(posts: map<Id, int>, reactions: map<(Id, Id), Kind>, tallies: map<(Id, Kind), int>)

  function Total(db: Db, post: Id, kind: Kind): int {
    if (post, kind) in db.tallies then db.tallies[(post, kind)] else 0
  }

  /** UPDATE posts SET reaction_count = reaction_count + n WHERE id = post. */
  function CountPost(db: Db, post: Id, n: int): Db {
    if post in db.posts then db.(posts := db.posts[post := db.posts[post] + n]) else db
  }

  /** INSERT ... ON CONFLICT (post_id, kind) DO UPDATE SET total = total + 1. */
  function Raise(db: Db, post: Id, kind: Kind): Db {
    db.(tallies := db.tallies[(post, kind) := Total(db, post, kind) + 1])
  }

  /** UPDATE post_reaction_counts SET total = total - 1: nothing happens where no row exists. */
  function Lower(db: Db, post: Id, kind: Kind): Db {
    if (post, kind) in db.tallies then db.(tallies := db.tallies[(post, kind) := db.tallies[(post, kind)] - 1]) else db
  }

  datatype Statement =
    | AddPost(post: Id)
    | Insert(post: Id, user: Id, kind: Kind) | Delete(post: Id, user: Id) | Change(post: Id, user: Id, kind: Kind)

  /** One statement with its trigger. Refused by the foreign key or the primary key, it changes nothing. */
  function Step(db: Db, s: Statement): Db {
    match s
    case AddPost(post) => if post in db.posts then db else db.(posts := db.posts[post := 0])
    case Insert(post, user, kind) =>
      if post !in db.posts || (post, user) in db.reactions then db
      else Raise(CountPost(db.(reactions := db.reactions[(post, user) := kind]), post, 1), post, kind)
    case Delete(post, user) =>
      if (post, user) !in db.reactions then db
      else
        var kind := db.reactions[(post, user)];
        Lower(CountPost(db.(reactions := db.reactions - {(post, user)}), post, -1), post, kind)
    case Change(post, user, kind) =>
      if (post, user) !in db.reactions then db
      else
        var was := db.reactions[(post, user)];
        var t := db.(reactions := db.reactions[(post, user) := kind]);
        if was == kind then t else Raise(Lower(t, post, was), post, kind)
  }

  // ---- What the counters should equal ----

  function ReactedWith(rs: map<(Id, Id), Kind>, post: Id, kind: Kind): set<(Id, Id)> {
    set key | key in rs && key.0 == post && rs[key] == kind
  }

  function ReactedTo(rs: map<(Id, Id), Kind>, post: Id): set<(Id, Id)> {
    set key | key in rs && key.0 == post
  }

  ghost predicate Exact(db: Db) {
    && (forall key | key in db.reactions :: key.0 in db.posts)
    && (forall p | p in db.posts :: db.posts[p] == |ReactedTo(db.reactions, p)|)
    && (forall p, k :: Total(db, p, k) == |ReactedWith(db.reactions, p, k)|)
  }

  lemma ReactionAdded(rs: map<(Id, Id), Kind>, key: (Id, Id), kind: Kind, p: Id, k: Kind)
    requires key !in rs
    ensures ReactedWith(rs[key := kind], p, k) == if key.0 == p && kind == k then ReactedWith(rs, p, k) + {key}
      else ReactedWith(rs, p, k)
    ensures ReactedTo(rs[key := kind], p) == if key.0 == p then ReactedTo(rs, p) + {key} else ReactedTo(rs, p)
  {
  }

  lemma ReactionRemoved(rs: map<(Id, Id), Kind>, key: (Id, Id), p: Id, k: Kind)
    requires key in rs
    ensures ReactedWith(rs - {key}, p, k) == if key.0 == p && rs[key] == k then ReactedWith(rs, p, k) - {key}
      else ReactedWith(rs, p, k)
    ensures ReactedTo(rs - {key}, p) == if key.0 == p then ReactedTo(rs, p) - {key} else ReactedTo(rs, p)
    ensures key.0 == p && rs[key] == k ==> key in ReactedWith(rs, p, k)
  {
  }

  lemma InsertKeepsTotal(db: Db, post: Id, user: Id, kind: Kind, p: Id, k: Kind)
    requires post in db.posts && (post, user) !in db.reactions && Total(db, p, k) == |ReactedWith(db.reactions, p, k)|
    ensures var t := Step(db, Insert(post, user, kind)); Total(t, p, k) == |ReactedWith(t.reactions, p, k)|
  {
    ReactionAdded(db.reactions, (post, user), kind, p, k);
  }

  lemma InsertKeepsCount(db: Db, post: Id, user: Id, kind: Kind, p: Id)
    requires post in db.posts && (post, user) !in db.reactions && p in db.posts
    requires db.posts[p] == |ReactedTo(db.reactions, p)|
    ensures var t := Step(db, Insert(post, user, kind)); p in t.posts && t.posts[p] == |ReactedTo(t.reactions, p)|
  {
    ReactionAdded(db.reactions, (post, user), kind, p, kind);
  }

  lemma InsertKeepsExact(db: Db, post: Id, user: Id, kind: Kind)
    requires Exact(db)
    ensures Exact(Step(db, Insert(post, user, kind)))
  {
    if post in db.posts && (post, user) !in db.reactions {
      var t := Step(db, Insert(post, user, kind));
      assert t.posts.Keys == db.posts.Keys;
      forall p, k ensures Total(t, p, k) == |ReactedWith(t.reactions, p, k)| {
        InsertKeepsTotal(db, post, user, kind, p, k);
      }
      forall p | p in db.posts ensures p in t.posts && t.posts[p] == |ReactedTo(t.reactions, p)| {
        InsertKeepsCount(db, post, user, kind, p);
      }
    }
  }

  lemma DeleteKeepsExact(db: Db, post: Id, user: Id)
    requires Exact(db)
    ensures Exact(Step(db, Delete(post, user)))
  {
    if (post, user) in db.reactions {
      var t, kind := Step(db, Delete(post, user)), db.reactions[(post, user)];
      ReactionRemoved(db.reactions, (post, user), post, kind);
      assert Total(db, post, kind) > 0;
      forall p, k ensures Total(t, p, k) == |ReactedWith(t.reactions, p, k)| {
        ReactionRemoved(db.reactions, (post, user), p, k);
      }
      forall p | p in t.posts ensures t.posts[p] == |ReactedTo(t.reactions, p)| {
        ReactionRemoved(db.reactions, (post, user), p, kind);
      }
    }
  }

  /** A kind change is a delete and an insert that leave the post's own counter alone. */
  lemma ChangeIsDeleteThenInsert(db: Db, post: Id, user: Id, kind: Kind)
    requires Exact(db) && (post, user) in db.reactions
    ensures Step(db, Change(post, user, kind)).reactions
      == Step(Step(db, Delete(post, user)), Insert(post, user, kind)).reactions
    ensures Step(db, Change(post, user, kind)).posts == db.posts
      == Step(Step(db, Delete(post, user)), Insert(post, user, kind)).posts
    ensures forall p, k ::
      Total(Step(db, Change(post, user, kind)), p, k)
        == Total(Step(Step(db, Delete(post, user)), Insert(post, user, kind)), p, k)
  {
    var was := db.reactions[(post, user)];
    ReactionRemoved(db.reactions, (post, user), post, was);
    assert Total(db, post, was) > 0;
  }

  lemma StepKeepsExact(db: Db, s: Statement)
    requires Exact(db)
    ensures Exact(Step(db, s))
  {
    match s
    case AddPost(post) =>
      if post !in db.posts {
        assert forall key :: key !in ReactedTo(db.reactions, post);
      }
    case Insert(post, user, kind) => InsertKeepsExact(db, post, user, kind);
    case Delete(post, user) => DeleteKeepsExact(db, post, user);
    case Change(post, user, kind) =>
      if (post, user) in db.reactions {
        ChangeIsDeleteThenInsert(db, post, user, kind);
        DeleteKeepsExact(db, post, user);
        InsertKeepsExact(Step(db, Delete(post, user)), post, user, kind);
      }
  }

  /** The reactions to a post whose kind is one of these. */
  function ReactedWithOneOf(rs: map<(Id, Id), Kind>, p: Id, kinds: set<Kind>): set<(Id, Id)> {
    set key | key in rs && key.0 == p && rs[key] in kinds
  }

  lemma OneMoreKind(rs: map<(Id, Id), Kind>, p: Id, kinds: set<Kind>, kind: Kind)
    requires kind !in kinds
    ensures |ReactedWithOneOf(rs, p, kinds + {kind})| == |ReactedWithOneOf(rs, p, kinds)| + |ReactedWith(rs, p, kind)|
  {
    assert ReactedWithOneOf(rs, p, kinds + {kind}) == ReactedWithOneOf(rs, p, kinds) + ReactedWith(rs, p, kind);
    assert ReactedWithOneOf(rs, p, kinds) !! ReactedWith(rs, p, kind);
  }

  lemma KindsPartition(rs: map<(Id, Id), Kind>, p: Id)
    ensures |ReactedTo(rs, p)|
      == |ReactedWith(rs, p, Like)| + |ReactedWith(rs, p, Love)| + |ReactedWith(rs, p, Haha)|
       + |ReactedWith(rs, p, Wow)| + |ReactedWith(rs, p, Sad)| + |ReactedWith(rs, p, Angry)|
  {
    assert ReactedWithOneOf(rs, p, {}) == {};
    OneMoreKind(rs, p, {}, Like);
    OneMoreKind(rs, p, {} + {Like}, Love);
    OneMoreKind(rs, p, {} + {Like} + {Love}, Haha);
    OneMoreKind(rs, p, {} + {Like} + {Love} + {Haha}, Wow);
    OneMoreKind(rs, p, {} + {Like} + {Love} + {Haha} + {Wow}, Sad);
    OneMoreKind(rs, p, {} + {Like} + {Love} + {Haha} + {Wow} + {Sad}, Angry);
    EveryKindCounts(rs, p);
  }

  lemma EveryKindCounts(rs: map<(Id, Id), Kind>, p: Id)
    ensures ReactedWithOneOf(rs, p, {} + {Like} + {Love} + {Haha} + {Wow} + {Sad} + {Angry}) == ReactedTo(rs, p)
  {
    forall kind: Kind ensures kind in {} + {Like} + {Love} + {Haha} + {Wow} + {Sad} + {Angry} {
      match kind case Like => case Love => case Haha => case Wow => case Sad => case Angry =>
    }
  }

  /** Over every run of inserts, deletes and kind changes: each tally is the number of reactions of its kind, the post's
      counter is the number of its reactions and the sum of its tallies, and no counter is ever negative. */
  lemma TalliesExactOverRuns(statements: seq<Statement>)
    ensures var db := Run(Step, Db(map[], map[], map[]), statements);
      && (forall p, k :: Total(db, p, k) == |ReactedWith(db.reactions, p, k)|)
      && (forall p | p in db.posts ::
            && db.posts[p] == |ReactedTo(db.reactions, p)|
            && db.posts[p] == Total(db, p, Like) + Total(db, p, Love) + Total(db, p, Haha)
                            + Total(db, p, Wow) + Total(db, p, Sad) + Total(db, p, Angry))
  {
    var none: map<(Id, Id), Kind> := map[];
    forall p, k ensures |ReactedWith(none, p, k)| == 0 {
      assert ReactedWith(none, p, k) == {};
    }
    forall db: Db, s: Statement | Exact(db) ensures Exact(Step(db, s)) {
      StepKeepsExact(db, s);
    }
    RunKeeps(Step, Exact, Db(map[], map[], map[]), statements);
    var db := Run(Step, Db(map[], map[], map[]), statements);
    forall p | p in db.posts
      ensures db.posts[p] == Total(db, p, Like) + Total(db, p, Love) + Total(db, p, Haha)
                           + Total(db, p, Wow) + Total(db, p, Sad) + Total(db, p, Angry)
    {
      KindsPartition(db.reactions, p);
    }
  }

  /** The three tables; after each row change the trigger runs statement by statement. */
  class Store {
    var posts: map<Id, int>
    var reactions: map<(Id, Id), Kind>
    var tallies: map<(Id, Kind), int>

    ghost function Contents(): Db
      reads this
    {
      Db(posts, reactions, tallies)
    }

    constructor ()
      ensures Contents() == Db(map[], map[], map[]) && Exact(Contents())
    {
      posts, reactions, tallies := map[], map[], map[];
      new;
      assert forall p, k :: ReactedWith(reactions, p, k) == {};
    }

    method UpdatePost(post: Id, n: int)
      modifies this`posts
      ensures Contents() == CountPost(old(Contents()), post, n)
    {
      if post in posts {
        posts := posts[post := posts[post] + n];
      }
    }

    method UpsertTally(post: Id, kind: Kind)
      modifies this`tallies
      ensures Contents() == Raise(old(Contents()), post, kind)
    {
      if (post, kind) in tallies {
        tallies := tallies[(post, kind) := tallies[(post, kind)] + 1];
      } else {
        tallies := tallies[(post, kind) := 1];
      }
    }

    method UpdateTally(post: Id, kind: Kind)
      modifies this`tallies
      ensures Contents() == Lower(old(Contents()), post, kind)
    {
      if (post, kind) in tallies {
        tallies := tallies[(post, kind) := tallies[(post, kind)] - 1];
      }
    }

    method Insert(post: Id, user: Id, kind: Kind) returns (ok: bool)
      requires Exact(Contents())
      modifies this
      ensures Contents() == Step(old(Contents()), Statement.Insert(post, user, kind)) && Exact(Contents())
      ensures ok <==> post in old(posts) && (post, user) !in old(reactions)
      ensures reactions == if ok then old(reactions)[(post, user) := kind] else old(reactions)
    {
      InsertKeepsExact(Contents(), post, user, kind);
      ok := post in posts && (post, user) !in reactions;
      if ok {
        reactions := reactions[(post, user) := kind];
        UpdatePost(post, 1);
        UpsertTally(post, kind);
      }
    }

    method Delete(post: Id, user: Id) returns (ok: bool)
      requires Exact(Contents())
      modifies this
      ensures Contents() == Step(old(Contents()), Statement.Delete(post, user)) && Exact(Contents())
      ensures ok <==> (post, user) in old(reactions)
      ensures reactions == old(reactions) - {(post, user)}
    {
      DeleteKeepsExact(Contents(), post, user);
      ok := (post, user) in reactions;
      if ok {
        var kind := reactions[(post, user)];
        reactions := reactions - {(post, user)};
        UpdatePost(post, -1);
        UpdateTally(post, kind);
      }
    }

    method Change(post: Id, user: Id, kind: Kind) returns (ok: bool)
      requires Exact(Contents())
      modifies this
      ensures Contents() == Step(old(Contents()), Statement.Change(post, user, kind)) && Exact(Contents())
      ensures ok <==> (post, user) in old(reactions)
      ensures reactions == if ok then old(reactions)[(post, user) := kind] else old(reactions)
    {
      StepKeepsExact(Contents(), Statement.Change(post, user, kind));
      ok := (post, user) in reactions;
      if ok {
        var was := reactions[(post, user)];
        reactions := reactions[(post, user) := kind];
        if was != kind {
          UpdateTally(post, was);
          UpsertTally(post, kind);
        }
      }
    }
  }
}
