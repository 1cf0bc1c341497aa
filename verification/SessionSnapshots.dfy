/** Rotations statement by statement beside revoke-alls, under READ COMMITTED with row locks. A revoke-all finds its
    rows in the snapshot its statement starts with and then waits for their locks; a replacement whose rotation
    commits in between is not among them. */
module SessionSnapshots {
  import opened Runs
  import S = Sessions

  /** now is the transaction's own instant. since are the user's sessions committed after the revoke-all's snapshot. */
  datatype Txn =
    | Rotating(presented: S.Hash, f: S.Fresh, now: int)
    | Inserted(presented: S.Hash, f: S.Fresh, now: int)
    | Matched(presented: S.Hash, f: S.Fresh, now: int)
    | Sweeping(user: S.User, seen: set<S.Id>, since: set<S.Id>)
    | Ended(done: bool)

  datatype Sys = Sys(table: S.Table, txns: seq<Txn>)

  predicate Refreshes(t: Txn) {
    t.Rotating? || t.Inserted? || t.Matched?
  }

  predicate Pending(t: Txn) {
    t.Inserted? || t.Matched?
  }

  /** A unique key of an uncommitted row makes a second INSERT of it wait. */
  predicate KeysFree(s: Sys, f: S.Fresh) {
    forall j | 0 <= j < |s.txns| && Pending(s.txns[j]) :: s.txns[j].f.id != f.id && s.txns[j].f.hash != f.hash
  }

  /** The row under the presented hash is not locked by a rotation. */
  predicate HashFree(s: Sys, presented: S.Hash) {
    forall j | 0 <= j < |s.txns| && s.txns[j].Matched? :: s.txns[j].presented != presented
  }

  predicate RowsFree(s: Sys, ids: set<S.Id>) {
    forall h | h in s.table.index && s.table.index[h] in ids :: HashFree(s, h)
  }

  function Moved(s: Sys, i: nat, t: Txn): Sys
    requires i < |s.txns|
  {
    s.(txns := s.txns[i := t])
  }

  /** A committed session is one that a revoke-all of its user already under way has not seen. */
  function Noticed(t: Txn, f: S.Fresh): Txn {
    if t.Sweeping? && t.user == f.user then t.(since := t.since + {f.id}) else t
  }

  function NoticedAll(txns: seq<Txn>, f: S.Fresh): seq<Txn> {
    seq(|txns|, j requires 0 <= j < |txns| => Noticed(txns[j], f))
  }

  /** Refresh calls Rotate for the user of the session that ByHash found. */
  function BeginRotate(s: Sys, presented: S.Hash, f: S.Fresh, now: int): Sys {
    if presented in s.table.index && s.table.index[presented] in s.table.rows
       && s.table.rows[s.table.index[presented]].user == f.user
    then s.(txns := s.txns + [Rotating(presented, f, now)])
    else s
  }

  function Insert(s: Sys, i: nat): Sys {
    if i >= |s.txns| || !s.txns[i].Rotating? || !KeysFree(s, s.txns[i].f) then s
    else
      var Rotating(presented, f, now) := s.txns[i];
      Moved(s, i, if S.Insertable(s.table, f, now) then Inserted(presented, f, now) else Ended(false))
  }

  /** The guarded UPDATE, once no other rotation has the row; a guard that fails rolls the insert back. */
  function Match(s: Sys, i: nat): Sys {
    if i >= |s.txns| || !s.txns[i].Inserted? || !HashFree(s, s.txns[i].presented) then s
    else
      var Inserted(presented, f, now) := s.txns[i];
      Moved(s, i, if S.Matches(s.table, presented, now) then Matched(presented, f, now) else Ended(false))
  }

  function Commit(s: Sys, i: nat): Sys {
    if i >= |s.txns| || !s.txns[i].Matched? then s
    else
      var Matched(presented, f, now) := s.txns[i];
      Sys(S.Rotated(s.table, presented, f, now), NoticedAll(s.txns[i := Ended(true)], f))
  }

  function LogIn(s: Sys, f: S.Fresh, now: int): Sys {
    if !KeysFree(s, f) || !S.Insertable(s.table, f, now) then s
    else Sys(S.Created(s.table, f, now), NoticedAll(s.txns, f))
  }

  function LogOut(s: Sys, presented: S.Hash, now: int): Sys {
    if !HashFree(s, presented) then s else s.(table := S.Revoked(s.table, presented, now))
  }

  function BeginSweep(s: Sys, user: S.User): Sys {
    s.(txns := s.txns + [Sweeping(user, S.LiveOf(s.table, user), {})])
  }

  /** Its UPDATE, once none of the rows it saw is locked: the guard is looked at again, other rows are not. */
  function Swept(t: S.Table, seen: set<S.Id>, now: int): S.Table {
    t.(rows := map i | i in t.rows ::
      if i in seen && t.rows[i].revokedAt.None? then t.rows[i].(revokedAt := S.Some(now)) else t.rows[i])
  }

  function Sweep(s: Sys, i: nat, now: int): Sys {
    if i >= |s.txns| || !s.txns[i].Sweeping? || !RowsFree(s, s.txns[i].seen) then s
    else Sys(Swept(s.table, s.txns[i].seen, now), s.txns[i := Ended(true)])
  }

  function Abort(s: Sys, i: nat): Sys {
    if i < |s.txns| then Moved(s, i, Ended(false)) else s
  }

  datatype Action =
    | Registering(user: S.User)
    | LoggingIn(f: S.Fresh, now: int)
    | LoggingOut(presented: S.Hash, now: int)
    | BeginningRotate(presented: S.Hash, f: S.Fresh, now: int)
    | Inserting(i: nat) | Matching(i: nat) | Committing(i: nat)
    | BeginningSweep(user: S.User) | FinishingSweep(i: nat, now: int)
    | Aborting(i: nat)

  function Step(s: Sys, a: Action): Sys {
    match a
    case Registering(user) => s.(table := s.table.(users := s.table.users + {user}))
    case LoggingIn(f, now) => LogIn(s, f, now)
    case LoggingOut(presented, now) => LogOut(s, presented, now)
    case BeginningRotate(presented, f, now) => BeginRotate(s, presented, f, now)
    case Inserting(i) => Insert(s, i)
    case Matching(i) => Match(s, i)
    case Committing(i) => Commit(s, i)
    case BeginningSweep(user) => BeginSweep(s, user)
    case FinishingSweep(i, now) => Sweep(s, i, now)
    case Aborting(i) => Abort(s, i)
  }

  // ---- What every step keeps ----

  predicate OfUser(t: S.Table, ids: set<S.Id>, user: S.User) {
    forall i | i in ids :: i in t.rows && t.rows[i].user == user
  }

  predicate StillFree(t: S.Table, f: S.Fresh, now: int) {
    S.Insertable(t, f, now)
  }

  predicate FoundBy(t: S.Table, presented: S.Hash, user: S.User) {
    presented in t.index && t.index[presented] in t.rows && t.rows[t.index[presented]].user == user
  }

  ghost predicate ViewOk(t: S.Table, x: Txn) {
    && (Refreshes(x) ==> FoundBy(t, x.presented, x.f.user))
    && (Pending(x) ==> StillFree(t, x.f, x.now))
    && (x.Matched? ==> S.Matches(t, x.presented, x.now))
    && (x.Sweeping? ==>
      OfUser(t, x.seen + x.since, x.user) && x.seen !! x.since && S.LiveOf(t, x.user) <= x.seen + x.since)
  }

  ghost predicate Apart(x: Txn, y: Txn) {
    && (Pending(x) && Pending(y) ==> x.f.id != y.f.id && x.f.hash != y.f.hash)
    && (x.Matched? && y.Matched? ==> x.presented != y.presented)
  }

  ghost predicate AllApart(txns: seq<Txn>) {
    forall i, j | 0 <= i < |txns| && 0 <= j < |txns| && i != j :: Apart(txns[i], txns[j])
  }

  ghost predicate Inv(s: Sys) {
    && S.Indexed(s.table) && S.Chained(s.table)
    && AllApart(s.txns)
    && forall i | 0 <= i < |s.txns| :: ViewOk(s.table, s.txns[i])
  }

  lemma MoveKeepsInv(s: Sys, i: nat, x: Txn)
    requires Inv(s) && i < |s.txns| && ViewOk(s.table, x)
    requires forall j | 0 <= j < |s.txns| && j != i :: Apart(x, s.txns[j]) && Apart(s.txns[j], x)
    ensures Inv(Moved(s, i, x))
  {
  }

  lemma InsertKeepsInv(s: Sys, i: nat)
    requires Inv(s)
    ensures Inv(Insert(s, i))
  {
    if Insert(s, i) != s {
      var Rotating(presented, f, now) := s.txns[i];
      assert ViewOk(s.table, s.txns[i]);
      MoveKeepsInv(s, i, Insert(s, i).txns[i]);
    }
  }

  lemma MatchKeepsInv(s: Sys, i: nat)
    requires Inv(s)
    ensures Inv(Match(s, i))
  {
    if Match(s, i) != s {
      var Inserted(presented, f, now) := s.txns[i];
      assert ViewOk(s.table, s.txns[i]);
      forall j | 0 <= j < |s.txns| && j != i ensures Apart(s.txns[i], s.txns[j]) && Apart(s.txns[j], s.txns[i]) {
      }
      MoveKeepsInv(s, i, Match(s, i).txns[i]);
    }
  }

  // ---- Changes of the committed table ----

  /** A rotation commits what the whole call would have done at that instant. */
  lemma CommitIsTheCall(s: Sys, i: nat)
    requires Inv(s) && i < |s.txns| && s.txns[i].Matched?
    ensures S.RotateOutcome(s.table, s.txns[i].presented, s.txns[i].f, s.txns[i].now) == S.Stored
  {
    assert ViewOk(s.table, s.txns[i]);
  }

  /** A new row of another id and hash, and perhaps a revocation of another row. */
  ghost predicate Adds(t: S.Table, t': S.Table, f: S.Fresh, touched: set<S.Id>) {
    && t'.users == t.users && t'.index == t.index[f.hash := f.id] && t'.rows.Keys == t.rows.Keys + {f.id}
    && t'.rows[f.id].user == f.user
    && (forall i | i in t.rows :: KeepsRow(t.rows[i], t'.rows[i], i in touched))
  }

  predicate KeepsRow(r: S.Session, r': S.Session, touched: bool) {
    && r'.user == r.user && r'.expiresAt == r.expiresAt && (r.revokedAt.Some? ==> r'.revokedAt.Some?)
    && (!touched ==> r'.revokedAt == r.revokedAt)
  }

  lemma ViewAfterAdd(t: S.Table, t': S.Table, f: S.Fresh, touched: set<S.Id>, x: Txn)
    requires S.Indexed(t) && Adds(t, t', f, touched) && f.id !in t.rows && f.hash !in t.index && ViewOk(t, x)
    requires Pending(x) ==> x.f.id != f.id && x.f.hash != f.hash
    requires x.Matched? ==> t.index[x.presented] !in touched
    ensures ViewOk(t', Noticed(x, f))
  {
    if x.Sweeping? {
      SweepViewAfterAdd(t, t', f, touched, x);
    } else if Refreshes(x) {
      var i := t.index[x.presented];
      assert i in t.rows && t'.index[x.presented] == i;
    }
  }

  lemma SweepViewAfterAdd(t: S.Table, t': S.Table, f: S.Fresh, touched: set<S.Id>, x: Txn)
    requires Adds(t, t', f, touched) && f.id !in t.rows && x.Sweeping? && ViewOk(t, x)
    ensures ViewOk(t', Noticed(x, f))
  {
    var y := Noticed(x, f);
    forall i | i in S.LiveOf(t', x.user) ensures i in y.seen + y.since {
      if i != f.id {
        assert i in t.rows && i in S.LiveOf(t, x.user);
      }
    }
    forall i | i in y.seen + y.since ensures i in t'.rows && t'.rows[i].user == x.user {
      if i in x.seen + x.since {
        assert i in t.rows;
      }
    }
  }

  /** Revocations of rows that no rotation has locked. */
  lemma ViewAfterRevokes(t: S.Table, t': S.Table, x: Txn)
    requires S.OnlyRevokes(t, t') && t.users <= t'.users && ViewOk(t, x)
    requires x.Matched? ==> t'.rows[t.index[x.presented]] == t.rows[t.index[x.presented]]
    ensures ViewOk(t', x)
  {
    if Refreshes(x) {
      var i := t.index[x.presented];
      assert S.RowExtends(t.rows[i], t'.rows[i]);
    }
    if x.Sweeping? {
      forall i | i in S.LiveOf(t', x.user) ensures i in S.LiveOf(t, x.user) {
        assert S.RowExtends(t.rows[i], t'.rows[i]);
      }
      forall i | i in x.seen + x.since ensures i in t'.rows && t'.rows[i].user == x.user {
        assert i in t.rows;
        assert S.RowExtends(t.rows[i], t'.rows[i]);
      }
    }
  }

  lemma RevokesKeepInv(s: Sys, t': S.Table)
    requires Inv(s) && S.OnlyRevokes(s.table, t') && s.table.users <= t'.users
    requires forall j | 0 <= j < |s.txns| && s.txns[j].Matched? ::
      var i := s.table.index[s.txns[j].presented]; t'.rows[i] == s.table.rows[i]
    ensures Inv(s.(table := t'))
  {
    S.RevokesKeepInv(s.table, t');
    forall j | 0 <= j < |s.txns| ensures ViewOk(t', s.txns[j]) {
      ViewAfterRevokes(s.table, t', s.txns[j]);
    }
  }

  lemma RotatedAdds(t: S.Table, presented: S.Hash, f: S.Fresh, now: int)
    requires S.Indexed(t) && FoundBy(t, presented, f.user) && S.Insertable(t, f, now) && S.Matches(t, presented, now)
    ensures Adds(t, S.Rotated(t, presented, f, now), f, {t.index[presented]})
  {
  }

  lemma NoticedKeepApart(txns: seq<Txn>, f: S.Fresh)
    requires AllApart(txns)
    ensures AllApart(NoticedAll(txns, f))
  {
    var after := NoticedAll(txns, f);
    forall i, j | 0 <= i < |after| && 0 <= j < |after| && i != j ensures Apart(after[i], after[j]) {
      assert Apart(txns[i], txns[j]);
    }
  }

  lemma CommitKeepsInv(s: Sys, i: nat)
    requires Inv(s)
    ensures Inv(Commit(s, i))
  {
    if i < |s.txns| && s.txns[i].Matched? {
      var Matched(presented, f, now) := s.txns[i];
      var s' := Commit(s, i);
      assert ViewOk(s.table, s.txns[i]);
      S.RotatedKeepsIndexed(s.table, presented, f, now);
      S.RotatedKeepsChained(s.table, presented, f, now);
      RotatedAdds(s.table, presented, f, now);
      MoveKeepsInv(s, i, Ended(true));
      NoticedKeepApart(s.txns[i := Ended(true)], f);
      forall j | 0 <= j < |s'.txns| ensures ViewOk(s'.table, s'.txns[j]) {
        CommitKeepsView(s, i, j);
      }
    }
  }

  lemma CommitKeepsView(s: Sys, i: nat, j: nat)
    requires Inv(s) && i < |s.txns| && s.txns[i].Matched? && j < |s.txns|
    ensures ViewOk(Commit(s, i).table, Commit(s, i).txns[j])
  {
    var Matched(presented, f, now) := s.txns[i];
    var x := s.txns[j];
    assert ViewOk(s.table, s.txns[i]) && ViewOk(s.table, x);
    if j != i {
      assert Apart(s.txns[i], x);
      RotatedAdds(s.table, presented, f, now);
      OtherHashOtherRow(s.table, presented, x);
      ViewAfterAdd(s.table, Commit(s, i).table, f, {s.table.index[presented]}, x);
    }
  }

  lemma OtherHashOtherRow(t: S.Table, presented: S.Hash, x: Txn)
    requires S.Indexed(t) && presented in t.index && ViewOk(t, x)
    ensures x.Matched? && x.presented != presented ==> t.index[x.presented] != t.index[presented]
  {
    if x.Matched? {
      assert x.presented in t.index;
      assert t.rows[t.index[x.presented]].hash == x.presented;
      assert t.rows[t.index[presented]].hash == presented;
    }
  }

  lemma LogInKeepsInv(s: Sys, f: S.Fresh, now: int)
    requires Inv(s)
    ensures Inv(LogIn(s, f, now))
  {
    if KeysFree(s, f) && S.Insertable(s.table, f, now) {
      var s' := LogIn(s, f, now);
      S.CreatedKeepsIndexed(s.table, f, now);
      S.CreatedKeepsChained(s.table, f, now);
      NoticedKeepApart(s.txns, f);
      forall j | 0 <= j < |s'.txns| ensures ViewOk(s'.table, s'.txns[j]) {
        ViewAfterAdd(s.table, s'.table, f, {}, s.txns[j]);
      }
    }
  }

  lemma LogOutKeepsInv(s: Sys, presented: S.Hash, now: int)
    requires Inv(s)
    ensures Inv(LogOut(s, presented, now))
  {
    if HashFree(s, presented) {
      forall j | 0 <= j < |s.txns| && s.txns[j].Matched?
        ensures var i := s.table.index[s.txns[j].presented];
          S.Revoked(s.table, presented, now).rows[i] == s.table.rows[i]
      {
        assert ViewOk(s.table, s.txns[j]);
        if presented in s.table.index {
          OtherHashOtherRow(s.table, presented, s.txns[j]);
        }
      }
      RevokesKeepInv(s, S.Revoked(s.table, presented, now));
    }
  }

  lemma SweepKeepsInv(s: Sys, i: nat, now: int)
    requires Inv(s)
    ensures Inv(Sweep(s, i, now))
  {
    if i < |s.txns| && s.txns[i].Sweeping? && RowsFree(s, s.txns[i].seen) {
      var t' := Swept(s.table, s.txns[i].seen, now);
      forall j | 0 <= j < |s.txns| && s.txns[j].Matched?
        ensures var k := s.table.index[s.txns[j].presented]; t'.rows[k] == s.table.rows[k]
      {
        assert ViewOk(s.table, s.txns[j]);
        assert !HashFree(s, s.txns[j].presented);
      }
      RevokesKeepInv(s, t');
      MoveKeepsInv(s.(table := t'), i, Ended(true));
    }
  }

  lemma StepKeepsInv(s: Sys, a: Action)
    requires Inv(s)
    ensures Inv(Step(s, a))
  {
    match a
    case Registering(_) => RevokesKeepInv(s, Step(s, a).table);
    case LoggingIn(f, now) => LogInKeepsInv(s, f, now);
    case LoggingOut(presented, now) => LogOutKeepsInv(s, presented, now);
    case BeginningRotate(_, _, _) =>
    case Inserting(i) => InsertKeepsInv(s, i);
    case Matching(i) => MatchKeepsInv(s, i);
    case Committing(i) => CommitKeepsInv(s, i);
    case BeginningSweep(_) =>
    case FinishingSweep(i, now) => SweepKeepsInv(s, i, now);
    case Aborting(i) =>
      if i < |s.txns| {
        MoveKeepsInv(s, i, Ended(false));
      }
  }

  const START: Sys := Sys(S.START.table, [])

  lemma RunKeepsInv(s: Sys, actions: seq<Action>)
    requires Inv(s)
    ensures Inv(Run(Step, s, actions))
  {
    forall s: Sys, a: Action | Inv(s) ensures Inv(Step(s, a)) {
      StepKeepsInv(s, a);
    }
    RunKeeps(Step, Inv, s, actions);
  }

  // ---- What a revoke-all leaves ----

  predicate CanSweep(s: Sys, i: nat) {
    i < |s.txns| && s.txns[i].Sweeping? && RowsFree(s, s.txns[i].seen)
  }

  /** A sweep revokes, at its own time, the unrevoked sessions its snapshot held, and touches nothing else. */
  lemma SweepRevokesWhatItSaw(s: Sys, i: nat, now: int)
    requires CanSweep(s, i)
    ensures var t, seen := Step(s, FinishingSweep(i, now)).table, s.txns[i].seen;
      && t.users == s.table.users && t.index == s.table.index && t.logins == s.table.logins
      && t.rows.Keys == s.table.rows.Keys
      && forall id | id in s.table.rows :: var r := s.table.rows[id];
           t.rows[id] == if id in seen && r.revokedAt.None?
             then S.Session(r.user, r.hash, r.expiresAt, S.Some(now), r.replacedBy, r.login, r.place) else r
  {
  }

  /** A revoke-all leaves exactly the live sessions committed since its snapshot: none if and only if each of those has
      been revoked by then. */
  lemma SweepLeavesLateOnes(s: Sys, i: nat, now: int)
    requires Inv(s) && CanSweep(s, i)
    ensures var x := s.txns[i]; var left := S.LiveOf(Sweep(s, i, now).table, x.user);
      && left == S.LiveOf(s.table, x.user) * x.since
      && (left == {} <==> forall k | k in x.since :: s.table.rows[k].revokedAt.Some?)
  {
    var x := s.txns[i];
    assert ViewOk(s.table, x);
    var left := S.LiveOf(Sweep(s, i, now).table, x.user);
    forall k ensures k in left <==> k in S.LiveOf(s.table, x.user) && k in x.since {
      assert k in S.LiveOf(s.table, x.user) ==> k in x.seen + x.since;
    }
    forall k | k in x.since ensures s.table.rows[k].revokedAt.None? <==> k in left {
      assert k in x.seen + x.since;
    }
    if forall k | k in x.since :: s.table.rows[k].revokedAt.Some? {
      assert forall k :: k !in left;
    }
    if left == {} {
      assert forall k | k in x.since :: k !in left;
    }
  }

  predicate NoLogInOf(actions: seq<Action>, user: S.User) {
    forall a | a in actions :: a.LoggingIn? ==> a.f.user != user
  }

  lemma CommitBringsNoneBack(s: Sys, i: nat, user: S.User)
    requires Inv(s) && S.LiveOf(s.table, user) == {}
    ensures S.LiveOf(Commit(s, i).table, user) == {}
  {
    if i < |s.txns| && s.txns[i].Matched? {
      var Matched(presented, f, now) := s.txns[i];
      assert ViewOk(s.table, s.txns[i]);
      var k := s.table.index[presented];
      assert k in S.LiveOf(s.table, f.user);
      RotatedAdds(s.table, presented, f, now);
      forall j ensures j !in S.LiveOf(Commit(s, i).table, user) {
        assert j !in S.LiveOf(s.table, user);
      }
    }
  }

  lemma RevokesBringNoneBack(t: S.Table, t': S.Table, user: S.User)
    requires S.OnlyRevokes(t, t') && S.LiveOf(t, user) == {}
    ensures S.LiveOf(t', user) == {}
  {
    forall i ensures i !in S.LiveOf(t', user) {
      if i in t.rows {
        assert i !in S.LiveOf(t, user) && S.RowExtends(t.rows[i], t'.rows[i]);
      }
    }
  }

  lemma StepBringsNoneBack(s: Sys, a: Action, user: S.User)
    requires Inv(s) && S.LiveOf(s.table, user) == {} && (a.LoggingIn? ==> a.f.user != user)
    ensures S.LiveOf(Step(s, a).table, user) == {}
  {
    match a
    case Registering(_) => RevokesBringNoneBack(s.table, Step(s, a).table, user);
    case LoggingIn(f, now) =>
      forall i ensures i !in S.LiveOf(Step(s, a).table, user) {
        assert i !in S.LiveOf(s.table, user);
      }
    case LoggingOut(presented, now) => RevokesBringNoneBack(s.table, Step(s, a).table, user);
    case Committing(i) => CommitBringsNoneBack(s, i, user);
    case FinishingSweep(_, _) => RevokesBringNoneBack(s.table, Step(s, a).table, user);
    case _ => assert Step(s, a).table == s.table;
  }

  lemma {:induction false} NoneComesBack(s: Sys, actions: seq<Action>, user: S.User)
    requires Inv(s) && S.LiveOf(s.table, user) == {} && NoLogInOf(actions, user)
    ensures S.LiveOf(Run(Step, s, actions).table, user) == {}
    decreases |actions|
  {
    if actions != [] {
      assert actions[0] in actions;
      StepBringsNoneBack(s, actions[0], user);
      StepKeepsInv(s, actions[0]);
      NoneComesBack(Step(s, actions[0]), actions[1..], user);
    }
  }

  /** The revoke-all of a replay ends every session of its user for good, until a login, exactly when each session
      committed since its snapshot has been revoked by then. */
  lemma SweepEndsEverySessionIff(s: Sys, i: nat, now: int)
    requires Inv(s) && CanSweep(s, i)
    ensures (forall actions | NoLogInOf(actions, s.txns[i].user) ::
              S.LiveOf(Run(Step, Sweep(s, i, now), actions).table, s.txns[i].user) == {})
      <==> forall k | k in s.txns[i].since :: s.table.rows[k].revokedAt.Some?
  {
    var user, after := s.txns[i].user, Sweep(s, i, now);
    SweepLeavesLateOnes(s, i, now);
    SweepKeepsInv(s, i, now);
    assert Run(Step, after, []) == after && NoLogInOf([], user);
    if S.LiveOf(after.table, user) == {} {
      forall actions | NoLogInOf(actions, user) ensures S.LiveOf(Run(Step, after, actions).table, user) == {} {
        NoneComesBack(after, actions, user);
      }
    }
  }

  // ---- A session that survives ----

  /** A rotation has the row locked when the revoke-all takes its snapshot, and commits before it goes on. */
  function Surviving(presented: S.Hash, f: S.Fresh, now: int): seq<Action> {
    [BeginningRotate(presented, f, now), Inserting(0), Matching(0)]
      + [BeginningSweep(f.user), Committing(0), FinishingSweep(1, now)]
  }

  lemma RunOfThree(s: Sys, a: Action, b: Action, c: Action)
    ensures Run(Step, s, [a, b, c]) == Step(Step(Step(s, a), b), c)
  {
    var s1 := Step(s, a);
    var s2 := Step(s1, b);
    assert [a, b, c][1..] == [b, c] && [b, c][1..] == [c] && [c][1..] == [];
    assert Run(Step, s, [a, b, c]) == Run(Step, s1, [b, c]) == Run(Step, s2, [c]) == Run(Step, Step(s2, c), []);
  }

  lemma RunSurviving(s: Sys, presented: S.Hash, f: S.Fresh, now: int)
    ensures Run(Step, s, Surviving(presented, f, now))
      == Sweep(Commit(BeginSweep(Match(Insert(BeginRotate(s, presented, f, now), 0), 0), f.user), 0), 1, now)
  {
    var first := [BeginningRotate(presented, f, now), Inserting(0), Matching(0)];
    var matched := Match(Insert(BeginRotate(s, presented, f, now), 0), 0);
    RunOfThree(s, BeginningRotate(presented, f, now), Inserting(0), Matching(0));
    RunAppend(Step, s, first, [BeginningSweep(f.user), Committing(0), FinishingSweep(1, now)]);
    RunOfThree(matched, BeginningSweep(f.user), Committing(0), FinishingSweep(1, now));
  }

  lemma MatchedAlone(s: Sys, presented: S.Hash, f: S.Fresh, now: int) returns (t: Sys)
    requires Inv(s) && s.txns == [] && FoundBy(s.table, presented, f.user)
    requires S.Matches(s.table, presented, now) && S.Insertable(s.table, f, now)
    ensures t == Match(Insert(BeginRotate(s, presented, f, now), 0), 0) && Inv(t)
    ensures t.table == s.table && t.txns == [Matched(presented, f, now)]
  {
    StepKeepsInv(s, BeginningRotate(presented, f, now));
    var s1 := BeginRotate(s, presented, f, now);
    InsertKeepsInv(s1, 0);
    MatchKeepsInv(Insert(s1, 0), 0);
    t := Match(Insert(s1, 0), 0);
  }

  /** On every live session: both calls succeed, and the replacement is live although every session was to be
      revoked. */
  lemma ReplacementSurvives(s: Sys, presented: S.Hash, f: S.Fresh, now: int) returns (t: Sys)
    requires Inv(s) && s.txns == [] && FoundBy(s.table, presented, f.user)
    requires S.Matches(s.table, presented, now) && S.Insertable(s.table, f, now)
    ensures t == Run(Step, s, Surviving(presented, f, now))
    ensures t.txns == [Ended(true), Ended(true)] && f.id in S.LiveOf(t.table, f.user)
  {
    RunSurviving(s, presented, f, now);
    var matched := MatchedAlone(s, presented, f, now);
    var sweeping := BeginSweep(matched, f.user);
    var committed := Commit(sweeping, 0);
    RotatedAdds(s.table, presented, f, now);
    CommitIsTheCall(matched, 0);
    assert f.id !in S.LiveOf(s.table, f.user);
    assert committed.txns[0] == Ended(true);
    assert committed.txns[1] == Noticed(sweeping.txns[1], f)
      == Sweeping(f.user, S.LiveOf(s.table, f.user), {} + {f.id});
    t := Sweep(committed, 1, now);
  }

  /** Such a live session: a user's only login. */
  lemma FirstLoginAllowsIt()
    ensures var s := Run(Step, START, [Registering(1), LoggingIn(S.Fresh(1, 1, 10, 100), 0)]);
      && Inv(s) && s.txns == [] && FoundBy(s.table, 10, 1) && S.Matches(s.table, 10, 1)
      && S.Insertable(s.table, S.Fresh(2, 1, 20, 100), 1)
  {
    var a, b := Registering(1), LoggingIn(S.Fresh(1, 1, 10, 100), 0);
    RunKeepsInv(START, [a, b]);
    var s1 := Step(START, a);
    assert [a, b][1..] == [b] && [b][1..] == [];
    assert Run(Step, START, [a, b]) == Run(Step, s1, [b]) == Run(Step, Step(s1, b), []) == Step(s1, b);
  }
}
