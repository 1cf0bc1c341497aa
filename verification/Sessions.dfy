/** Refresh-token sessions: the refresh_tokens table of internal/user/repository.go and the Refresh, Login, Logout
    and LogoutAll flows of internal/user/service.go, with a Refresh split at every point where others may come
    between. */
module Sessions {
  import opened Runs

  type Id = int
  type Hash = int
  type User = int

  datatype Option<T> = None | Some(value: T)

  /** login and place exist for the properties only: the login a session descends from, and how many rotations after
      it. */
  datatype Session = Session(user: User, hash: Hash, expiresAt: int, revokedAt: Option<int>, replacedBy: Option<Id>,
                             login: nat, place: nat)

  predicate Active(s: Session, now: int) {
    s.revokedAt.None? && s.expiresAt > now
  }

  /** The history of one login: its sessions in the order they were issued. */
  datatype Login = Login(user: User, chain: seq<Id>)

  /** rows is the table with its primary key, index its unique index on token_hash. */
  datatype Table = Table(users: set<User>, rows: map<Id, Session>, index: map<Hash, Id>, logins: seq<Login>)

  datatype Fresh = Fresh(id: Id, user: User, hash: Hash, expiresAt: int)

  datatype Outcome = Stored | Gone | Internal

  /** Primary key, unique hash, foreign key to users, and expires_at > created_at. */
  predicate Insertable(t: Table, f: Fresh, now: int) {
    f.id !in t.rows && f.hash !in t.index && f.user in t.users && f.expiresAt > now
  }

  function Inserted(t: Table, f: Fresh, login: nat, place: nat): Table {
    t.(rows := t.rows[f.id := Session(f.user, f.hash, f.expiresAt, None, None, login, place)],
      index := t.index[f.hash := f.id])
  }

  function CreateOutcome(t: Table, f: Fresh, now: int): Outcome {
    if Insertable(t, f, now) then Stored else Internal
  }

  /** Create is only reached from a login, so it opens a new chain. */
  function Created(t: Table, f: Fresh, now: int): Table {
    if !Insertable(t, f, now) then t
    else Inserted(t, f, |t.logins|, 0).(logins := t.logins + [Login(f.user, [f.id])])
  }

  /** The row the guarded UPDATE of Rotate matches: unrevoked and unexpired. */
  predicate Matches(t: Table, presented: Hash, now: int) {
    presented in t.index && t.index[presented] in t.rows && Active(t.rows[t.index[presented]], now)
  }

  /** The replacement goes in first; the UPDATE then looks for the presented hash in the table as it now is. */
  function WithReplacement(t: Table, presented: Hash, f: Fresh): Table {
    if presented in t.index && t.index[presented] in t.rows then
      var s := t.rows[t.index[presented]];
      Inserted(t, f, s.login, s.place + 1)
    else Inserted(t, f, 0, 0)
  }

  function RotateOutcome(t: Table, presented: Hash, f: Fresh, now: int): Outcome {
    if !Insertable(t, f, now) then Internal
    else if Matches(WithReplacement(t, presented, f), presented, now) then Stored
    else Gone
  }

  function Rotated(t: Table, presented: Hash, f: Fresh, now: int): Table {
    if !RotateOutcome(t, presented, f, now).Stored? then t
    else
      var t1 := WithReplacement(t, presented, f);
      var prior := t1.index[presented];
      var n := t1.rows[prior].login;
      t1.(rows := t1.rows[prior := t1.rows[prior].(revokedAt := Some(now), replacedBy := Some(f.id))],
          logins := if n < |t.logins| then t.logins[n := t.logins[n].(chain := t.logins[n].chain + [f.id])]
            else t.logins)
  }

  function Revoked(t: Table, presented: Hash, now: int): Table {
    if presented in t.index && t.index[presented] in t.rows && t.rows[t.index[presented]].revokedAt.None? then
      var i := t.index[presented];
      t.(rows := t.rows[i := t.rows[i].(revokedAt := Some(now))])
    else t
  }

  function LiveOf(t: Table, user: User): set<Id> {
    set i | i in t.rows && t.rows[i].user == user && t.rows[i].revokedAt.None?
  }

  function AllRevoked(t: Table, user: User, now: int): Table {
    t.(rows := map i | i in t.rows :: if i in LiveOf(t, user) then t.rows[i].(revokedAt := Some(now)) else t.rows[i])
  }

  // ---- The system: logins, logouts and any number of Refresh calls in flight ----

  datatype Refresher =
    | Reading(presented: Hash)
    | Rotating(presented: Hash, user: User)  // ByHash found it active
    | Revoking(user: User)                   // ByHash found it revoked: a replay
    | Finished(got: Option<Id>)

  datatype Sys = Sys(table: Table, calls: seq<Refresher>)

  datatype Action =
    | Register(user: User)
    | LogIn(f: Fresh, now: int)
    | Begin(presented: Hash)
    | Read(i: nat, now: int)
    | Rotate(i: nat, id: Id, hash: Hash, expiresAt: int, now: int)
    | RevokeAll(i: nat, now: int)
    | LogOut(presented: Hash, now: int)
    | LogOutAll(user: User, now: int)

  function ReadResult(t: Table, presented: Hash, now: int): Refresher {
    if presented !in t.index || t.index[presented] !in t.rows then Finished(None)
    else
      var s := t.rows[t.index[presented]];
      if Active(s, now) then (if s.user in t.users then Rotating(presented, s.user) else Finished(None))
      else if s.revokedAt.Some? then Revoking(s.user)
      else Finished(None)
  }

  predicate At(s: Sys, i: nat) {
    i < |s.calls| && !s.calls[i].Finished?
  }

  predicate Rotates(s: Sys, a: Action) {
    a.Rotate? && At(s, a.i) && s.calls[a.i].Rotating?
  }

  function Replacement(s: Sys, a: Action): Fresh
    requires Rotates(s, a)
  {
    Fresh(a.id, s.calls[a.i].user, a.hash, a.expiresAt)
  }

  function Step(s: Sys, a: Action): Sys {
    match a
    case Register(user) => s.(table := s.table.(users := s.table.users + {user}))
    case LogIn(f, now) => s.(table := Created(s.table, f, now))
    case Begin(presented) => s.(calls := s.calls + [Reading(presented)])
    case Read(i, now) =>
      if At(s, i) && s.calls[i].Reading? then s.(calls := s.calls[i := ReadResult(s.table, s.calls[i].presented, now)])
        else s
    case Rotate(i, id, _, _, now) =>
      if !Rotates(s, a) then s
      else
        var f, presented := Replacement(s, a), s.calls[i].presented;
        var ok := RotateOutcome(s.table, presented, f, now).Stored?;
        Sys(Rotated(s.table, presented, f, now), s.calls[i := Finished(if ok then Some(id) else None)])
    case RevokeAll(i, now) =>
      if At(s, i) && s.calls[i].Revoking?
      then Sys(AllRevoked(s.table, s.calls[i].user, now), s.calls[i := Finished(None)]) else s
    case LogOut(presented, now) => s.(table := Revoked(s.table, presented, now))
    case LogOutAll(user, now) => s.(table := AllRevoked(s.table, user, now))
  }

  // ---- The invariant ----

  ghost predicate Indexed(t: Table) {
    && (forall i | i in t.rows :: t.rows[i].hash in t.index && t.index[t.rows[i].hash] == i)
    && (forall h | h in t.index :: t.index[h] in t.rows && t.rows[t.index[h]].hash == h)
  }

  function Next(chain: seq<Id>, k: nat): Option<Id> {
    if k + 1 < |chain| then Some(chain[k + 1]) else None
  }

  /** A session is the one its login has at that place, points at the next one, and is revoked once there is a next
      one. */
  ghost predicate InItsChain(t: Table, i: Id)
    requires i in t.rows
  {
    var s := t.rows[i];
    && s.login < |t.logins| && s.place < |t.logins[s.login].chain|
    && t.logins[s.login].chain[s.place] == i
    && s.user == t.logins[s.login].user
    && s.replacedBy == Next(t.logins[s.login].chain, s.place)
    && (s.replacedBy.Some? ==> s.revokedAt.Some?)
  }

  ghost predicate ChainStored(t: Table, n: nat)
    requires n < |t.logins|
  {
    var chain := t.logins[n].chain;
    chain != [] && forall k | 0 <= k < |chain| ::
      chain[k] in t.rows && t.rows[chain[k]].login == n && t.rows[chain[k]].place == k
  }

  ghost predicate Chained(t: Table) {
    && (forall i | i in t.rows :: InItsChain(t, i))
    && (forall n | 0 <= n < |t.logins| :: ChainStored(t, n))
  }

  ghost predicate CallsKnow(s: Sys) {
    forall c | c in s.calls && c.Rotating? ::
      c.presented in s.table.index && s.table.index[c.presented] in s.table.rows
      && s.table.rows[s.table.index[c.presented]].user == c.user
  }

  ghost predicate Inv(s: Sys) {
    Indexed(s.table) && Chained(s.table) && CallsKnow(s)
  }

  lemma CreatedKeepsIndexed(t: Table, f: Fresh, now: int)
    requires Indexed(t)
    ensures Indexed(Created(t, f, now))
  {
  }

  lemma CreatedKeepsChained(t: Table, f: Fresh, now: int)
    requires Chained(t)
    ensures Chained(Created(t, f, now))
  {
    if Insertable(t, f, now) {
      var t' := Created(t, f, now);
      forall i | i in t'.rows ensures InItsChain(t', i) {
        assert i != f.id ==> InItsChain(t, i);
      }
      forall n | 0 <= n < |t'.logins| ensures ChainStored(t', n) {
        assert n < |t.logins| ==> ChainStored(t, n);
      }
    }
  }

  lemma RotatedKeepsIndexed(t: Table, presented: Hash, f: Fresh, now: int)
    requires Indexed(t) && presented in t.index
    ensures Indexed(Rotated(t, presented, f, now))
  {
  }

  lemma RotatedKeepsChained(t: Table, presented: Hash, f: Fresh, now: int)
    requires Chained(t) && presented in t.index && t.index[presented] in t.rows
    requires t.rows[t.index[presented]].user == f.user
    ensures Chained(Rotated(t, presented, f, now))
  {
    if RotateOutcome(t, presented, f, now).Stored? {
      var t', prior := Rotated(t, presented, f, now), t.index[presented];
      assert InItsChain(t, prior);
      forall i | i in t'.rows ensures InItsChain(t', i) {
        assert i != f.id ==> InItsChain(t, i);
      }
      forall n | 0 <= n < |t'.logins| ensures ChainStored(t', n) {
        assert ChainStored(t, n);
      }
    }
  }

  /** Nothing in a row is rewritten: at most it gets revoked, and at most it then gets a successor. */
  predicate RowExtends(s: Session, s': Session) {
    && (s'.user, s'.hash, s'.expiresAt, s'.login, s'.place) == (s.user, s.hash, s.expiresAt, s.login, s.place)
    && (s.revokedAt.Some? ==> s' == s)
  }

  /** Revoking sets revoked_at on some rows and changes nothing else. */
  ghost predicate OnlyRevokes(t: Table, t': Table) {
    && t'.index == t.index && t'.logins == t.logins && t'.rows.Keys == t.rows.Keys
    && forall i | i in t.rows :: RowExtends(t.rows[i], t'.rows[i]) && t'.rows[i].replacedBy == t.rows[i].replacedBy
  }

  lemma RevokesKeepChain(t: Table, t': Table, n: nat)
    requires OnlyRevokes(t, t') && n < |t.logins| && ChainStored(t, n)
    ensures ChainStored(t', n)
  {
    var chain := t.logins[n].chain;
    forall k | 0 <= k < |chain|
      ensures chain[k] in t'.rows && t'.rows[chain[k]].login == n && t'.rows[chain[k]].place == k
    {
      var i := chain[k];
      assert RowExtends(t.rows[i], t'.rows[i]);
    }
  }

  lemma RevokesKeepInv(t: Table, t': Table)
    requires Indexed(t) && Chained(t) && OnlyRevokes(t, t')
    ensures Indexed(t') && Chained(t')
  {
    forall i | i in t'.rows ensures InItsChain(t', i) {
      assert InItsChain(t, i);
    }
    forall n | 0 <= n < |t'.logins| ensures ChainStored(t', n) {
      RevokesKeepChain(t, t', n);
    }
  }

  lemma RotateKeepsInv(s: Sys, a: Action)
    requires Inv(s) && Rotates(s, a)
    ensures Inv(Step(s, a))
  {
    var presented, f := s.calls[a.i].presented, Replacement(s, a);
    assert s.calls[a.i] in s.calls;
    RotatedKeepsIndexed(s.table, presented, f, a.now);
    RotatedKeepsChained(s.table, presented, f, a.now);
    RotatedKeepsCalls(s, presented, f, a.now);
    FinishedCallKnows(s.(table := Rotated(s.table, presented, f, a.now)), a.i, Step(s, a).calls[a.i]);
  }

  lemma RotatedKeepsCalls(s: Sys, presented: Hash, f: Fresh, now: int)
    requires CallsKnow(s) && presented in s.table.index
    ensures CallsKnow(s.(table := Rotated(s.table, presented, f, now)))
  {
  }

  /** A call that ends has nothing left to know. */
  lemma FinishedCallKnows(s: Sys, i: nat, c: Refresher)
    requires CallsKnow(s) && i < |s.calls| && !c.Rotating?
    ensures CallsKnow(s.(calls := s.calls[i := c]))
  {
  }

  lemma LogInKeepsInv(s: Sys, f: Fresh, now: int)
    requires Inv(s)
    ensures Inv(s.(table := Created(s.table, f, now)))
  {
    CreatedKeepsIndexed(s.table, f, now);
    CreatedKeepsChained(s.table, f, now);
  }

  lemma ReadKeepsInv(s: Sys, i: nat, now: int)
    requires Inv(s)
    ensures Inv(Step(s, Read(i, now)))
  {
  }

  lemma RevokeKeepsInv(s: Sys, t': Table)
    requires Inv(s) && OnlyRevokes(s.table, t')
    ensures Inv(s.(table := t'))
  {
    RevokesKeepInv(s.table, t');
    forall c | c in s.calls && c.Rotating? ensures t'.rows[t'.index[c.presented]].user == c.user {
      var i := s.table.index[c.presented];
      assert RowExtends(s.table.rows[i], t'.rows[i]);
    }
  }

  lemma RevokeAllKeepsInv(s: Sys, i: nat, now: int)
    requires Inv(s) && At(s, i) && s.calls[i].Revoking?
    ensures Inv(Step(s, RevokeAll(i, now)))
  {
    var t' := AllRevoked(s.table, s.calls[i].user, now);
    RevokeKeepsInv(s, t');
    FinishedCallKnows(s.(table := t'), i, Finished(None));
  }

  lemma StepKeepsInv(s: Sys, a: Action)
    requires Inv(s)
    ensures Inv(Step(s, a))
  {
    match a
    case Register(_) => RevokeKeepsInv(s, Step(s, a).table);
    case LogIn(f, now) => LogInKeepsInv(s, f, now);
    case Begin(_) =>
    case Read(i, now) => ReadKeepsInv(s, i, now);
    case Rotate(_, _, _, _, _) =>
      if Rotates(s, a) {
        RotateKeepsInv(s, a);
      }
    case RevokeAll(i, now) =>
      if At(s, i) && s.calls[i].Revoking? {
        RevokeAllKeepsInv(s, i, now);
      }
    case LogOut(presented, now) => RevokeKeepsInv(s, Revoked(s.table, presented, now));
    case LogOutAll(user, now) => RevokeKeepsInv(s, AllRevoked(s.table, user, now));
  }

  const START: Sys := Sys(Table({}, map[], map[], []), [])

  lemma RunKeepsInv(s: Sys, actions: seq<Action>)
    requires Inv(s)
    ensures Inv(Run(Step, s, actions))
  {
    forall s: Sys, a: Action | Inv(s) ensures Inv(Step(s, a)) {
      StepKeepsInv(s, a);
    }
    RunKeeps(Step, Inv, s, actions);
  }

  // ---- Chains ----

  ghost predicate SuccessorChain(t: Table, login: Login) {
    && login.chain != []
    && (forall k | 0 <= k < |login.chain| :: login.chain[k] in t.rows && t.rows[login.chain[k]].user == login.user)
    && (forall k | 0 <= k < |login.chain| - 1 ::
          t.rows[login.chain[k]].replacedBy == Some(login.chain[k + 1]) && t.rows[login.chain[k]].revokedAt.Some?)
    && t.rows[login.chain[|login.chain| - 1]].replacedBy.None?
  }

  ghost predicate ChainsDisjoint(logins: seq<Login>) {
    forall n, k, m, j | 0 <= n < |logins| && 0 <= k < |logins[n].chain| && 0 <= m < |logins|
      && 0 <= j < |logins[m].chain|
      :: logins[n].chain[k] == logins[m].chain[j] ==> n == m && k == j
  }

  ghost predicate InSomeChain(t: Table, i: Id) {
    exists n, k :: 0 <= n < |t.logins| && 0 <= k < |t.logins[n].chain| && t.logins[n].chain[k] == i
  }

  lemma AtItsPlace(t: Table, n: nat, k: nat)
    requires Chained(t) && n < |t.logins| && k < |t.logins[n].chain|
    ensures var chain := t.logins[n].chain;
      && chain[k] in t.rows && t.rows[chain[k]].user == t.logins[n].user
      && t.rows[chain[k]].replacedBy == Next(chain, k)
      && (k + 1 < |chain| ==> t.rows[chain[k]].revokedAt.Some?)
  {
    assert ChainStored(t, n);
    var i := t.logins[n].chain[k];
    assert InItsChain(t, i);
  }

  lemma StoredChainIsSuccessorChain(t: Table, n: nat)
    requires Chained(t) && n < |t.logins|
    ensures SuccessorChain(t, t.logins[n])
  {
    assert ChainStored(t, n);
    forall k | 0 <= k < |t.logins[n].chain|
      ensures var chain := t.logins[n].chain;
        && chain[k] in t.rows && t.rows[chain[k]].user == t.logins[n].user
        && t.rows[chain[k]].replacedBy == Next(chain, k)
        && (k + 1 < |chain| ==> t.rows[chain[k]].revokedAt.Some?)
    {
      AtItsPlace(t, n, k);
    }
  }

  lemma StoredChainsDisjoint(t: Table)
    requires Chained(t)
    ensures ChainsDisjoint(t.logins)
  {
    forall n, k, m, j | 0 <= n < |t.logins| && 0 <= k < |t.logins[n].chain| && 0 <= m < |t.logins|
      && 0 <= j < |t.logins[m].chain|
      && t.logins[n].chain[k] == t.logins[m].chain[j]
      ensures n == m && k == j
    {
      assert ChainStored(t, n) && ChainStored(t, m);
    }
  }

  /** Over every run the sessions fall into one chain per login: each session is in exactly one chain at exactly one
      place, points to the next, and belongs to the user who logged in; only the last of a chain can be unrevoked. */
  lemma EveryLoginIsAChain(actions: seq<Action>)
    ensures var t := Run(Step, START, actions).table;
      && (forall n | 0 <= n < |t.logins| :: SuccessorChain(t, t.logins[n]))
      && ChainsDisjoint(t.logins)
      && (forall i | i in t.rows :: InSomeChain(t, i))
  {
    RunKeepsInv(START, actions);
    var t := Run(Step, START, actions).table;
    forall n | 0 <= n < |t.logins| ensures SuccessorChain(t, t.logins[n]) {
      StoredChainIsSuccessorChain(t, n);
    }
    StoredChainsDisjoint(t);
    forall i | i in t.rows ensures InSomeChain(t, i) {
      assert InItsChain(t, i);
      assert t.logins[t.rows[i].login].chain[t.rows[i].place] == i;
    }
  }

  function LoginsOf(t: Table, user: User): set<nat> {
    set n: nat | n < |t.logins| && t.logins[n].user == user
  }

  lemma {:induction false} ImageNotLarger(logins: seq<Login>, from: set<nat>, image: set<Id>)
    requires forall n | n in from :: n < |logins| && logins[n].chain != []
    requires forall i | i in image :: exists n :: n in from && i == Last(logins[n].chain)
    ensures |image| <= |from|
    decreases from
  {
    if from == {} {
      assert forall i :: i !in image;
    } else {
      var n :| n in from;
      ImageNotLarger(logins, from - {n}, image - {Last(logins[n].chain)});
    }
  }

  function Last(chain: seq<Id>): Id {
    if chain == [] then 0 else chain[|chain| - 1]
  }

  /** A user never has more unrevoked sessions than logins. */
  lemma UnrevokedWithinLogins(actions: seq<Action>, user: User)
    ensures var t := Run(Step, START, actions).table; |LiveOf(t, user)| <= |LoginsOf(t, user)|
  {
    RunKeepsInv(START, actions);
    var t := Run(Step, START, actions).table;
    forall i | i in LiveOf(t, user) ensures exists n :: n in LoginsOf(t, user) && i == Last(t.logins[n].chain) {
      assert InItsChain(t, i);
      assert t.rows[i].login in LoginsOf(t, user);
    }
    forall n | n in LoginsOf(t, user) ensures t.logins[n].chain != [] {
      assert ChainStored(t, n);
    }
    ImageNotLarger(t.logins, LoginsOf(t, user), LiveOf(t, user));
  }

  // ---- Nothing is un-revoked ----

  ghost predicate Extends(t: Table, t': Table) {
    && (forall i | i in t.rows :: i in t'.rows && RowExtends(t.rows[i], t'.rows[i]))
    && (forall h | h in t.index :: h in t'.index && t'.index[h] == t.index[h])
  }

  lemma StepExtends(s: Sys, a: Action)
    requires Inv(s)
    ensures Extends(s.table, Step(s, a).table)
  {
    if Rotates(s, a) {
      assert s.calls[a.i] in s.calls;
      RotatedExtends(s.table, s.calls[a.i].presented, Replacement(s, a), a.now);
    }
  }

  lemma RotatedExtends(t: Table, presented: Hash, f: Fresh, now: int)
    requires presented in t.index && t.index[presented] in t.rows
    ensures Extends(t, Rotated(t, presented, f, now))
  {
  }

  /** Rows never vanish and keep what they were inserted with; a revoked row never changes again. */
  lemma RevocationIsFinal(s: Sys, actions: seq<Action>)
    requires Inv(s)
    ensures Extends(s.table, Run(Step, s, actions).table)
  {
    var grown := (x: Sys, y: Sys) => Extends(x.table, y.table);
    forall x: Sys, a: Action | Inv(x) ensures Inv(Step(x, a)) {
      StepKeepsInv(x, a);
    }
    forall x: Sys, y: Sys, a: Action | Inv(y) && grown(x, y) ensures grown(x, Step(y, a)) {
      StepExtends(y, a);
    }
    RunRelates(Step, Inv, grown, s, s, actions);
  }

  // ---- A token is spent once ----

  predicate Spends(s: Sys, a: Action, presented: Hash) {
    && Rotates(s, a) && s.calls[a.i].presented == presented
    && RotateOutcome(s.table, presented, Replacement(s, a), a.now).Stored?
  }

  function TimesSpent(s: Sys, actions: seq<Action>, presented: Hash): nat
    decreases |actions|
  {
    if actions == [] then 0
    else (if Spends(s, actions[0], presented) then 1 else 0) + TimesSpent(Step(s, actions[0]), actions[1..], presented)
  }

  predicate Spent(t: Table, presented: Hash) {
    presented in t.index && t.index[presented] in t.rows && t.rows[t.index[presented]].revokedAt.Some?
  }

  lemma {:induction false} SpentStaysSpent(s: Sys, actions: seq<Action>, presented: Hash)
    requires Inv(s) && Spent(s.table, presented)
    ensures TimesSpent(s, actions, presented) == 0
    decreases |actions|
  {
    if actions != [] {
      StepExtends(s, actions[0]);
      StepKeepsInv(s, actions[0]);
      SpentStaysSpent(Step(s, actions[0]), actions[1..], presented);
    }
  }

  lemma SpendingSpends(s: Sys, a: Action, presented: Hash)
    requires Inv(s) && Spends(s, a, presented)
    ensures Spent(Step(s, a).table, presented) && a.id in Step(s, a).table.rows
    ensures Step(s, a).calls[a.i] == Finished(Some(a.id))
    ensures presented in s.table.index && s.table.index[presented] in s.table.rows
    ensures Step(s, a).table.rows[s.table.index[presented]].replacedBy == Some(a.id)
    ensures var row := Step(s, a).table.rows[a.id];
      && row.user == s.table.rows[s.table.index[presented]].user && row.hash == a.hash && row.expiresAt == a.expiresAt
      && row.revokedAt.None? && row.replacedBy.None?
    ensures Step(s, a).table.rows[s.table.index[presented]].revokedAt == Some(a.now)
    ensures var prior := s.table.index[presented];
      Step(s, a).table.rows - {a.id, prior} == s.table.rows - {prior}
  {
    assert s.calls[a.i] in s.calls;
  }

  /** An exchange goes through exactly when the replacement can be stored and the presented row is neither revoked nor
      expired at that instant. */
  lemma SpendsIff(s: Sys, a: Action, presented: Hash)
    requires Inv(s) && Rotates(s, a) && s.calls[a.i].presented == presented
    ensures presented in s.table.index && s.table.index[presented] in s.table.rows
    ensures var row := s.table.rows[s.table.index[presented]];
      Spends(s, a, presented) <==>
        && a.id !in s.table.rows && a.hash !in s.table.index && row.user in s.table.users && a.expiresAt > a.now
        && row.revokedAt.None? && row.expiresAt > a.now
  {
    assert s.calls[a.i] in s.calls;
  }

  /** What the read of a Refresh decides: exchange a live token of an existing user, treat a revoked one as replayed,
      refuse everything else, expired tokens included. */
  lemma ReadDecides(s: Sys, i: nat, now: int)
    requires At(s, i) && s.calls[i].Reading?
    ensures var t, presented, after := s.table, s.calls[i].presented, Step(s, Read(i, now));
      && after.table == t
      && if presented !in t.index || t.index[presented] !in t.rows then after.calls[i] == Finished(None)
         else
           var row := t.rows[t.index[presented]];
           if row.revokedAt.Some? then after.calls[i] == Revoking(row.user)
           else if row.expiresAt > now && row.user in t.users then after.calls[i] == Rotating(presented, row.user)
           else after.calls[i] == Finished(None)
  {
  }

  /** However many Refresh calls race, a stored token is exchanged at most once. */
  lemma {:induction false} TokenSpentAtMostOnce(s: Sys, actions: seq<Action>, presented: Hash)
    requires Inv(s)
    ensures TimesSpent(s, actions, presented) <= 1
    decreases |actions|
  {
    if actions != [] {
      StepKeepsInv(s, actions[0]);
      if Spends(s, actions[0], presented) {
        SpendingSpends(s, actions[0], presented);
        SpentStaysSpent(Step(s, actions[0]), actions[1..], presented);
      } else {
        TokenSpentAtMostOnce(Step(s, actions[0]), actions[1..], presented);
      }
    }
  }

  /** The loser of a race: a Rotate that finds its token spent leaves the table as it was and ends without a session. */
  lemma LoserChangesNothing(s: Sys, a: Action)
    requires Inv(s) && Rotates(s, a) && !Spends(s, a, s.calls[a.i].presented)
    ensures Step(s, a).table == s.table && Step(s, a).calls[a.i] == Finished(None)
    ensures Insertable(s.table, Replacement(s, a), a.now) ==> !Matches(s.table, s.calls[a.i].presented, a.now)
  {
    assert s.calls[a.i] in s.calls;
  }

  // ---- Replay ----

  /** A token that was already exchanged is recognised whenever it is presented again, and by nothing else than a
      revoked row: an unknown, expired or live token never triggers the revoke-all. */
  lemma ReplayDetectedIff(s: Sys, actions: seq<Action>, i: nat, now: int)
    requires Inv(s) && At(Run(Step, s, actions), i) && Run(Step, s, actions).calls[i].Reading?
    ensures var s' := Run(Step, s, actions); var presented := s'.calls[i].presented;
      && (Step(s', Read(i, now)).calls[i].Revoking? <==> Spent(s'.table, presented))
      && (Spent(s.table, presented) ==>
            Step(s', Read(i, now)).calls[i] == Revoking(s.table.rows[s.table.index[presented]].user))
  {
    RevocationIsFinal(s, actions);
  }

  predicate NoLogInOf(actions: seq<Action>, user: User) {
    forall a | a in actions :: a.LogIn? ==> a.f.user != user
  }

  lemma StepBringsNoneBack(s: Sys, a: Action, user: User)
    requires Inv(s) && LiveOf(s.table, user) == {} && (a.LogIn? ==> a.f.user != user)
    ensures LiveOf(Step(s, a).table, user) == {}
  {
    assert forall i | i in s.table.rows && s.table.rows[i].user == user :: s.table.rows[i].revokedAt.Some? by {
      forall i | i in s.table.rows && s.table.rows[i].user == user ensures s.table.rows[i].revokedAt.Some? {
        assert i !in LiveOf(s.table, user);
      }
    }
    if Rotates(s, a) {
      assert s.calls[a.i] in s.calls;
    }
  }

  lemma {:induction false} NoneComesBack(s: Sys, actions: seq<Action>, user: User)
    requires Inv(s) && LiveOf(s.table, user) == {} && NoLogInOf(actions, user)
    ensures LiveOf(Run(Step, s, actions).table, user) == {}
    decreases |actions|
  {
    if actions != [] {
      assert actions[0] in actions;
      StepBringsNoneBack(s, actions[0], user);
      StepKeepsInv(s, actions[0]);
      NoneComesBack(Step(s, actions[0]), actions[1..], user);
    }
  }

  lemma AllRevokedLeavesNone(t: Table, user: User, now: int)
    ensures LiveOf(AllRevoked(t, user, now), user) == {}
  {
    assert forall i :: i !in LiveOf(AllRevoked(t, user, now), user);
  }

  /** After the revoke-all of a detected replay, no Refresh already in flight or begun later produces a live session
      for that user until somebody logs in. */
  lemma ReplayEndsEverySession(s: Sys, i: nat, now: int, actions: seq<Action>)
    requires Inv(s) && At(s, i) && s.calls[i].Revoking? && NoLogInOf(actions, s.calls[i].user)
    ensures LiveOf(Run(Step, Step(s, RevokeAll(i, now)), actions).table, s.calls[i].user) == {}
  {
    StepKeepsInv(s, RevokeAll(i, now));
    AllRevokedLeavesNone(s.table, s.calls[i].user, now);
    NoneComesBack(Step(s, RevokeAll(i, now)), actions, s.calls[i].user);
  }
}
