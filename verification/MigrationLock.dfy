/** Any number of migrator processes taking the advisory lock of internal/platform/postgres/migrate.go, any of which
    may die between two transactions. The log is what the database really executed and committed. */
module MigrationLock {
  import opened Runs
  import M = Migrations

  datatype Ran = RanUp(version: int) | RanDown(version: int)

  datatype Job = UpJob(migs: seq<M.Migration>) | DownJob(migs: seq<M.Migration>, steps: nat)

  /** Waiting for the lock; holding it with the table not yet read; inside the loop of Up or Down; gone. */
  datatype Proc =
    | Waiting(job: Job)
    | Holding(job: Job)
    | Upping(applied: map<int, M.Row>, todo: seq<M.Migration>)
    | Downing(migs: seq<M.Migration>, versions: seq<int>)
    | Exited

  /** collided records an INSERT into schema_migrations refused by its primary key. */
  datatype Sys = Sys(recorded: map<int, M.Row>, log: seq<Ran>, holder: M.Option<nat>, procs: seq<Proc>, collided: bool)

  type Digest = string -> string

  predicate InLock(p: Proc) {
    p.Holding? || p.Upping? || p.Downing?
  }

  function With(s: Sys, i: nat, p: Proc): Sys
    requires i < |s.procs|
  {
    s.(procs := s.procs[i := p])
  }

  /** Returning runs the deferred unlock; dying ends the session, which frees the lock as well. */
  function Leave(s: Sys, i: nat): Sys
    requires i < |s.procs|
  {
    With(s, i, Exited).(holder := if s.holder == M.Some(i) then M.None else s.holder)
  }

  function Launch(s: Sys, job: Job): Sys {
    if M.Loaded(job.migs) then s.(procs := s.procs + [Waiting(job)]) else s
  }

  function Lock(s: Sys, i: nat): Sys {
    if i < |s.procs| && s.procs[i].Waiting? && s.holder.None?
    then With(s, i, Holding(s.procs[i].job)).(holder := M.Some(i)) else s
  }

  ghost function ReadTable(s: Sys, i: nat): Sys {
    if i < |s.procs| && s.procs[i].Holding? then
      match s.procs[i].job
      case UpJob(migs) => With(s, i, Upping(s.recorded, migs))
      case DownJob(migs, steps) => With(s, i, Downing(migs, M.Limit(M.Descending(s.recorded.Keys), steps)))
    else s
  }

  /** One turn of Up's loop; ok says whether the script's statements succeed. */
  function NextUp(digest: Digest, s: Sys, i: nat, ok: bool): Sys
    requires i < |s.procs| && s.procs[i].Upping?
  {
    var Upping(applied, todo) := s.procs[i];
    if todo == [] then Leave(s, i)
    else
      var m := todo[0];
      if m.version in applied then
        if M.Checksum(digest, m.up) != applied[m.version].checksum then Leave(s, i)
          else With(s, i, Upping(applied, todo[1..]))
      else if !ok then Leave(s, i)
      else if m.version in s.recorded then Leave(s, i).(collided := true)
      else With(s, i, Upping(applied, todo[1..])).(
             recorded := s.recorded[m.version := M.RowOf(digest, m)], log := s.log + [RanUp(m.version)])
  }

  function NextDown(s: Sys, i: nat, ok: bool): Sys
    requires i < |s.procs| && s.procs[i].Downing?
  {
    var Downing(migs, versions) := s.procs[i];
    if versions == [] then Leave(s, i)
    else
      var v := versions[0];
      var found := M.Lookup(migs, v);
      if found.None? || M.Blank(found.value.down) || !ok then Leave(s, i)
      else With(s, i, Downing(migs, versions[1..])).(recorded := s.recorded - {v}, log := s.log + [RanDown(v)])
  }

  datatype Action = Launching(job: Job) | Locking(i: nat) | Reading(i: nat) | Turning(i: nat, ok: bool) | Dying(i: nat)

  ghost function Step(digest: Digest, s: Sys, a: Action): Sys {
    match a
    case Launching(job) => Launch(s, job)
    case Locking(i) => Lock(s, i)
    case Reading(i) => ReadTable(s, i)
    case Turning(i, ok) =>
      if i < |s.procs| && s.procs[i].Upping? then NextUp(digest, s, i, ok)
      else if i < |s.procs| && s.procs[i].Downing? then NextDown(s, i, ok)
      else s
    case Dying(i) => if i < |s.procs| then Leave(s, i) else s
  }

  // ---- What the log says ----

  function Effect(r: Ran, v: int): int {
    if r.version != v then 0 else if r.RanUp? then 1 else -1
  }

  /** Up scripts executed less down scripts executed. */
  function Balance(log: seq<Ran>, v: int): int {
    if log == [] then 0 else Balance(log[..|log| - 1], v) + Effect(log[|log| - 1], v)
  }

  /** An up script runs only while its version stands reverted, a down script only while it stands applied. */
  ghost predicate Alternating(log: seq<Ran>) {
    forall k | 0 <= k < |log| :: Balance(log[..k], log[k].version) == if log[k].RanUp? then 0 else 1
  }

  ghost predicate RecordMatchesLog(recorded: map<int, M.Row>, log: seq<Ran>) {
    Alternating(log) && forall v :: Balance(log, v) == if v in recorded then 1 else 0
  }

  lemma LogGrows(recorded: map<int, M.Row>, log: seq<Ran>, r: Ran, recorded': map<int, M.Row>)
    requires RecordMatchesLog(recorded, log)
    requires r.RanUp? ==> r.version !in recorded && recorded'.Keys == recorded.Keys + {r.version}
    requires r.RanDown? ==> r.version in recorded && recorded'.Keys == recorded.Keys - {r.version}
    ensures RecordMatchesLog(recorded', log + [r])
  {
    assert (log + [r])[..|log|] == log;
    forall k | 0 <= k < |log| + 1
      ensures Balance((log + [r])[..k], (log + [r])[k].version) == if (log + [r])[k].RanUp? then 0 else 1
    {
      if k < |log| {
        assert (log + [r])[..k] == log[..k];
      }
    }
    forall v ensures Balance(log + [r], v) == if v in recorded' then 1 else 0 {
      assert v in recorded'.Keys <==> v in recorded';
    }
  }

  // ---- What the lock holder may rely on ----

  ghost predicate ViewCurrent(recorded: map<int, M.Row>, p: Proc) {
    match p
    case Waiting(job) => M.Loaded(job.migs)
    case Holding(job) => M.Loaded(job.migs)
    case Upping(applied, todo) =>
      M.Loaded(todo) && forall k | 0 <= k < |todo| :: todo[k].version in applied <==> todo[k].version in recorded
    case Downing(_, versions) => M.NewestFirst(versions) && forall k | 0 <= k < |versions| :: versions[k] in recorded
    case Exited => true
  }

  ghost predicate Inv(s: Sys) {
    && RecordMatchesLog(s.recorded, s.log)
    && (forall i | 0 <= i < |s.procs| :: InLock(s.procs[i]) <==> s.holder == M.Some(i))
    && (s.holder.Some? ==> s.holder.value < |s.procs|)
    && (forall i | 0 <= i < |s.procs| :: ViewCurrent(s.recorded, s.procs[i]))
    && !s.collided
  }

  /** One process moves to p while the table becomes recorded': what it takes for the invariant to survive. */
  lemma MoveKeepsInv(s: Sys, i: nat, p: Proc, recorded': map<int, M.Row>, log': seq<Ran>)
    requires Inv(s) && i < |s.procs| && s.holder == M.Some(i)
    requires InLock(p) && ViewCurrent(recorded', p) && RecordMatchesLog(recorded', log')
    ensures Inv(With(s, i, p).(recorded := recorded', log := log'))
  {
    var procs := s.procs[i := p];
    forall j | 0 <= j < |procs| ensures ViewCurrent(recorded', procs[j]) {
      assert ViewCurrent(s.recorded, s.procs[j]);
      assert j != i ==> !InLock(s.procs[j]);
    }
  }

  lemma LeaveKeepsInv(s: Sys, i: nat)
    requires Inv(s) && i < |s.procs|
    ensures Inv(Leave(s, i))
  {
  }

  lemma TailStaysCurrent(
      recorded: map<int, M.Row>, applied: map<int, M.Row>, todo: seq<M.Migration>, recorded': map<int, M.Row>)
    requires todo != [] && ViewCurrent(recorded, Upping(applied, todo))
    requires recorded' == recorded || recorded'.Keys == recorded.Keys + {todo[0].version}
    ensures ViewCurrent(recorded', Upping(applied, todo[1..]))
  {
    var rest := todo[1..];
    forall k | 0 <= k < |rest| ensures rest[k].version in applied <==> rest[k].version in recorded' {
      var v := rest[k].version;
      assert rest[k] == todo[k + 1];
      assert todo[0].version < v;
      assert v in recorded' <==> v in recorded'.Keys;
    }
  }

  lemma NextUpKeepsInv(digest: Digest, s: Sys, i: nat, ok: bool)
    requires Inv(s) && i < |s.procs| && s.procs[i].Upping?
    ensures Inv(NextUp(digest, s, i, ok))
  {
    var Upping(applied, todo) := s.procs[i];
    assert InLock(s.procs[i]) && ViewCurrent(s.recorded, s.procs[i]);
    LeaveKeepsInv(s, i);
    if todo != [] {
      var m := todo[0];
      var next := Upping(applied, todo[1..]);
      assert m.version in applied <==> m.version in s.recorded;
      if m.version in applied {
        TailStaysCurrent(s.recorded, applied, todo, s.recorded);
        MoveKeepsInv(s, i, next, s.recorded, s.log);
      } else if ok {
        var recorded' := s.recorded[m.version := M.RowOf(digest, m)];
        TailStaysCurrent(s.recorded, applied, todo, recorded');
        LogGrows(s.recorded, s.log, RanUp(m.version), recorded');
        MoveKeepsInv(s, i, next, recorded', s.log + [RanUp(m.version)]);
      }
    }
  }

  lemma OlderStayCurrent(recorded: map<int, M.Row>, migs: seq<M.Migration>, versions: seq<int>)
    requires versions != [] && ViewCurrent(recorded, Downing(migs, versions))
    ensures var v := versions[0]; ViewCurrent(recorded - {v}, Downing(migs, versions[1..]))
  {
    var v, rest := versions[0], versions[1..];
    forall k | 0 <= k < |rest| ensures rest[k] in recorded - {v} {
      var w := rest[k];
      assert w == versions[k + 1] && w < v;
    }
  }

  lemma NextDownKeepsInv(s: Sys, i: nat, ok: bool)
    requires Inv(s) && i < |s.procs| && s.procs[i].Downing?
    ensures Inv(NextDown(s, i, ok))
  {
    var Downing(migs, versions) := s.procs[i];
    assert InLock(s.procs[i]) && ViewCurrent(s.recorded, s.procs[i]);
    LeaveKeepsInv(s, i);
    if versions != [] {
      var v := versions[0];
      assert v in s.recorded;
      OlderStayCurrent(s.recorded, migs, versions);
      LogGrows(s.recorded, s.log, RanDown(v), s.recorded - {v});
      MoveKeepsInv(s, i, Downing(migs, versions[1..]), s.recorded - {v}, s.log + [RanDown(v)]);
    }
  }

  lemma ReadTableKeepsInv(s: Sys, i: nat)
    requires Inv(s)
    ensures Inv(ReadTable(s, i))
  {
    if i < |s.procs| && s.procs[i].Holding? {
      assert ViewCurrent(s.recorded, s.procs[i]) && InLock(s.procs[i]);
      match s.procs[i].job
      case UpJob(migs) => MoveKeepsInv(s, i, Upping(s.recorded, migs), s.recorded, s.log);
      case DownJob(migs, steps) =>
        var versions := M.Limit(M.Descending(s.recorded.Keys), steps);
        NewestAreRecorded(s.recorded, steps);
        MoveKeepsInv(s, i, Downing(migs, versions), s.recorded, s.log);
    }
  }

  lemma NewestAreRecorded(recorded: map<int, M.Row>, steps: nat)
    ensures var versions := M.Limit(M.Descending(recorded.Keys), steps);
      M.NewestFirst(versions) && forall k | 0 <= k < |versions| :: versions[k] in recorded
  {
    var all := M.Descending(recorded.Keys);
    var versions := M.Limit(all, steps);
    forall k | 0 <= k < |versions| ensures versions[k] in recorded {
      var v := versions[k];
      assert v == all[k] && v in all;
      assert v in recorded.Keys;
    }
  }

  lemma StepKeepsInv(digest: Digest, s: Sys, a: Action)
    requires Inv(s)
    ensures Inv(Step(digest, s, a))
  {
    match a
    case Launching(_) =>
    case Locking(_) =>
    case Reading(i) => ReadTableKeepsInv(s, i);
    case Turning(i, ok) =>
      if i < |s.procs| && s.procs[i].Upping? {
        NextUpKeepsInv(digest, s, i, ok);
      } else if i < |s.procs| && s.procs[i].Downing? {
        NextDownKeepsInv(s, i, ok);
      }
    case Dying(_) =>
  }

  const START: Sys := Sys(map[], [], M.None, [], false)

  /** Over every run: the recorded versions are the scripts executed and not reverted, no up script ever runs while its
      version is recorded nor a down script while it is not, and the primary key is never what prevents it. */
  lemma RecordAlwaysMatchesSchema(digest: Digest, actions: seq<Action>)
    ensures var s := Run((s, a) => Step(digest, s, a), START, actions);
      && (forall v :: Balance(s.log, v) == if v in s.recorded then 1 else 0)
      && Alternating(s.log)
      && !s.collided
      && (forall i, j | 0 <= i < |s.procs| && 0 <= j < |s.procs| && InLock(s.procs[i]) && InLock(s.procs[j]) :: i == j)
  {
    var step := (s: Sys, a: Action) => Step(digest, s, a);
    forall s: Sys, a: Action | Inv(s) ensures Inv(step(s, a)) {
      StepKeepsInv(digest, s, a);
    }
    RunKeeps(step, Inv, START, actions);
  }

  // ---- One runner at work: its turns are Up and Down ----

  /** The turns of an up run whose scripts come out as exec says, when each is run on what the ones before it left. */
  function UpTurns<T>(
      exec: (string, T) -> M.Option<T>, i: nat, applied: map<int, M.Row>, todo: seq<M.Migration>, schema: T)
    : seq<Action>
    decreases |todo|
  {
    if todo == [] then [Turning(i, true)]
    else if todo[0].version in applied then [Turning(i, true)] + UpTurns(exec, i, applied, todo[1..], schema)
    else match exec(todo[0].up, schema)
      case None => [Turning(i, false)]
      case Some(next) => [Turning(i, true)] + UpTurns(exec, i, applied, todo[1..], next)
  }

  function DownTurns<T>(
      exec: (string, T) -> M.Option<T>, i: nat, migs: seq<M.Migration>, versions: seq<int>, schema: T): seq<Action>
    decreases |versions|
  {
    if versions == [] then [Turning(i, true)]
    else match M.Lookup(migs, versions[0])
      case None => [Turning(i, true)]
      case Some(m) =>
        match exec(m.down, schema)
        case None => [Turning(i, false)]
        case Some(next) => [Turning(i, true)] + DownTurns(exec, i, migs, versions[1..], next)
  }

  function Ups(run: seq<int>): seq<Ran> {
    if run == [] then [] else [RanUp(run[0])] + Ups(run[1..])
  }

  function Downs(run: seq<int>): seq<Ran> {
    if run == [] then [] else [RanDown(run[0])] + Downs(run[1..])
  }

  predicate OnlyTurns(actions: seq<Action>, i: nat) {
    forall k | 0 <= k < |actions| :: actions[k].Turning? && actions[k].i == i
  }

  lemma {:induction false} ExitedStands(digest: Digest, s: Sys, i: nat, actions: seq<Action>)
    requires i < |s.procs| && s.procs[i].Exited? && OnlyTurns(actions, i)
    ensures Run((s, a) => Step(digest, s, a), s, actions) == s
    decreases |actions|
  {
    if actions != [] {
      var ok := actions[0].ok;
      assert actions[0] == Turning(i, ok) && Step(digest, s, actions[0]) == s;
      ExitedStands(digest, s, i, actions[1..]);
    }
  }

  lemma {:induction false} UpTurnsOnly<T>(
      exec: (string, T) -> M.Option<T>, i: nat, applied: map<int, M.Row>, todo: seq<M.Migration>, schema: T)
    ensures OnlyTurns(UpTurns(exec, i, applied, todo, schema), i)
    decreases |todo|
  {
    if todo != [] {
      if todo[0].version in applied {
        UpTurnsOnly(exec, i, applied, todo[1..], schema);
      } else if exec(todo[0].up, schema).Some? {
        UpTurnsOnly(exec, i, applied, todo[1..], exec(todo[0].up, schema).value);
      }
    }
  }

  lemma {:induction false} DownTurnsOnly<T>(
      exec: (string, T) -> M.Option<T>, i: nat, migs: seq<M.Migration>, versions: seq<int>, schema: T)
    ensures OnlyTurns(DownTurns(exec, i, migs, versions, schema), i)
    decreases |versions|
  {
    if versions != [] && M.Lookup(migs, versions[0]).Some? {
      var next := exec(M.Lookup(migs, versions[0]).value.down, schema);
      if next.Some? {
        DownTurnsOnly(exec, i, migs, versions[1..], next.value);
      }
    }
  }

  /** The process ends with the table and the log as the run r leaves them. */
  ghost predicate EndsLike<T>(s: Sys, i: nat, t: Sys, r: M.Result<T>, ran: seq<Ran>)
    requires i < |s.procs|
  {
    && t.recorded == r.db.recorded && t.log == s.log + ran && t.procs == s.procs[i := Exited]
    && t.holder == if s.holder == M.Some(i) then M.None else s.holder
  }

  /** One turn of an up run, beside what UpFrom does with the same migration. */
  lemma TurnStops<T>(digest: Digest, exec: (string, T) -> M.Option<T>, s: Sys, i: nat, schema: T, ok: bool)
    requires i < |s.procs| && s.procs[i].Upping? && NextUp(digest, s, i, ok).procs[i].Exited?
    requires s.procs[i].todo != [] && s.procs[i].todo[0].version !in s.procs[i].applied ==>
      ok == exec(s.procs[i].todo[0].up, schema).Some?
    ensures var r := M.UpFrom(digest, exec, s.procs[i].todo, s.procs[i].applied, M.Db(s.recorded, schema));
      r.db.recorded == s.recorded && r.run == [] && EndsLike(s, i, NextUp(digest, s, i, ok), r, [])
  {
  }

  lemma TurnGoesOn<T>(digest: Digest, exec: (string, T) -> M.Option<T>, s: Sys, i: nat, schema: T, schema': T, ok: bool)
    requires i < |s.procs| && s.procs[i].Upping? && !NextUp(digest, s, i, ok).procs[i].Exited?
    requires s.procs[i].todo[0].version in s.procs[i].applied ==> schema' == schema
    requires s.procs[i].todo[0].version !in s.procs[i].applied ==>
      exec(s.procs[i].todo[0].up, schema) == M.Some(schema')
    ensures var Upping(applied, todo) := s.procs[i];
      var next := NextUp(digest, s, i, ok);
      var r := M.UpFrom(digest, exec, todo, applied, M.Db(s.recorded, schema));
      var rest := M.UpFrom(digest, exec, todo[1..], applied, M.Db(next.recorded, schema'));
      && next.procs == s.procs[i := Upping(applied, todo[1..])] && next.holder == s.holder
      && r.db == rest.db && next.log + Ups(rest.run) == s.log + Ups(r.run)
  {
    var Upping(applied, todo) := s.procs[i];
    var next := NextUp(digest, s, i, ok);
    var rest := M.UpFrom(digest, exec, todo[1..], applied, M.Db(next.recorded, schema'));
    if todo[0].version !in applied {
      Regroup(s.log, RanUp(todo[0].version), Ups(rest.run));
      assert ([todo[0].version] + rest.run)[1..] == rest.run;
    }
  }

  lemma Regroup<E>(s: seq<E>, x: E, t: seq<E>)
    ensures s + [x] + t == s + ([x] + t)
  {
  }

  lemma {:induction false} TurnsCompute<T>(
      digest: Digest, exec: (string, T) -> M.Option<T>, s: Sys, i: nat, schema: T)
    requires i < |s.procs| && s.procs[i].Upping?
    ensures var Upping(applied, todo) := s.procs[i];
      var r := M.UpFrom(digest, exec, todo, applied, M.Db(s.recorded, schema));
      EndsLike(s, i, Run((s, a) => Step(digest, s, a), s, UpTurns(exec, i, applied, todo, schema)), r, Ups(r.run))
    decreases |s.procs[i].todo|
  {
    var Upping(applied, todo) := s.procs[i];
    var turns := UpTurns(exec, i, applied, todo, schema);
    UpTurnsOnly(exec, i, applied, todo, schema);
    var ok := turns[0].ok;
    var next := NextUp(digest, s, i, ok);
    assert turns[0] == Turning(i, ok) && Step(digest, s, turns[0]) == next;
    if next.procs[i].Exited? {
      ExitedStands(digest, next, i, turns[1..]);
      TurnStops(digest, exec, s, i, schema, ok);
    } else {
      var schema' := if todo[0].version in applied then schema else exec(todo[0].up, schema).value;
      assert turns[1..] == UpTurns(exec, i, applied, todo[1..], schema');
      TurnGoesOn(digest, exec, s, i, schema, schema', ok);
      TurnsCompute(digest, exec, next, i, schema');
    }
  }

  lemma {:induction false} DownTurnsCompute<T>(
      digest: Digest, exec: (string, T) -> M.Option<T>, s: Sys, i: nat, schema: T)
    requires i < |s.procs| && s.procs[i].Downing?
    ensures var Downing(migs, versions) := s.procs[i];
      var r := M.DownFrom(exec, migs, versions, M.Db(s.recorded, schema));
      EndsLike(s, i, Run((s, a) => Step(digest, s, a), s, DownTurns(exec, i, migs, versions, schema)), r, Downs(r.run))
    decreases |s.procs[i].versions|
  {
    var Downing(migs, versions) := s.procs[i];
    var turns := DownTurns(exec, i, migs, versions, schema);
    DownTurnsOnly(exec, i, migs, versions, schema);
    var step := (s: Sys, a: Action) => Step(digest, s, a);
    var ok := turns[0].ok;
    assert turns[0] == Turning(i, ok);
    var next := NextDown(s, i, ok);
    assert step(s, turns[0]) == next;
    if next.procs[i].Exited? {
      ExitedStands(digest, next, i, turns[1..]);
    } else {
      var schema' := exec(M.Lookup(migs, versions[0]).value.down, schema).value;
      assert turns[1..] == DownTurns(exec, i, migs, versions[1..], schema');
      DownTurnsCompute(digest, exec, next, i, schema');
    }
  }

  /** A runner that holds the lock and is not killed carries out what Up computes, script by script. */
  lemma UpIsItsTurns<T>(digest: Digest, exec: (string, T) -> M.Option<T>, s: Sys, i: nat, schema: T)
    requires i < |s.procs| && s.procs[i].Holding? && s.procs[i].job.UpJob?
    ensures var migs := s.procs[i].job.migs;
      var r := M.Up(digest, exec, migs, M.Db(s.recorded, schema));
      EndsLike(s, i,
               Run((s, a) => Step(digest, s, a), s, [Reading(i)] + UpTurns(exec, i, s.recorded, migs, schema)),
               r, Ups(r.run))
  {
    var turns := UpTurns(exec, i, s.recorded, s.procs[i].job.migs, schema);
    assert ([Reading(i)] + turns)[1..] == turns;
    TurnsCompute(digest, exec, ReadTable(s, i), i, schema);
  }

  /** And what Down computes. */
  lemma DownIsItsTurns<T>(digest: Digest, exec: (string, T) -> M.Option<T>, s: Sys, i: nat, schema: T)
    requires i < |s.procs| && s.procs[i].Holding? && s.procs[i].job.DownJob? && s.procs[i].job.steps > 0
    ensures var DownJob(migs, steps) := s.procs[i].job;
      var r := M.Down(exec, migs, M.Db(s.recorded, schema), steps);
      var newest := M.Limit(M.Descending(s.recorded.Keys), steps);
      EndsLike(s, i,
               Run((s, a) => Step(digest, s, a), s, [Reading(i)] + DownTurns(exec, i, migs, newest, schema)),
               r, Downs(r.run))
  {
    var DownJob(migs, steps) := s.procs[i].job;
    var turns := DownTurns(exec, i, migs, M.Limit(M.Descending(s.recorded.Keys), steps), schema);
    assert ([Reading(i)] + turns)[1..] == turns;
    DownTurnsCompute(digest, exec, ReadTable(s, i), i, schema);
  }
}
