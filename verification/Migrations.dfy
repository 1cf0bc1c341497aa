/** The migration runner of internal/platform/postgres/migrate.go. A script is executed by exec, which may refuse it;
    digest stands for the hash inside checksum. One transaction per migration: a refused script leaves no trace. */
module Migrations {

  datatype Option<T> = None | Some(value: T)

  datatype Migration = Migration(version: int, name: string, up: string, down: string)

  datatype Row = Row(name: string, checksum: string)

  datatype Db<T> = Db(recorded: map<int, Row>, schema: T)

  datatype Error =
    | ChecksumMismatch(version: int) | ScriptFailed(version: int) | AlreadyRecorded(version: int)
    | FileMissing(version: int) | NoDownFile(version: int) | BadSteps

  datatype Result<T> = Result(db: Db<T>, run: seq<int>, error: Option<Error>)

  /** strings.ReplaceAll(s, "\r\n", "\n"). */
  function Normalised(s: string): string {
    if |s| >= 2 && s[0] == '\r' && s[1] == '\n' then "\n" + Normalised(s[2..])
    else if s == "" then "" else [s[0]] + Normalised(s[1..])
  }

  function Checksum(digest: string -> string, s: string): string {
    digest(Normalised(s))
  }

  /** unicode.IsSpace, which strings.TrimSpace goes by. */
  predicate IsSpace(c: char) {
    var u := c as int;
    || 0x09 <= u <= 0x0D || u == 0x20 || u == 0x85 || u == 0xA0
    || u == 0x1680 || 0x2000 <= u <= 0x200A || u == 0x2028 || u == 0x2029 || u == 0x202F || u == 0x205F || u == 0x3000
  }

  function TrimLeft(s: string): string {
    if s != "" && IsSpace(s[0]) then TrimLeft(s[1..]) else s
  }

  function TrimRight(s: string): string {
    if s != "" && IsSpace(s[|s| - 1]) then TrimRight(s[..|s| - 1]) else s
  }

  /** strings.TrimSpace. */
  function TrimSpace(s: string): string {
    TrimRight(TrimLeft(s))
  }

  predicate Blank(s: string) {
    forall c | c in s :: IsSpace(c)
  }

  function RowOf(digest: string -> string, m: Migration): Row {
    Row(m.name, Checksum(digest, m.up))
  }

  /** What load returns: one migration per version, oldest first. */
  predicate Loaded(migs: seq<Migration>) {
    forall i, j | 0 <= i < j < |migs| :: migs[i].version < migs[j].version
  }

  // ---- Up ----

  function ApplyUp<T>(
      digest: string -> string, exec: (string, T) -> Option<T>, db: Db<T>, m: Migration): (Db<T>, Option<Error>) {
    match exec(m.up, db.schema)
    case None => (db, Some(ScriptFailed(m.version)))
    case Some(schema) =>
      if m.version in db.recorded then (db, Some(AlreadyRecorded(m.version)))
      else (Db(db.recorded[m.version := RowOf(digest, m)], schema), None)
  }

  /** The loop over the files, against the table as it was read after taking the lock. */
  function UpFrom<T>(
      digest: string -> string, exec: (string, T) -> Option<T>, migs: seq<Migration>, applied: map<int, Row>,
      db: Db<T>)
    : Result<T>
  {
    if migs == [] then Result(db, [], None)
    else
      var m := migs[0];
      if m.version in applied then
        if Checksum(digest, m.up) != applied[m.version].checksum then Result(db, [], Some(ChecksumMismatch(m.version)))
        else UpFrom(digest, exec, migs[1..], applied, db)
      else
        var (next, error) := ApplyUp(digest, exec, db, m);
        if error.Some? then Result(db, [], error)
        else
          var rest := UpFrom(digest, exec, migs[1..], applied, next);
          rest.(run := [m.version] + rest.run)
  }

  function Up<T>(digest: string -> string, exec: (string, T) -> Option<T>, migs: seq<Migration>, db: Db<T>): Result<T> {
    UpFrom(digest, exec, migs, db.recorded, db)
  }

  // ---- Down ----

  function Lookup(migs: seq<Migration>, version: int): Option<Migration> {
    if migs == [] then None else if migs[0].version == version then Some(migs[0]) else Lookup(migs[1..], version)
  }

  function RevertOne<T>(
      exec: (string, T) -> Option<T>, migs: seq<Migration>, v: int, db: Db<T>): (Db<T>, Option<Error>) {
    match Lookup(migs, v)
    case None => (db, Some(FileMissing(v)))
    case Some(m) =>
      if Blank(m.down) then (db, Some(NoDownFile(v)))
      else match exec(m.down, db.schema)
        case None => (db, Some(ScriptFailed(v)))
        case Some(schema) => (Db(db.recorded - {v}, schema), None)
  }

  function DownFrom<T>(exec: (string, T) -> Option<T>, migs: seq<Migration>, versions: seq<int>, db: Db<T>): Result<T> {
    if versions == [] then Result(db, [], None)
    else
      var (next, error) := RevertOne(exec, migs, versions[0], db);
      if error.Some? then Result(db, [], error)
      else
        var rest := DownFrom(exec, migs, versions[1..], next);
        rest.(run := [versions[0]] + rest.run)
  }

  predicate NewestFirst(versions: seq<int>) {
    forall i, j | 0 <= i < j < |versions| :: versions[i] > versions[j]
  }

  predicate IsNewest(v: int, s: set<int>) {
    v in s && forall w | w in s :: w <= v
  }

  lemma SomeMember<E>(s: set<E>) returns (v: E)
    requires s != {}
    ensures v in s
  {
    v :| v in s;
  }

  lemma {:induction false} HasNewest(s: set<int>)
    requires |s| > 0
    ensures exists v :: IsNewest(v, s)
    decreases |s|
  {
    var v := SomeMember(s);
    var rest := s - {v};
    if |rest| == 0 {
      assert s == {v} && IsNewest(v, s);
    } else {
      HasNewest(rest);
      var w :| IsNewest(w, rest);
      assert forall x | x in s :: x == v || x in rest;
      assert IsNewest(if w > v then w else v, s);
    }
  }

  /** The recorded versions, newest first. */
  ghost function Descending(s: set<int>): (versions: seq<int>)
    ensures NewestFirst(versions) && (forall v :: v in versions <==> v in s) && |versions| == |s|
    decreases |s|
  {
    if |s| == 0 then []
    else
      HasNewest(s);
      var v :| IsNewest(v, s);
      var rest := Descending(s - {v});
      assert forall j | 0 <= j < |rest| :: rest[j] in s - {v};
      [v] + rest
  }

  ghost predicate SameMembers<E(!new)>(a: seq<E>, b: seq<E>) {
    forall v :: v in a <==> v in b
  }

  lemma SameMembersFirst<E(!new)>(a: seq<E>, b: seq<E>)
    requires SameMembers(a, b)
    ensures a == [] <==> b == []
    ensures a != [] ==> a[0] in b && b[0] in a
  {
    assert a == [] || a[0] in b;
    assert b == [] || b[0] in a;
  }

  lemma SameMembersRest<E(!new)>(a: seq<E>, b: seq<E>)
    requires SameMembers(a, b) && a != [] && b != [] && a[0] == b[0] && a[0] !in a[1..] && b[0] !in b[1..]
    ensures SameMembers(a[1..], b[1..])
  {
    forall v ensures v in a[1..] <==> v in b[1..] {
      assert v in a <==> v == a[0] || v in a[1..];
      assert v in b <==> v == b[0] || v in b[1..];
    }
  }

  lemma {:induction false} DescendingUnique(a: seq<int>, b: seq<int>)
    requires NewestFirst(a) && NewestFirst(b) && SameMembers(a, b)
    ensures a == b
  {
    SameMembersFirst(a, b);
    if a != [] {
      assert a[0] == b[0];
      SameMembersRest(a, b);
      DescendingUnique(a[1..], b[1..]);
    }
  }

  function Limit<E>(s: seq<E>, n: nat): seq<E> {
    if |s| <= n then s else s[..n]
  }

  ghost function Down<T>(exec: (string, T) -> Option<T>, migs: seq<Migration>, db: Db<T>, steps: int): Result<T> {
    if steps <= 0 then Result(db, [], Some(BadSteps))
    else DownFrom(exec, migs, Limit(Descending(db.recorded.Keys), steps), db)
  }

  // ---- What Up does ----

  function Pending(migs: seq<Migration>, applied: map<int, Row>): seq<Migration> {
    if migs == [] then [] else (if migs[0].version in applied then [] else [migs[0]]) + Pending(migs[1..], applied)
  }

  function Versions(migs: seq<Migration>): seq<int> {
    seq(|migs|, i requires 0 <= i < |migs| => migs[i].version)
  }

  function Record(digest: string -> string, recorded: map<int, Row>, migs: seq<Migration>): map<int, Row>
    decreases |migs|
  {
    if migs == [] then recorded else Record(digest, recorded[migs[0].version := RowOf(digest, migs[0])], migs[1..])
  }

  function ExecUps<T>(exec: (string, T) -> Option<T>, schema: T, migs: seq<Migration>): Option<T>
    decreases |migs|
  {
    if migs == [] then Some(schema)
    else match exec(migs[0].up, schema)
      case None => None
      case Some(next) => ExecUps(exec, next, migs[1..])
  }

  lemma OldestFirst(migs: seq<Migration>)
    requires Loaded(migs) && migs != []
    ensures Loaded(migs[1..])
    ensures forall x | x in migs[1..] :: x in migs && migs[0].version < x.version
    ensures forall x | x in migs :: x == migs[0] || x in migs[1..]
  {
    assert migs == [migs[0]] + migs[1..];
    forall x | x in migs[1..] ensures migs[0].version < x.version {
      var i :| 0 <= i < |migs| - 1 && migs[1..][i] == x;
      assert migs[i + 1] == x;
    }
  }

  lemma {:induction false} PendingMembers(migs: seq<Migration>, applied: map<int, Row>, m: Migration)
    ensures m in Pending(migs, applied) <==> m in migs && m.version !in applied
  {
    if migs != [] {
      PendingMembers(migs[1..], applied, m);
      assert m in migs <==> m == migs[0] || m in migs[1..];
    }
  }

  lemma {:induction false} PendingIsSublist(migs: seq<Migration>, applied: map<int, Row>)
    requires Loaded(migs)
    ensures Loaded(Pending(migs, applied))
    ensures forall m :: m in Pending(migs, applied) <==> m in migs && m.version !in applied
  {
    forall m ensures m in Pending(migs, applied) <==> m in migs && m.version !in applied {
      PendingMembers(migs, applied, m);
    }
    if migs != [] {
      OldestFirst(migs);
      PendingIsSublist(migs[1..], applied);
      var later := Pending(migs[1..], applied);
      forall i | 0 <= i < |later| ensures migs[0].version < later[i].version {
        assert later[i] in later;
      }
    }
  }

  /** db' is db with these migrations' scripts executed and recorded, in this order. */
  ghost predicate CarriedOut<T>(
      digest: string -> string, exec: (string, T) -> Option<T>, db: Db<T>, migs: seq<Migration>, db': Db<T>) {
    db'.recorded == Record(digest, db.recorded, migs) && ExecUps(exec, db.schema, migs) == Some(db'.schema)
  }

  lemma CarriedOutFirst<T>(
      digest: string -> string, exec: (string, T) -> Option<T>, db: Db<T>, m: Migration, rest: seq<Migration>,
      db': Db<T>)
    requires ApplyUp(digest, exec, db, m).1.None?
    requires CarriedOut(digest, exec, ApplyUp(digest, exec, db, m).0, rest, db')
    ensures CarriedOut(digest, exec, db, [m] + rest, db')
  {
    assert ([m] + rest)[1..] == rest;
  }

  predicate FilesUnedited(digest: string -> string, migs: seq<Migration>, applied: map<int, Row>) {
    forall m | m in migs && m.version in applied :: Checksum(digest, m.up) == applied[m.version].checksum
  }

  ghost predicate PrefixCarriedOut<T>(
      digest: string -> string, exec: (string, T) -> Option<T>, migs: seq<Migration>, applied: map<int, Row>,
      db: Db<T>, r: Result<T>)
  {
    var pending := Pending(migs, applied);
    && |r.run| <= |pending| && r.run == Versions(pending[..|r.run|])
    && CarriedOut(digest, exec, db, pending[..|r.run|], r.db)
    && (r.error.None? ==> |r.run| == |pending| && FilesUnedited(digest, migs, applied))
    && (r.error.Some? ==> !r.error.value.AlreadyRecorded?)
  }

  lemma SkipKeepsPrefix<T>(
      digest: string -> string, exec: (string, T) -> Option<T>, migs: seq<Migration>, applied: map<int, Row>,
      db: Db<T>, r: Result<T>)
    requires migs != [] && migs[0].version in applied
    requires Checksum(digest, migs[0].up) == applied[migs[0].version].checksum
    requires PrefixCarriedOut(digest, exec, migs[1..], applied, db, r)
    ensures PrefixCarriedOut(digest, exec, migs, applied, db, r)
  {
    assert Pending(migs, applied) == Pending(migs[1..], applied);
    assert forall m | m in migs :: m == migs[0] || m in migs[1..];
  }

  lemma ApplyKeepsPrefix<T>(
      digest: string -> string, exec: (string, T) -> Option<T>, migs: seq<Migration>, applied: map<int, Row>,
      db: Db<T>, r: Result<T>)
    requires migs != [] && migs[0].version !in applied && ApplyUp(digest, exec, db, migs[0]).1.None?
    requires PrefixCarriedOut(digest, exec, migs[1..], applied, ApplyUp(digest, exec, db, migs[0]).0, r)
    ensures PrefixCarriedOut(digest, exec, migs, applied, db, r.(run := [migs[0].version] + r.run))
  {
    var later, n := Pending(migs[1..], applied), |r.run|;
    assert Pending(migs, applied) == [migs[0]] + later;
    assert ([migs[0]] + later)[..n + 1] == [migs[0]] + later[..n];
    CarriedOutFirst(digest, exec, db, migs[0], later[..n], r.db);
    assert Versions([migs[0]] + later[..n]) == [migs[0].version] + Versions(later[..n]);
    assert forall m | m in migs :: m == migs[0] || m in migs[1..];
  }

  /** However Up ends, it has carried out a prefix of the pending migrations, oldest first, scripts and records alike.
      It ends without error only when that prefix is all of them and no recorded file was edited. */
  lemma {:induction false} UpCarriesOutPendingPrefix<T>(
      digest: string -> string, exec: (string, T) -> Option<T>, migs: seq<Migration>, applied: map<int, Row>, db: Db<T>)
    requires Loaded(migs)
    requires forall m | m in migs :: m.version in db.recorded <==> m.version in applied
    ensures PrefixCarriedOut(digest, exec, migs, applied, db, UpFrom(digest, exec, migs, applied, db))
    decreases |migs|
  {
    if migs != [] {
      var m := migs[0];
      OldestFirst(migs);
      if m.version !in applied {
        var (next, error) := ApplyUp(digest, exec, db, m);
        if error.None? {
          UpCarriesOutPendingPrefix(digest, exec, migs[1..], applied, next);
          ApplyKeepsPrefix(digest, exec, migs, applied, db, UpFrom(digest, exec, migs[1..], applied, next));
        }
      } else if Checksum(digest, m.up) == applied[m.version].checksum {
        UpCarriesOutPendingPrefix(digest, exec, migs[1..], applied, db);
        SkipKeepsPrefix(digest, exec, migs, applied, db, UpFrom(digest, exec, migs[1..], applied, db));
      }
    }
  }

  // ---- When Up succeeds, and that a second Up does nothing ----

  lemma UneditedFirst(digest: string -> string, migs: seq<Migration>, applied: map<int, Row>)
    requires Loaded(migs) && migs != []
    ensures FilesUnedited(digest, migs, applied) <==>
      && (migs[0].version in applied ==> Checksum(digest, migs[0].up) == applied[migs[0].version].checksum)
      && FilesUnedited(digest, migs[1..], applied)
  {
    OldestFirst(migs);
  }

  /** Up ends without error exactly when no recorded file was edited and every pending script runs. */
  lemma {:induction false} UpSucceedsIff<T>(
      digest: string -> string, exec: (string, T) -> Option<T>, migs: seq<Migration>, applied: map<int, Row>, db: Db<T>)
    requires Loaded(migs)
    requires forall m | m in migs :: m.version in db.recorded <==> m.version in applied
    ensures UpFrom(digest, exec, migs, applied, db).error.None?
      <==> FilesUnedited(digest, migs, applied) && ExecUps(exec, db.schema, Pending(migs, applied)).Some?
    decreases |migs|
  {
    if migs != [] {
      var m, later := migs[0], migs[1..];
      OldestFirst(migs);
      UneditedFirst(digest, migs, applied);
      if m.version in applied {
        assert Pending(migs, applied) == Pending(later, applied);
        UpSucceedsIff(digest, exec, later, applied, db);
      } else {
        assert Pending(migs, applied) == [m] + Pending(later, applied);
        assert ([m] + Pending(later, applied))[1..] == Pending(later, applied);
        var (next, error) := ApplyUp(digest, exec, db, m);
        if error.None? {
          UpSucceedsIff(digest, exec, later, applied, next);
        }
      }
    }
  }

  lemma {:induction false} RecordAdds(digest: string -> string, recorded: map<int, Row>, migs: seq<Migration>)
    requires Loaded(migs)
    ensures forall m | m in migs ::
      m.version in Record(digest, recorded, migs) && Record(digest, recorded, migs)[m.version] == RowOf(digest, m)
    ensures forall v ::
      v in Record(digest, recorded, migs) <==> v in recorded || exists m :: m in migs && m.version == v
    ensures forall v | v in recorded && (forall m | m in migs :: m.version != v) ::
      Record(digest, recorded, migs)[v] == recorded[v]
    decreases |migs|
  {
    if migs != [] {
      var m, later := migs[0], migs[1..];
      OldestFirst(migs);
      RecordAdds(digest, recorded[m.version := RowOf(digest, m)], later);
    }
  }

  /** After an Up without error every file is recorded with its own checksum, older rows are untouched, and the
      next Up applies nothing and changes nothing. */
  lemma SecondUpAppliesNothing<T>(
      digest: string -> string, exec: (string, T) -> Option<T>, migs: seq<Migration>, db: Db<T>)
    requires Loaded(migs) && Up(digest, exec, migs, db).error.None?
    ensures var db' := Up(digest, exec, migs, db).db;
      && AllRecorded(digest, migs, db'.recorded)
      && (forall v | v in db.recorded :: v in db'.recorded && db'.recorded[v] == db.recorded[v])
      && Up(digest, exec, migs, db') == Result(db', [], None)
  {
    var r := Up(digest, exec, migs, db);
    var pending := Pending(migs, db.recorded);
    UpCarriesOutPendingPrefix(digest, exec, migs, db.recorded, db);
    assert pending[..|r.run|] == pending;
    RecordingPendingCompletes(digest, migs, db.recorded);
    UpOfAllRecorded(digest, exec, migs, r.db.recorded, r.db);
  }

  ghost predicate AllRecorded(digest: string -> string, migs: seq<Migration>, recorded: map<int, Row>) {
    forall m | m in migs :: m.version in recorded && recorded[m.version].checksum == Checksum(digest, m.up)
  }

  lemma RecordingPendingCompletes(digest: string -> string, migs: seq<Migration>, recorded: map<int, Row>)
    requires Loaded(migs) && FilesUnedited(digest, migs, recorded)
    ensures var recorded' := Record(digest, recorded, Pending(migs, recorded));
      AllRecorded(digest, migs, recorded') && forall v | v in recorded :: v in recorded' && recorded'[v] == recorded[v]
  {
    PendingIsSublist(migs, recorded);
    RecordAdds(digest, recorded, Pending(migs, recorded));
    assert forall m | m in migs :: m.version in recorded || m in Pending(migs, recorded);
  }

  lemma {:induction false} UpOfAllRecorded<T>(
      digest: string -> string, exec: (string, T) -> Option<T>, migs: seq<Migration>, applied: map<int, Row>, db: Db<T>)
    requires AllRecorded(digest, migs, applied)
    ensures UpFrom(digest, exec, migs, applied, db) == Result(db, [], None)
  {
    if migs != [] {
      assert migs[0] in migs;
      assert forall x | x in migs[1..] :: x in migs;
      UpOfAllRecorded(digest, exec, migs[1..], applied, db);
    }
  }

  // ---- What Down does ----

  ghost predicate PrefixReverted<T>(versions: seq<int>, db: Db<T>, r: Result<T>) {
    && |r.run| <= |versions| && r.run == versions[..|r.run|]
    && r.db.recorded == db.recorded - Reverted(r.run)
    && (r.error.None? ==> r.run == versions)
  }

  function Reverted<E>(run: seq<E>): set<E> {
    set v | v in run
  }

  lemma RevertedFirst<K, V>(recorded: map<K, V>, v: K, rest: seq<K>)
    ensures recorded - Reverted([v] + rest) == recorded - {v} - Reverted(rest)
  {
    assert Reverted([v] + rest) == {v} + Reverted(rest);
  }

  /** However Down ends, it has reverted a prefix of the newest versions asked for and taken exactly those off the
      record. */
  lemma {:induction false} DownRevertsPrefix<T>(
      exec: (string, T) -> Option<T>, migs: seq<Migration>, versions: seq<int>, db: Db<T>)
    ensures PrefixReverted(versions, db, DownFrom(exec, migs, versions, db))
    decreases |versions|
  {
    if versions != [] {
      var (next, error) := RevertOne(exec, migs, versions[0], db);
      if error.None? {
        DownRevertsPrefix(exec, migs, versions[1..], next);
        var rest := DownFrom(exec, migs, versions[1..], next);
        RevertedFirst(db.recorded, versions[0], rest.run);
        assert versions[..|rest.run| + 1] == [versions[0]] + versions[1..][..|rest.run|];
        assert versions == [versions[0]] + versions[1..];
      }
    }
  }

  lemma LimitKeepsFront<E>(s: seq<E>, k: nat, n: nat)
    requires n <= |Limit(s, k)|
    ensures n <= |s| && n <= k && Limit(s, k)[..n] == s[..n]
  {
  }

  lemma DownRevertsNewest<T>(exec: (string, T) -> Option<T>, migs: seq<Migration>, db: Db<T>, steps: int)
    requires steps > 0
    ensures var r, newest := Down(exec, migs, db, steps), Descending(db.recorded.Keys);
      && |r.run| <= steps && |r.run| <= |newest| && r.run == newest[..|r.run|]
      && r.db.recorded == db.recorded - Reverted(r.run)
      && (r.error.None? ==> |r.run| == if |db.recorded| < steps then |db.recorded| else steps)
  {
    var newest := Descending(db.recorded.Keys);
    DownRevertsPrefix(exec, migs, Limit(newest, steps), db);
    LimitKeepsFront(newest, steps, |Down(exec, migs, db, steps).run|);
  }

  lemma {:induction false} DownFromHasSteps<T>(
      exec: (string, T) -> Option<T>, migs: seq<Migration>, versions: seq<int>, db: Db<T>)
    ensures DownFrom(exec, migs, versions, db).error != Some(BadSteps)
    decreases |versions|
  {
    if versions != [] && RevertOne(exec, migs, versions[0], db).1.None? {
      DownFromHasSteps(exec, migs, versions[1..], RevertOne(exec, migs, versions[0], db).0);
    }
  }

  /** Down refuses a number of steps exactly when it is not positive, and then touches nothing. */
  lemma BadStepsIff<T>(exec: (string, T) -> Option<T>, migs: seq<Migration>, db: Db<T>, steps: int)
    ensures Down(exec, migs, db, steps).error == Some(BadSteps) <==> steps <= 0
    ensures steps <= 0 ==> Down(exec, migs, db, steps).db == db && Down(exec, migs, db, steps).run == []
  {
    if steps > 0 {
      DownFromHasSteps(exec, migs, Limit(Descending(db.recorded.Keys), steps), db);
    }
  }

  // ---- Down then Up ----

  lemma {:induction false} ExecUpsAppend<T>(
      exec: (string, T) -> Option<T>, schema: T, a: seq<Migration>, b: seq<Migration>)
    ensures ExecUps(exec, schema, a + b) ==
      match ExecUps(exec, schema, a) case None => None case Some(mid) => ExecUps(exec, mid, b)
    decreases |a|
  {
    if a == [] {
      assert a + b == b;
    } else {
      assert (a + b)[1..] == a[1..] + b;
      match exec(a[0].up, schema)
      case None =>
      case Some(next) => ExecUpsAppend(exec, next, a[1..], b);
    }
  }

  lemma {:induction false} RecordAppend(
      digest: string -> string, recorded: map<int, Row>, a: seq<Migration>, b: seq<Migration>)
    ensures Record(digest, recorded, a + b) == Record(digest, Record(digest, recorded, a), b)
    decreases |a|
  {
    if a == [] {
      assert a + b == b;
    } else {
      assert (a + b)[1..] == a[1..] + b;
      RecordAppend(digest, recorded[a[0].version := RowOf(digest, a[0])], a[1..], b);
    }
  }

  lemma {:induction false} LookupFinds(migs: seq<Migration>, i: nat)
    requires Loaded(migs) && i < |migs|
    ensures Lookup(migs, migs[i].version) == Some(migs[i])
  {
    if i > 0 {
      LookupFinds(migs[1..], i - 1);
    }
  }

  /** The state reached by applying the first j migrations to an empty record and the schema s0. */
  ghost predicate AppliedInOrder<T>(
      digest: string -> string, exec: (string, T) -> Option<T>, migs: seq<Migration>, s0: T, j: nat, db: Db<T>)
    requires j <= |migs|
  {
    db.recorded == Record(digest, map[], migs[..j]) && ExecUps(exec, s0, migs[..j]) == Some(db.schema)
  }

  /** The migrations from number k on have down scripts that undo their up scripts. */
  ghost predicate ReversibleFrom<T(!new)>(exec: (string, T) -> Option<T>, migs: seq<Migration>, k: nat) {
    forall i | k <= i < |migs| :: !Blank(migs[i].down) && Undoes(exec, migs[i])
  }

  ghost predicate Undoes<T(!new)>(exec: (string, T) -> Option<T>, m: Migration) {
    forall x, y: T :: exec(m.up, x) == Some(y) ==> exec(m.down, y) == Some(x)
  }

  lemma OneStepBack<T(!new)>(
      digest: string -> string, exec: (string, T) -> Option<T>, migs: seq<Migration>, s0: T, j: nat, db: Db<T>)
    returns (prior: Db<T>)
    requires Loaded(migs) && 1 <= j <= |migs| && Undoes(exec, migs[j - 1])
    requires AppliedInOrder(digest, exec, migs, s0, j, db)
    ensures AppliedInOrder(digest, exec, migs, s0, j - 1, prior)
    ensures prior.recorded == db.recorded - {migs[j - 1].version}
    ensures exec(migs[j - 1].down, db.schema) == Some(prior.schema)
  {
    var m, before := migs[j - 1], migs[..j - 1];
    assert migs[..j] == before + [m];
    ExecUpsAppend(exec, s0, before, [m]);
    RecordAppend(digest, map[], before, [m]);
    var x := ExecUps(exec, s0, before).value;
    assert [m][1..] == [];
    assert exec(m.up, x) == Some(db.schema);
    prior := Db(Record(digest, map[], before), x);
    RecordAdds(digest, map[], before);
    assert m.version !in prior.recorded;
  }

  function NewestOf(migs: seq<Migration>, j: nat, k: nat): seq<int>
    requires k <= j <= |migs|
  {
    seq(j - k, i requires 0 <= i < j - k => migs[j - 1 - i].version)
  }

  lemma NewestOfStep(migs: seq<Migration>, j: nat, k: nat)
    requires k < j <= |migs|
    ensures NewestOf(migs, j, k) == [migs[j - 1].version] + NewestOf(migs, j - 1, k)
  {
  }

  lemma DownFromFirst<T>(
      exec: (string, T) -> Option<T>, migs: seq<Migration>, v: int, rest: seq<int>, db: Db<T>, next: Db<T>)
    requires RevertOne(exec, migs, v, db) == (next, None)
    ensures var r := DownFrom(exec, migs, rest, next);
      DownFrom(exec, migs, [v] + rest, db) == r.(run := [v] + r.run)
  {
    assert ([v] + rest)[1..] == rest;
  }

  lemma {:induction false} StepsBack<T(!new)>(
      digest: string -> string, exec: (string, T) -> Option<T>, migs: seq<Migration>, s0: T, j: nat, k: nat, db: Db<T>)
    requires k <= j <= |migs| && Loaded(migs) && ReversibleFrom(exec, migs, k)
    requires AppliedInOrder(digest, exec, migs, s0, j, db)
    ensures var r := DownFrom(exec, migs, NewestOf(migs, j, k), db);
      r.error.None? && r.run == NewestOf(migs, j, k) && AppliedInOrder(digest, exec, migs, s0, k, r.db)
    decreases j
  {
    if k < j {
      var prior := OneStepBack(digest, exec, migs, s0, j, db);
      LookupFinds(migs, j - 1);
      assert RevertOne(exec, migs, migs[j - 1].version, db) == (prior, None);
      NewestOfStep(migs, j, k);
      DownFromFirst(exec, migs, migs[j - 1].version, NewestOf(migs, j - 1, k), db, prior);
      StepsBack(digest, exec, migs, s0, j - 1, k, prior);
    }
  }

  lemma InNewestOf(migs: seq<Migration>, v: int)
    ensures v in NewestOf(migs, |migs|, 0) <==> exists m :: m in migs && m.version == v
  {
    var newest := NewestOf(migs, |migs|, 0);
    if v in newest {
      var i :| 0 <= i < |newest| && newest[i] == v;
      assert migs[|migs| - 1 - i] in migs;
    }
    if m :| m in migs && m.version == v {
      var i :| 0 <= i < |migs| && migs[i] == m;
      assert newest[|migs| - 1 - i] == v;
    }
  }

  lemma NewestOfDescends(migs: seq<Migration>)
    requires Loaded(migs)
    ensures NewestFirst(NewestOf(migs, |migs|, 0))
  {
  }

  lemma RecordedMembers(digest: string -> string, migs: seq<Migration>, v: int)
    requires Loaded(migs)
    ensures v in Record(digest, map[], migs) <==> v in NewestOf(migs, |migs|, 0)
  {
    RecordAdds(digest, map[], migs);
    InNewestOf(migs, v);
  }

  lemma RecordedVersions(digest: string -> string, migs: seq<Migration>)
    requires Loaded(migs)
    ensures Descending(Record(digest, map[], migs).Keys) == NewestOf(migs, |migs|, 0)
  {
    var keys := Record(digest, map[], migs).Keys;
    forall v ensures v in Descending(keys) <==> v in NewestOf(migs, |migs|, 0) {
      RecordedMembers(digest, migs, v);
      assert v in keys <==> v in Record(digest, map[], migs);
    }
    NewestOfDescends(migs);
    DescendingUnique(Descending(keys), NewestOf(migs, |migs|, 0));
  }

  lemma NewestLimited(migs: seq<Migration>, steps: nat, k: nat)
    requires k == if steps < |migs| then |migs| - steps else 0
    ensures Limit(NewestOf(migs, |migs|, 0), steps) == NewestOf(migs, |migs|, k)
  {
  }

  /** With nothing pending, versions applied in order and down scripts that undo the newest min(n, applied), Down(n)
      reverts those and the following Up restores the record, checksums included, and the schema. */
  lemma DownThenUpRestores<T(!new)>(
      digest: string -> string, exec: (string, T) -> Option<T>, migs: seq<Migration>, s0: T, db: Db<T>, steps: int)
    requires Loaded(migs) && steps > 0 && AppliedInOrder(digest, exec, migs, s0, |migs|, db)
    requires ReversibleFrom(exec, migs, if steps < |migs| then |migs| - steps else 0)
    ensures var k := if steps < |migs| then |migs| - steps else 0;
      var down := Down(exec, migs, db, steps);
      && down.error.None? && down.run == NewestOf(migs, |migs|, k)
      && Up(digest, exec, migs, down.db) == Result(db, Versions(migs[k..]), None)
  {
    var n := |migs|;
    var k := if steps < n then n - steps else 0;
    assert db.recorded == Record(digest, map[], migs) by {
      assert migs[..n] == migs;
    }
    RecordedVersions(digest, migs);
    NewestLimited(migs, steps, k);
    StepsBack(digest, exec, migs, s0, n, k, db);
    var down := Down(exec, migs, db, steps);
    assert down == DownFrom(exec, migs, NewestOf(migs, n, k), db);
    UpRestores(digest, exec, migs, s0, k, down.db, db);
  }

  /** Once the first k are recorded, the rest is pending and no recorded file differs. */
  lemma PrefixRecorded(digest: string -> string, migs: seq<Migration>, k: nat)
    requires Loaded(migs) && k <= |migs|
    ensures var recorded := Record(digest, map[], migs[..k]);
      Pending(migs, recorded) == migs[k..] && FilesUnedited(digest, migs, recorded)
  {
    var recorded := Record(digest, map[], migs[..k]);
    RecordAdds(digest, map[], migs[..k]);
    PendingAfterPrefix(migs, k, recorded);
    forall m | m in migs && m.version in recorded ensures recorded[m.version] == RowOf(digest, m) {
      var x :| x in migs[..k] && x.version == m.version;
      SameVersionSame(migs, m, x);
    }
  }

  /** Carrying out the migrations from k on leads from the state after the first k to the state after all. */
  lemma RestCarriesOn<T>(
      digest: string -> string, exec: (string, T) -> Option<T>, migs: seq<Migration>, s0: T, k: nat, mid: Db<T>,
      db: Db<T>)
    requires k <= |migs| && AppliedInOrder(digest, exec, migs, s0, k, mid)
    requires AppliedInOrder(digest, exec, migs, s0, |migs|, db)
    ensures CarriedOut(digest, exec, mid, migs[k..], db)
  {
    assert migs[..|migs|] == migs == migs[..k] + migs[k..];
    ExecUpsAppend(exec, s0, migs[..k], migs[k..]);
    RecordAppend(digest, map[], migs[..k], migs[k..]);
  }

  lemma UpRestores<T(!new)>(
      digest: string -> string, exec: (string, T) -> Option<T>, migs: seq<Migration>, s0: T, k: nat, mid: Db<T>,
      db: Db<T>)
    requires Loaded(migs) && k <= |migs|
    requires AppliedInOrder(digest, exec, migs, s0, k, mid) && AppliedInOrder(digest, exec, migs, s0, |migs|, db)
    ensures Up(digest, exec, migs, mid) == Result(db, Versions(migs[k..]), None)
  {
    RestCarriesOn(digest, exec, migs, s0, k, mid, db);
    PrefixRecorded(digest, migs, k);
    UpSucceedsIff(digest, exec, migs, mid.recorded, mid);
    UpCarriesOutPendingPrefix(digest, exec, migs, mid.recorded, mid);
    assert migs[k..][..|migs| - k] == migs[k..];
  }

  lemma SameVersionSame(migs: seq<Migration>, m: Migration, x: Migration)
    requires Loaded(migs) && m in migs && x in migs && m.version == x.version
    ensures m == x
  {
    var i :| 0 <= i < |migs| && migs[i] == m;
    var j :| 0 <= j < |migs| && migs[j] == x;
    if i < j {
      assert migs[i].version < migs[j].version;
    } else if j < i {
      assert migs[j].version < migs[i].version;
    }
  }

  lemma {:induction false} PendingAfterPrefix(migs: seq<Migration>, k: nat, applied: map<int, Row>)
    requires Loaded(migs) && k <= |migs|
    requires forall v :: v in applied <==> exists m :: m in migs[..k] && m.version == v
    ensures Pending(migs, applied) == migs[k..]
  {
    forall i | 0 <= i < |migs| ensures migs[i].version in applied <==> i < k {
      if i < k {
        assert migs[i] in migs[..k];
      }
    }
    PendingSplit(migs, k, applied);
  }

  lemma {:induction false} PendingSplit(migs: seq<Migration>, k: nat, applied: map<int, Row>)
    requires k <= |migs| && forall i | 0 <= i < |migs| :: migs[i].version in applied <==> i < k
    ensures Pending(migs, applied) == migs[k..]
  {
    if migs != [] {
      PendingSplit(migs[1..], if k == 0 then 0 else k - 1, applied);
      assert k > 0 ==> migs[1..][k - 1..] == migs[k..];
      assert k == 0 ==> [migs[0]] + migs[1..] == migs;
    }
  }
}
