/** The Migrator object: load, Up and Down as the loops they are, proved against the functions of Migrations. */
module Migrator {
  import opened Migrations
  import opened MigrationNames

  // ---- Reading the directory ----

  datatype Loading = Files(migs: seq<Migration>) | BadName(file: string) | NoUpFile(version: int)

  function Classified(dir: seq<DirEntry>): seq<Entry> {
    seq(|dir|, i requires 0 <= i < |dir| => Classify(dir[i]))
  }

  function WithScript(byVersion: map<int, Migration>, e: Entry): map<int, Migration>
    requires e.Script?
  {
    var m := if e.version in byVersion then byVersion[e.version] else Migration(e.version, e.name, "", "");
    byVersion[e.version := if e.isUp then m.(up := e.body) else m.(down := e.body)]
  }

  /** The map after the first n directory entries. */
  function Paired(entries: seq<Entry>, n: nat): map<int, Migration>
    requires n <= |entries|
  {
    if n == 0 then map[]
    else if entries[n - 1].Script? then WithScript(Paired(entries, n - 1), entries[n - 1])
    else Paired(entries, n - 1)
  }

  /** The body of the last file of this version and direction, "" without one. */
  function LastBody(entries: seq<Entry>, n: nat, version: int, isUp: bool): string
    requires n <= |entries|
  {
    if n == 0 then ""
    else
      var e := entries[n - 1];
      if e.Script? && e.version == version && e.isUp == isUp then e.body else LastBody(entries, n - 1, version, isUp)
  }

  predicate HasFile(entries: seq<Entry>, n: nat, version: int)
    requires n <= |entries|
  {
    exists i | 0 <= i < n :: entries[i].Script? && entries[i].version == version
  }

  /** Up and down files of one version end up in one migration; versions without files get none. */
  lemma {:induction false} PairedHolds(entries: seq<Entry>, n: nat, v: int)
    requires n <= |entries|
    ensures v in Paired(entries, n) <==> HasFile(entries, n, v)
    ensures v in Paired(entries, n) ==>
      var m := Paired(entries, n)[v];
      m.version == v && m.up == LastBody(entries, n, v, true) && m.down == LastBody(entries, n, v, false)
    ensures v !in Paired(entries, n) ==> LastBody(entries, n, v, true) == LastBody(entries, n, v, false) == ""
  {
    if n > 0 {
      PairedHolds(entries, n - 1, v);
    }
  }

  /** A migration is called what the first file of its version is called. */
  lemma {:induction false} NamedByFirstFile(entries: seq<Entry>, n: nat, i: nat)
    requires i < n <= |entries| && entries[i].Script? && !HasFile(entries, i, entries[i].version)
    ensures var v := entries[i].version; v in Paired(entries, n) && Paired(entries, n)[v].name == entries[i].name
  {
    if n == i + 1 {
      PairedHolds(entries, i, entries[i].version);
    } else {
      NamedByFirstFile(entries, n - 1, i);
    }
  }

  method Pick<E>(s: set<E>) returns (e: E)
    requires s != {}
    ensures e in s
  {
    e :| e in s;
  }

  method Smallest(versions: set<int>) returns (least: int)
    requires versions != {}
    ensures least in versions && forall v | v in versions :: least <= v
  {
    least := Pick(versions);
    var unseen := versions - {least};
    while unseen != {}
      invariant unseen <= versions && least in versions
      invariant forall v | v in versions && v !in unseen :: least <= v
      decreases unseen
    {
      var v := Pick(unseen);
      unseen := unseen - {v};
      if v < least {
        least := v;
      }
    }
  }

  ghost predicate Pairs(entries: seq<Entry>, migs: seq<Migration>) {
    forall m :: m in migs <==> m.version in Paired(entries, |entries|) && Paired(entries, |entries|)[m.version] == m
  }

  predicate Complete(entries: seq<Entry>, version: int) {
    !Blank(LastBody(entries, |entries|, version, true))
  }

  /** One migration per version, oldest first, exactly when every name is in order and every version has an up
      script. */
  method Load(dir: seq<DirEntry>) returns (loading: Loading)
    ensures loading.BadName? <==> SomeRefused(Classified(dir), |dir|)
    ensures loading.BadName? ==> Refused(loading.file) in Classified(dir)
    ensures loading.NoUpFile? ==>
      HasFile(Classified(dir), |dir|, loading.version) && !Complete(Classified(dir), loading.version)
    ensures loading.Files? ==> Loaded(loading.migs) && Pairs(Classified(dir), loading.migs)
    ensures loading.Files? ==> forall v :: HasFile(Classified(dir), |dir|, v) ==> Complete(Classified(dir), v)
  {
    ghost var entries := Classified(dir);
    var byVersion: map<int, Migration> := map[];
    for i := 0 to |dir|
      invariant byVersion == Paired(entries, i) && !SomeRefused(entries, i)
    {
      var entry := Classify(dir[i]);
      Reading(entries, i, entry);
      if entry.Refused? {
        assert entries[i] in entries;
        return BadName(entry.file);
      } else if entry.Script? {
        byVersion := WithScript(byVersion, entry);
      }
    }
    loading := Collect(entries, byVersion);
  }

  predicate SomeRefused(entries: seq<Entry>, n: nat)
    requires n <= |entries|
  {
    exists i | 0 <= i < n :: entries[i].Refused?
  }

  lemma Reading(entries: seq<Entry>, i: nat, entry: Entry)
    requires i < |entries| && entries[i] == entry && !SomeRefused(entries, i)
    ensures SomeRefused(entries, i + 1) <==> entry.Refused?
    ensures entry.Refused? ==> SomeRefused(entries, |entries|)
    ensures Paired(entries, i + 1) == if entry.Script? then WithScript(Paired(entries, i), entry)
      else Paired(entries, i)
  {
    if entry.Refused? {
      assert entries[i].Refused?;
    }
  }

  method Collect(ghost entries: seq<Entry>, byVersion: map<int, Migration>) returns (loading: Loading)
    requires byVersion == Paired(entries, |entries|)
    ensures !loading.BadName?
    ensures loading.NoUpFile? ==> HasFile(entries, |entries|, loading.version) && !Complete(entries, loading.version)
    ensures loading.Files? ==> Loaded(loading.migs) && Pairs(entries, loading.migs)
    ensures loading.Files? ==> forall v :: HasFile(entries, |entries|, v) ==> Complete(entries, v)
  {
    forall v ensures v in byVersion ==> byVersion[v].version == v {
      PairedHolds(entries, |entries|, v);
    }
    var migs: seq<Migration> := [];
    var left := byVersion.Keys;
    while left != {}
      invariant left <= byVersion.Keys && Loaded(migs)
      invariant forall m :: m in migs <==> m.version in byVersion && m.version !in left && byVersion[m.version] == m
      invariant forall m, v | m in migs && v in left :: m.version < v
      invariant forall m | m in migs :: !Blank(m.up)
      decreases left
    {
      var v := Smallest(left);
      var m := byVersion[v];
      PairedHolds(entries, |entries|, v);
      if Blank(m.up) {
        return NoUpFile(v);
      }
      migs := migs + [m];
      left := left - {v};
    }
    forall v | HasFile(entries, |entries|, v) ensures Complete(entries, v) {
      PairedHolds(entries, |entries|, v);
      assert byVersion[v] in migs;
    }
    return Files(migs);
  }

  // ---- Line endings ----

  function ToCRLF(s: string): string {
    if s == "" then "" else (if s[0] == '\n' then "\r\n" else [s[0]]) + ToCRLF(s[1..])
  }

  /** A file checked out with CRLF has the checksum of the same file with LF. */
  lemma {:induction false} LineEndingsIgnored(digest: string -> string, s: string)
    requires '\r' !in s
    ensures Normalised(ToCRLF(s)) == Normalised(s) == s
    ensures Checksum(digest, ToCRLF(s)) == Checksum(digest, s)
  {
    if s != "" {
      LineEndingsIgnored(digest, s[1..]);
      var rest := ToCRLF(s[1..]);
      assert s[0] in s;
      if s[0] == '\n' {
        assert ToCRLF(s)[2..] == rest;
      } else {
        assert ToCRLF(s)[1..] == rest;
      }
    }
  }

  // ---- The object ----

  class Migrator<T> {
    const digest: string -> string
    const exec: (string, T) -> Option<T>
    const migs: seq<Migration>
    var recorded: map<int, Row>
    var schema: T

    ghost function Contents(): Db<T>
      reads this
    {
      Db(recorded, schema)
    }

    constructor (
        digest: string -> string, exec: (string, T) -> Option<T>, migs: seq<Migration>, recorded: map<int, Row>,
        schema: T)
      ensures this.digest == digest && this.exec == exec && this.migs == migs && Contents() == Db(recorded, schema)
    {
      this.digest, this.exec, this.migs, this.recorded, this.schema := digest, exec, migs, recorded, schema;
    }

    /** One transaction: the script, then its row; a refused row rolls the script back. */
    method ApplyUp(m: Migration) returns (error: Option<Error>)
      modifies this
      ensures (Contents(), error) == Migrations.ApplyUp(digest, exec, old(Contents()), m)
      ensures error == Some(ScriptFailed(m.version)) <==> exec(m.up, old(schema)).None?
      ensures error == None <==> exec(m.up, old(schema)).Some? && m.version !in old(recorded)
      ensures error == None ==>
        && recorded == old(recorded)[m.version := Row(m.name, digest(Normalised(m.up)))]
        && Some(schema) == exec(m.up, old(schema))
      ensures error != None ==> Contents() == old(Contents())
    {
      var before := schema;
      var result := exec(m.up, schema);
      if result.None? {
        return Some(ScriptFailed(m.version));
      }
      schema := result.value;
      if m.version in recorded {
        schema := before;
        return Some(AlreadyRecorded(m.version));
      }
      recorded := recorded[m.version := Row(m.name, Checksum(digest, m.up))];
      return None;
    }

    method Up() returns (run: seq<int>, error: Option<Error>)
      modifies this
      ensures Result(Contents(), run, error) == Migrations.Up(digest, exec, migs, old(Contents()))
    {
      var applied := recorded;
      run := [];
      ghost var goal := Migrations.Up(digest, exec, migs, Contents());
      for i := 0 to |migs|
        invariant goal == Prefixed(run, UpFrom(digest, exec, migs[i..], applied, Contents()))
      {
        var m := migs[i];
        UpFromAt(digest, exec, migs, i, applied, Contents());
        if m.version in applied {
          if Checksum(digest, m.up) != applied[m.version].checksum {
            return run, Some(ChecksumMismatch(m.version));
          }
        } else {
          error := ApplyUp(m);
          if error.Some? {
            return run, error;
          }
          run := run + [m.version];
        }
      }
      return run, None;
    }

    /** Applied, newest first. */
    method AppliedNewestFirst() returns (rows: seq<int>)
      ensures rows == Descending(recorded.Keys)
    {
      rows := [];
      var left := recorded.Keys;
      while left != {}
        invariant left <= recorded.Keys && NewestFirst(rows)
        invariant forall v :: v in rows <==> v in recorded && v !in left
        invariant forall j, w | 0 <= j < |rows| && w in left :: rows[j] < w
        decreases left
      {
        var v := Smallest(left);
        rows := [v] + rows;
        left := left - {v};
      }
      DescendingUnique(rows, Descending(recorded.Keys));
    }

    /** The checks before a revert and the revert itself, one transaction. */
    method Revert(v: int) returns (error: Option<Error>)
      modifies this
      ensures (Contents(), error) == RevertOne(exec, migs, v, old(Contents()))
      ensures error.Some? ==> Contents() == old(Contents())
      ensures error.None? ==> recorded == old(recorded) - {v}
    {
      var found := Lookup(migs, v);
      if found.None? {
        return Some(FileMissing(v));
      }
      if Blank(found.value.down) {
        return Some(NoDownFile(v));
      }
      var result := exec(found.value.down, schema);
      if result.None? {
        return Some(ScriptFailed(v));
      }
      schema := result.value;
      recorded := recorded - {v};
      return None;
    }

    method RevertNewest(rows: seq<int>, steps: nat) returns (reverted: seq<int>, error: Option<Error>)
      modifies this
      ensures Result(Contents(), reverted, error) == DownFrom(exec, migs, Limit(rows, steps), old(Contents()))
    {
      reverted := [];
      ghost var asked := Limit(rows, steps);
      ghost var goal := DownFrom(exec, migs, asked, Contents());
      assert asked[0..] == asked;
      var i := 0;
      while i < |rows| && i < steps
        invariant 0 <= i <= |asked|
        invariant goal == Prefixed(reverted, DownFrom(exec, migs, asked[i..], Contents()))
      {
        assert rows[i] == asked[i];
        DownFromAt(exec, migs, asked, i, Contents());
        error := Revert(rows[i]);
        if error.Some? {
          return reverted, error;
        }
        PrefixedTwice(reverted, [rows[i]], DownFrom(exec, migs, asked[i + 1..], Contents()));
        reverted := reverted + [rows[i]];
        i := i + 1;
      }
      assert asked[i..] == [];
      return reverted, None;
    }

    method Down(steps: int) returns (reverted: seq<int>, error: Option<Error>)
      modifies this
      ensures Result(Contents(), reverted, error) == Migrations.Down(exec, migs, old(Contents()), steps)
    {
      if steps <= 0 {
        return [], Some(BadSteps);
      }
      var rows := AppliedNewestFirst();
      reverted, error := RevertNewest(rows, steps);
    }
  }

  lemma {:induction false} LookupAnswers(migs: seq<Migration>, v: int)
    ensures Lookup(migs, v).Some? ==> Lookup(migs, v).value in migs && Lookup(migs, v).value.version == v
    ensures Lookup(migs, v).None? <==> forall m | m in migs :: m.version != v
  {
    if migs != [] {
      LookupAnswers(migs[1..], v);
      assert forall m :: m in migs <==> m == migs[0] || m in migs[1..];
    }
  }

  /** A revert succeeds exactly when the version has a file with a down script that runs; then only that script has run
      and only that row is gone. On an error nothing has changed, and it says which of the three was missing. */
  lemma RevertAnswers<T>(exec: (string, T) -> Option<T>, migs: seq<Migration>, v: int, db: Db<T>)
    requires Loaded(migs)
    ensures var (db', error) := RevertOne(exec, migs, v, db);
      && (error.None? <==> exists m :: m in migs && Reverts(exec, m, v, db, db'))
      && (error.None? ==> db'.recorded == db.recorded - {v})
      && (error.Some? ==> db' == db)
      && (error == Some(FileMissing(v)) <==> forall m | m in migs :: m.version != v)
      && (error == Some(NoDownFile(v)) <==> exists m :: m in migs && m.version == v && Blank(m.down))
  {
    LookupAnswers(migs, v);
    if m :| m in migs && m.version == v {
      SameVersionSame(migs, m, Lookup(migs, v).value);
    }
  }

  ghost predicate Reverts<T>(exec: (string, T) -> Option<T>, m: Migration, v: int, db: Db<T>, db': Db<T>) {
    m.version == v && !Blank(m.down) && exec(m.down, db.schema).Some?
      && db' == Db(db.recorded - {v}, exec(m.down, db.schema).value)
  }

  lemma UpFromAt<T>(
      digest: string -> string, exec: (string, T) -> Option<T>, migs: seq<Migration>, i: nat,
      applied: map<int, Row>, db: Db<T>)
    requires i < |migs|
    ensures var m := migs[i];
      var (next, error) := Migrations.ApplyUp(digest, exec, db, m);
      UpFrom(digest, exec, migs[i..], applied, db) ==
        if m.version in applied then
          if Checksum(digest, m.up) != applied[m.version].checksum
          then Result(db, [], Some(ChecksumMismatch(m.version)))
          else UpFrom(digest, exec, migs[i + 1..], applied, db)
        else if error.Some? then Result(db, [], error)
        else Prefixed([m.version], UpFrom(digest, exec, migs[i + 1..], applied, next))
  {
    assert migs[i..][0] == migs[i] && migs[i..][1..] == migs[i + 1..];
  }

  lemma DownFromAt<T>(exec: (string, T) -> Option<T>, migs: seq<Migration>, versions: seq<int>, i: nat, db: Db<T>)
    requires i < |versions|
    ensures var (next, error) := RevertOne(exec, migs, versions[i], db);
      DownFrom(exec, migs, versions[i..], db)
        == if error.Some? then Result(db, [], error)
          else Prefixed([versions[i]], DownFrom(exec, migs, versions[i + 1..], next))
  {
    assert versions[i..][0] == versions[i] && versions[i..][1..] == versions[i + 1..];
  }

  lemma PrefixedTwice<T>(a: seq<int>, b: seq<int>, r: Result<T>)
    ensures Prefixed(a, Prefixed(b, r)) == Prefixed(a + b, r)
  {
    assert a + (b + r.run) == a + b + r.run;
  }

  function Prefixed<T>(run: seq<int>, r: Result<T>): Result<T> {
    r.(run := run + r.run)
  }
}
