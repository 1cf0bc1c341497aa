/** SessionRepository and the session flows of Service as objects, proved against the steps of Sessions. */
module SessionStore {
  import opened Runs
  import S = Sessions

  /** The presented token is stored, not revoked and not expired. */
  predicate Exchangeable(t: S.Table, presented: S.Hash, now: int) {
    && presented in t.index && t.index[presented] in t.rows
    && t.rows[t.index[presented]].revokedAt.None? && t.rows[t.index[presented]].expiresAt > now
  }

  class SessionRepository {
    var users: set<S.User>
    var rows: map<S.Id, S.Session>
    var index: map<S.Hash, S.Id>
    var logins: seq<S.Login>

    ghost function Contents(): S.Table
      reads this
    {
      S.Table(users, rows, index, logins)
    }

    constructor ()
      ensures Contents() == S.START.table
    {
      users, rows, index, logins := {}, map[], map[], [];
    }

    method Create(f: S.Fresh, now: int) returns (outcome: S.Outcome)
      modifies this
      ensures outcome == S.CreateOutcome(old(Contents()), f, now)
      ensures Contents() == S.Created(old(Contents()), f, now)
      ensures !outcome.Stored? ==> Contents() == old(Contents())
      ensures outcome.Stored? <==>
        f.id !in old(rows) && f.hash !in old(index) && f.user in users && f.expiresAt > now
      ensures outcome.Stored? ==>
        && f.id in rows && rows - {f.id} == old(rows)
        && rows[f.id].user == f.user && rows[f.id].hash == f.hash && rows[f.id].expiresAt == f.expiresAt
        && rows[f.id].revokedAt.None? && rows[f.id].replacedBy.None?
        && f.hash in index && index[f.hash] == f.id && index - {f.hash} == old(index)
        && S.LiveOf(Contents(), f.user) == S.LiveOf(old(Contents()), f.user) + {f.id}
    {
      if f.id in rows || f.hash in index || f.user !in users || f.expiresAt <= now {
        return S.Internal;
      }
      rows := rows[f.id := S.Session(f.user, f.hash, f.expiresAt, S.None, S.None, |logins|, 0)];
      index := index[f.hash := f.id];
      logins := logins + [S.Login(f.user, [f.id])];
      return S.Stored;
    }

    method ByHash(presented: S.Hash) returns (found: S.Option<S.Session>)
      ensures found.Some? <==> presented in index && index[presented] in rows
      ensures found.Some? ==> found.value == rows[index[presented]]
    {
      if presented in index && index[presented] in rows {
        found := S.Some(rows[index[presented]]);
      } else {
        found := S.None;
      }
    }

    /** One transaction: the replacement is inserted first, and rolled back when the guarded UPDATE matches no row. */
    method Rotate(presented: S.Hash, f: S.Fresh, now: int) returns (outcome: S.Outcome)
      modifies this
      ensures outcome == S.RotateOutcome(old(Contents()), presented, f, now)
      ensures Contents() == S.Rotated(old(Contents()), presented, f, now)
      ensures !outcome.Stored? ==> Contents() == old(Contents())
      ensures S.Indexed(old(Contents())) && presented != f.hash ==>
        (outcome.Stored? <==>
          && f.id !in old(rows) && f.hash !in old(index) && f.user in users && f.expiresAt > now
          && Exchangeable(old(Contents()), presented, now))
      ensures outcome.Stored? && S.Indexed(old(Contents())) && presented != f.hash ==>
        var prior := old(index)[presented];
        && rows.Keys == old(rows).Keys + {f.id} && rows - {f.id, prior} == old(rows) - {prior}
        && rows[prior] == old(rows)[prior].(revokedAt := S.Some(now), replacedBy := S.Some(f.id))
        && rows[f.id].user == f.user && rows[f.id].hash == f.hash && rows[f.id].expiresAt == f.expiresAt
        && rows[f.id].revokedAt.None? && rows[f.id].replacedBy.None?
    {
      if f.id in rows || f.hash in index || f.user !in users || f.expiresAt <= now {
        return S.Internal;
      }
      var savedRows, savedIndex := rows, index;
      var login, place := 0, 0;
      if presented in index && index[presented] in rows {
        login, place := rows[index[presented]].login, rows[index[presented]].place + 1;
      }
      rows := rows[f.id := S.Session(f.user, f.hash, f.expiresAt, S.None, S.None, login, place)];
      index := index[f.hash := f.id];
      if presented in index && index[presented] in rows && S.Active(rows[index[presented]], now) {
        var prior := index[presented];
        var n := rows[prior].login;
        rows := rows[prior := rows[prior].(revokedAt := S.Some(now), replacedBy := S.Some(f.id))];
        if n < |logins| {
          logins := logins[n := logins[n].(chain := logins[n].chain + [f.id])];
        }
        return S.Stored;
      }
      rows, index := savedRows, savedIndex;
      return S.Gone;
    }

    /** The presented session is revoked afterwards, if there is one, and keeps an earlier revocation; no other row
        moves. */
    method Revoke(presented: S.Hash, now: int)
      modifies this`rows
      ensures Contents() == S.Revoked(old(Contents()), presented, now)
      ensures rows.Keys == old(rows).Keys && S.OnlyRevokes(old(Contents()), Contents())
      ensures presented in index && index[presented] in rows ==>
        var k := index[presented]; var was := old(rows)[k];
        rows == old(rows)[k := was.(revokedAt := if was.revokedAt.None? then S.Some(now) else was.revokedAt)]
      ensures !(presented in index && index[presented] in rows) || old(rows)[index[presented]].revokedAt.Some? ==>
        rows == old(rows)
    {
      if presented in index && index[presented] in rows && rows[index[presented]].revokedAt.None? {
        var i := index[presented];
        rows := rows[i := rows[i].(revokedAt := S.Some(now))];
      }
    }

    method RevokeAllForUser(user: S.User, now: int) returns (revoked: nat)
      modifies this
      ensures Contents() == S.AllRevoked(old(Contents()), user, now)
      ensures revoked == |S.LiveOf(old(Contents()), user)|
      ensures S.LiveOf(Contents(), user) == {}
      ensures rows.Keys == old(rows).Keys && forall i | i in rows :: var was := old(rows)[i];
        rows[i] == if was.user == user && was.revokedAt.None? then was.(revokedAt := S.Some(now)) else was
    {
      S.AllRevokedLeavesNone(Contents(), user, now);
      var live := set i | i in rows && rows[i].user == user && rows[i].revokedAt.None?;
      assert live == S.LiveOf(Contents(), user);
      rows := map i | i in rows :: if i in live then rows[i].(revokedAt := S.Some(now)) else rows[i];
      assert rows == S.AllRevoked(old(Contents()), user, now).rows;
      return |live|;
    }
  }

  /** What one Refresh does when nobody comes between its steps. */
  function Alone(
      t: S.Table, presented: S.Hash, id: S.Id, hash: S.Hash, expiresAt: int, appNow: int, dbNow: int): S.Sys {
    Run(S.Step, S.Sys(t, [S.Reading(presented)]),
        [S.Read(0, appNow), S.Rotate(0, id, hash, expiresAt, dbNow), S.RevokeAll(0, dbNow)])
  }

  lemma AloneUnfolds(t: S.Table, presented: S.Hash, id: S.Id, hash: S.Hash, expiresAt: int, appNow: int, dbNow: int)
    ensures var s1 := S.Step(S.Sys(t, [S.Reading(presented)]), S.Read(0, appNow));
      Alone(t, presented, id, hash, expiresAt, appNow, dbNow)
        == S.Step(S.Step(s1, S.Rotate(0, id, hash, expiresAt, dbNow)), S.RevokeAll(0, dbNow))
  {
    var s0 := S.Sys(t, [S.Reading(presented)]);
    var a1, a2, a3 := S.Read(0, appNow), S.Rotate(0, id, hash, expiresAt, dbNow), S.RevokeAll(0, dbNow);
    var s1 := S.Step(s0, a1);
    var s2 := S.Step(s1, a2);
    assert [a1, a2, a3][1..] == [a2, a3] && [a2, a3][1..] == [a3] && [a3][1..] == [];
    assert Run(S.Step, s0, [a1, a2, a3]) == Run(S.Step, s1, [a2, a3]) == Run(S.Step, s2, [a3])
      == Run(S.Step, S.Step(s2, a3), []);
  }

  /** A Refresh is answered with a new pair for a token stored, not revoked and not expired at either clock, of an
      existing user, when the new session can be stored. */
  predicate Exchanges(
      t: S.Table, presented: S.Hash, id: S.Id, hash: S.Hash, expiresAt: int, appNow: int, dbNow: int)
  {
    && Exchangeable(t, presented, appNow) && Exchangeable(t, presented, dbNow)
    && t.rows[t.index[presented]].user in t.users
    && id !in t.rows && hash !in t.index && expiresAt > dbNow
  }

  class Service {
    const sessions: SessionRepository

    constructor (sessions: SessionRepository)
      ensures this.sessions == sessions
    {
      this.sessions := sessions;
    }

    /** The id and hash of the replacement are fresh values; got is the session the returned pair belongs to. */
    method Refresh(
        presented: S.Hash, id: S.Id, hash: S.Hash, expiresAt: int, appNow: int, dbNow: int)
        returns (got: S.Option<S.Id>)
      modifies sessions
      ensures var alone := Alone(old(sessions.Contents()), presented, id, hash, expiresAt, appNow, dbNow);
        sessions.Contents() == alone.table && alone.calls == [S.Finished(got)]
      ensures got == if Exchanges(old(sessions.Contents()), presented, id, hash, expiresAt, appNow, dbNow)
        then S.Some(id) else S.None
    {
      AloneUnfolds(sessions.Contents(), presented, id, hash, expiresAt, appNow, dbNow);
      got := S.None;
      var session := sessions.ByHash(presented);
      if session.None? {
        return;
      }
      if !S.Active(session.value, appNow) {
        if session.value.revokedAt.Some? {
          var _ := sessions.RevokeAllForUser(session.value.user, dbNow);
        }
        return;
      }
      if session.value.user !in sessions.users {
        return;
      }
      var outcome := sessions.Rotate(presented, S.Fresh(id, session.value.user, hash, expiresAt), dbNow);
      if outcome.Stored? {
        got := S.Some(id);
      }
    }

    method Login(f: S.Fresh, now: int) returns (outcome: S.Outcome)
      modifies sessions
      ensures sessions.Contents() == S.Step(S.Sys(old(sessions.Contents()), []), S.LogIn(f, now)).table
      ensures outcome == S.CreateOutcome(old(sessions.Contents()), f, now)
    {
      outcome := sessions.Create(f, now);
    }

    method Logout(presented: S.Hash, now: int)
      modifies sessions
      ensures sessions.Contents() == S.Step(S.Sys(old(sessions.Contents()), []), S.LogOut(presented, now)).table
      ensures S.OnlyRevokes(old(sessions.Contents()), sessions.Contents())
      ensures presented in sessions.index && sessions.index[presented] in sessions.rows ==>
        var i := sessions.index[presented];
        sessions.rows[i].revokedAt.Some? && sessions.rows - {i} == old(sessions.rows) - {i}
    {
      sessions.Revoke(presented, now);
    }

    method LogoutAll(user: S.User, now: int) returns (n: nat)
      modifies sessions
      ensures sessions.Contents() == S.Step(S.Sys(old(sessions.Contents()), []), S.LogOutAll(user, now)).table
      ensures n == |S.LiveOf(old(sessions.Contents()), user)|
    {
      n := sessions.RevokeAllForUser(user, now);
    }
  }
}
