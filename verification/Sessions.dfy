/** The bounded table of browser sessions, keyed by the hash of the session token. */
module Sessions {
  import opened Names

  datatype Role = Admin | Operator | GroupOwner | Viewer

  datatype Session = Session(username: string, role: Role, expires: int, mustChangePassword: bool)

  const MAXIMUM_ACTIVE: nat := 32
  const LIFETIME: nat := 12 * 3600

  /** The sessions that have not expired. */
  function Live(sessions: map<string, Session>, now: int): map<string, Session> {
    map key | key in sessions && now < sessions[key].expires :: sessions[key]
  }

  /** The sessions of everybody else. */
  function WithoutUser(sessions: map<string, Session>, username: string): map<string, Session> {
    map key | key in sessions && !SameName(sessions[key].username, username) :: sessions[key]
  }

  /** What is left after removing sessions, those that expire first before the others. */
  predicate OldestRemoved(before: map<string, Session>, after: map<string, Session>) {
    && (forall key | key in after :: key in before && before[key] == after[key])
    && forall removed, kept | removed in before && removed !in after && kept in after ::
         before[removed].expires <= after[kept].expires
  }

  /** Removing the oldest from what is left of removing the oldest is removing the oldest. */
  lemma RemoveOneMore(before: map<string, Session>, after: map<string, Session>, oldest: string)
    requires OldestRemoved(before, after) && oldest in after
    requires forall key | key in after :: after[oldest].expires <= after[key].expires
    ensures OldestRemoved(before, after - {oldest})
  {
  }

  class SessionTable {
    var sessions: map<string, Session>

    /** No key is empty: keys are digests. */
    ghost predicate Valid()
      reads this
    {
      "" !in sessions
    }

    /** A new table is empty. */
    constructor ()
      ensures Valid() && sessions == map[]
    {
      sessions := map[];
    }

    method RemoveExpired(now: int)
      modifies this
      ensures sessions == Live(old(sessions), now)
    {
      ghost var before := sessions;
      var left := sessions.Keys;
      while left != {}
        invariant left <= before.Keys
        invariant sessions == map key | key in before && (key in left || now < before[key].expires) :: before[key]
      {
        var key :| key in left;
        left := left - {key};
        if now >= sessions[key].expires { sessions := sessions - {key}; }
      }
    }

    /** The key of a session that expires first. */
    method Oldest() returns (oldestKey: string)
      requires Valid() && |sessions| > 0
      ensures oldestKey in sessions
      ensures forall key | key in sessions :: sessions[oldestKey].expires <= sessions[key].expires
    {
      oldestKey := "";
      var oldestExpiry := 0;
      var left := sessions.Keys;
      while left != {}
        invariant left <= sessions.Keys
        invariant oldestKey == "" ==> left == sessions.Keys
        invariant oldestKey != "" ==> oldestKey in sessions && sessions[oldestKey].expires == oldestExpiry
        invariant oldestKey != "" ==> forall key | key in sessions && key !in left :: oldestExpiry <= sessions[key].expires
      {
        var key :| key in left;
        left := left - {key};
        if oldestKey == "" || sessions[key].expires < oldestExpiry {
          oldestKey, oldestExpiry := key, sessions[key].expires;
        }
      }
      assert |sessions.Keys| == |sessions|;
    }

    /** Removes the session that expires first for as long as the table is full. */
    method MakeRoom()
      requires Valid()
      modifies this
      ensures Valid() && OldestRemoved(old(sessions), sessions) && |sessions| < MAXIMUM_ACTIVE
      ensures if |old(sessions)| < MAXIMUM_ACTIVE then sessions == old(sessions) else |sessions| == MAXIMUM_ACTIVE - 1
    {
      ghost var before := sessions;
      while |sessions| >= MAXIMUM_ACTIVE
        invariant Valid() && OldestRemoved(before, sessions)
        invariant sessions == before || |before| >= MAXIMUM_ACTIVE
        invariant |before| >= MAXIMUM_ACTIVE ==> |sessions| >= MAXIMUM_ACTIVE - 1
        decreases |sessions|
      {
        var oldestKey := Oldest();
        RemoveOneMore(before, sessions, oldestKey);
        assert (sessions - {oldestKey}).Keys == sessions.Keys - {oldestKey};
        assert |sessions.Keys - {oldestKey}| == |sessions.Keys| - 1;
        sessions := sessions - {oldestKey};
      }
    }

    /** Records a session: the expired ones go first, and while the table is full the one that
        expires first goes. Afterwards the table holds the new session, no expired one and at most
        32; a live session is lost only when 32 were live, and it expires no later than every one
        that is kept. */
    method CreateSession(key: string, username: string, role: Role, mustChange: bool, now: int)
      requires Valid() && key != ""
      modifies this
      ensures Valid()
      ensures key in sessions && sessions[key] == Session(username, role, now + LIFETIME, mustChange)
      ensures |sessions| <= MAXIMUM_ACTIVE
      ensures forall other | other in sessions :: now < sessions[other].expires
      ensures var live := Live(old(sessions), now);
        && (forall other | other in sessions && other != key :: other in live && live[other] == sessions[other])
        && (forall lost | lost in live && lost !in sessions ::
              && |live| >= MAXIMUM_ACTIVE
              && forall kept | kept in sessions && kept != key :: live[lost].expires <= sessions[kept].expires)
        && (key !in live ==> |sessions| == if |live| < MAXIMUM_ACTIVE then |live| + 1 else MAXIMUM_ACTIVE)
    {
      RemoveExpired(now);
      MakeRoom();
      ghost var kept := sessions;
      sessions := sessions[key := Session(username, role, now + LIFETIME, mustChange)];
      assert sessions.Keys == kept.Keys + {key};
    }

    /** A session is valid until it expires; an expired one is removed on sight. */
    method ValidSession(key: string, now: int) returns (valid: bool)
      requires Valid()
      modifies this
      ensures Valid()
      ensures valid <==> key in Live(old(sessions), now)
      ensures sessions == if key in old(sessions) && !valid then old(sessions) - {key} else old(sessions)
    {
      if key !in sessions { return false; }
      if now >= sessions[key].expires {
        sessions := sessions - {key};
        return false;
      }
      valid := true;
    }

    method ClearSession(key: string)
      requires Valid()
      modifies this
      ensures Valid() && sessions == old(sessions) - {key}
    {
      sessions := sessions - {key};
    }

    /** No session of the user is left, and no other session is touched. */
    method RevokeUserSessions(username: string)
      requires Valid()
      modifies this
      ensures Valid()
      ensures sessions == WithoutUser(old(sessions), username)
      ensures forall key | key in sessions :: key in old(sessions) && sessions[key] == old(sessions)[key] && Fold(sessions[key].username) != Fold(username)
      ensures forall key | key in old(sessions) && key !in sessions :: Fold(old(sessions)[key].username) == Fold(username)
    {
      ghost var before := sessions;
      var left := sessions.Keys;
      while left != {}
        invariant left <= before.Keys
        invariant sessions == map key | key in before && (key in left || !SameName(before[key].username, username)) :: before[key]
      {
        var key :| key in left;
        left := left - {key};
        if SameName(sessions[key].username, username) { sessions := sessions - {key}; }
      }
    }
  }
}
