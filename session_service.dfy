/** The `SessionService`: an in-memory dictionary from session id to `Session`. Lookups evict
    a session once it has been inactive for more than 24 hours; the sweeps evict every such
    session. The dictionary's insertion order, which Python's iteration follows, is kept
    beside the map as `order`. */
module SessionStore {
  import opened Wrappers
  import opened Records
  import opened Sessions
  import Seqs

  /** The keys outside `gone`. */
  function NotIn(gone: set<string>): string -> bool {
    k => k !in gone
  }

  /** The keys inside `keep`. */
  function IsIn(keep: set<string>): string -> bool {
    k => k in keep
  }

  /** The set of a list's elements. */
  function Elems(s: seq<string>): set<string> {
    set k | k in s
  }

  /** The dictionary `get_session_summary` returns. */
  datatype Summary = Summary(
    id: string,
    userId: Option<string>,
    createdAt: int,
    updatedAt: int,
    messageCount: nat,
    isActive: bool,
    metadata: Metadata)

  class SessionService {
    /** `self.sessions` */
    var sessions: map<string, Session>
    /** The keys of `self.sessions` in insertion order. */
    var order: seq<string>

    /** Every session is stored under its own id (so no session is stored twice), and `order`
        lists each key once. */
    ghost predicate Valid()
      reads this
    {
      && (forall k :: k in sessions ==> sessions[k].id == k)
      && Seqs.Distinct(order)
      && (forall k :: k in order <==> k in sessions)
    }

    /** The session stored under `sessionId`, as a set for frames. */
    function At(sessionId: string): set<Session>
      reads this
    {
      if sessionId in sessions then {sessions[sessionId]} else {}
    }

    /** A session is stored under `sessionId` and has not expired at `now`. */
    predicate Live(sessionId: string, now: int)
      reads this, sessions.Values
    {
      sessionId in sessions && !sessions[sessionId].IsExpired(now, DefaultExpiryHours)
    }

    /** The keys of the sessions that have expired at `now`. */
    function ExpiredSet(now: int): set<string>
      reads this, sessions.Values
    {
      set k | k in sessions && sessions[k].IsExpired(now, DefaultExpiryHours)
    }

    /** The keys of the unexpired sessions of `userId` at `now`. */
    function UserSet(userId: string, now: int): set<string>
      reads this, sessions.Values
    {
      set k | k in sessions && sessions[k].userId == Some(userId) && !sessions[k].IsExpired(now, DefaultExpiryHours)
    }

    /** An empty store. */
    constructor ()
      ensures Valid() && sessions == map[] && order == []
    {
      sessions := map[];
      order := [];
    }

    /** `self.sessions[session.id] = session`: a new key goes to the end of the order. */
    method Store(session: Session)
      requires Valid()
      modifies this
      ensures Valid()
      ensures sessions == old(sessions)[session.id := session]
      ensures order == if session.id in old(sessions) then old(order) else old(order) + [session.id]
    {
      if session.id !in sessions {
        order := order + [session.id];
      }
      sessions := sessions[session.id := session];
    }

    /** `del self.sessions[sessionId]` */
    method Remove(sessionId: string)
      requires Valid() && sessionId in sessions
      modifies this
      ensures Valid()
      ensures sessions == old(sessions) - {sessionId}
      ensures order == Seqs.Filter(old(order), NotIn({sessionId}))
    {
      Seqs.FilterMembers(order, NotIn({sessionId}));
      Seqs.FilterDistinct(order, NotIn({sessionId}));
      sessions := sessions - {sessionId};
      order := Seqs.Filter(order, NotIn({sessionId}));
    }

    /** `create_session`: stores a new, empty, active session under the id drawn for it,
        with the given user and metadata (`{}` for none). */
    method CreateSession(userId: Option<string>, metadata: Option<Metadata>, sessionId: string, now: int)
      returns (session: Session)
      requires Valid()
      modifies this
      ensures Valid()
      ensures fresh(session)
      ensures session.id == sessionId && session.userId == userId && session.metadata == metadata.GetOr(map[])
      ensures session.messages == [] && session.isActive && session.updatedAt == now && session.createdAt == now
      ensures sessions == old(sessions)[sessionId := session]
      ensures order == if sessionId in old(sessions) then old(order) else old(order) + [sessionId]
    {
      session := new Session(sessionId, userId, if metadata.Some? then metadata.value else map[], now);
      Store(session);
    }

    /** Removing a key that is not stored changes nothing. */
    lemma RemoveAbsent(sessionId: string)
      requires Valid() && sessionId !in sessions
      ensures sessions - {sessionId} == sessions
      ensures Seqs.Filter(order, NotIn({sessionId})) == order
    {
      Seqs.FilterAll(order, NotIn({sessionId}));
    }

    /** `get_session`: the stored session when it is there and has not expired. An expired
        session is removed and reported as missing; otherwise nothing changes. */
    method GetSession(sessionId: string, now: int) returns (r: Option<Session>)
      requires Valid()
      modifies this
      ensures Valid()
      ensures r.Some? <==> old(Live(sessionId, now))
      ensures r.Some? ==> r.value == old(sessions[sessionId]) && sessions == old(sessions) && order == old(order)
      ensures r.None? ==> sessions == old(sessions) - {sessionId} && order == Seqs.Filter(old(order), NotIn({sessionId}))
    {
      if sessionId !in sessions {
        RemoveAbsent(sessionId);
        return None;
      }
      var session := sessions[sessionId];
      if session.IsExpired(now, DefaultExpiryHours) {
        Remove(sessionId);
        return None;
      }
      return Some(session);
    }

    /** `update_session`: refreshes the session's `updated_at` and stores it under its id. */
    method UpdateSession(session: Session, now: int) returns (r: Session)
      requires Valid()
      modifies this, session
      ensures Valid()
      ensures r == session && session.updatedAt == now
      ensures session.messages == old(session.messages) && session.isActive == old(session.isActive)
      ensures sessions == old(sessions)[session.id := session]
      ensures order == if session.id in old(sessions) then old(order) else old(order) + [session.id]
    {
      session.UpdateLastActivity(now);
      Store(session);
      return session;
    }

    /** `delete_session`: true exactly when the id was stored; the id is gone afterwards, and
        expiry plays no part. */
    method DeleteSession(sessionId: string) returns (deleted: bool)
      requires Valid()
      modifies this
      ensures Valid()
      ensures deleted <==> sessionId in old(sessions)
      ensures sessions == old(sessions) - {sessionId}
      ensures order == Seqs.Filter(old(order), NotIn({sessionId}))
    {
      if sessionId in sessions {
        Remove(sessionId);
        return true;
      }
      RemoveAbsent(sessionId);
      return false;
    }

    /** `add_message_to_session`: for a live session, one message with the given role,
        content and metadata is appended and `updated_at` becomes `now`; otherwise None, with
        an expired session evicted. */
    method AddMessageToSession(sessionId: string, role: string, content: string, metadata: Option<Metadata>,
                               messageId: string, now: int)
      returns (r: Option<Message>)
      requires Valid()
      modifies this, At(sessionId)
      ensures Valid()
      ensures r.Some? <==> old(Live(sessionId, now))
      ensures r.None? ==> sessions == old(sessions) - {sessionId} && order == Seqs.Filter(old(order), NotIn({sessionId}))
      ensures r.Some? ==> (&& sessions == old(sessions) && order == old(order)
                           && r.value == Message(messageId, role, content, now, metadata.GetOr(map[]))
                           && sessions[sessionId].messages == old(sessions[sessionId].messages) + [r.value]
                           && sessions[sessionId].updatedAt == now
                           && sessions[sessionId].isActive == old(sessions[sessionId].isActive))
    {
      var session := GetSession(sessionId, now);
      if session.None? {
        return None;
      }
      var message := session.value.AddMessage(role, content, metadata, messageId, now);
      var _ := UpdateSession(session.value, now);
      return Some(message);
    }

    /** `get_session_messages`: None for a missing or expired session (which is evicted),
        else its `get_messages(limit)`. */
    method GetSessionMessages(sessionId: string, limit: Option<int>, now: int) returns (r: Option<seq<Message>>)
      requires Valid()
      modifies this
      ensures Valid()
      ensures r.Some? <==> old(Live(sessionId, now))
      ensures r.Some? ==> sessions == old(sessions) && order == old(order)
                          && r.value == sessions[sessionId].GetMessages(limit)
      ensures r.None? ==> sessions == old(sessions) - {sessionId} && order == Seqs.Filter(old(order), NotIn({sessionId}))
    {
      var session := GetSession(sessionId, now);
      if session.None? {
        return None;
      }
      return Some(session.value.GetMessages(limit));
    }

    /** `clear_session_messages`: false for a missing or expired session (which is evicted);
        otherwise the history is emptied, `updated_at` becomes `now` and the result is true. */
    method ClearSessionMessages(sessionId: string, now: int) returns (ok: bool)
      requires Valid()
      modifies this, At(sessionId)
      ensures Valid()
      ensures ok <==> old(Live(sessionId, now))
      ensures !ok ==> sessions == old(sessions) - {sessionId} && order == Seqs.Filter(old(order), NotIn({sessionId}))
      ensures ok ==> (&& sessions == old(sessions) && order == old(order)
                      && sessions[sessionId].messages == []
                      && sessions[sessionId].updatedAt == now
                      && sessions[sessionId].isActive == old(sessions[sessionId].isActive))
    {
      var session := GetSession(sessionId, now);
      if session.None? {
        return false;
      }
      session.value.ClearMessages(now);
      var _ := UpdateSession(session.value, now);
      return true;
    }

    /** `end_session`: false for a missing or expired session (which is evicted); otherwise
        the session is marked inactive, refreshed, kept in the store, and the result is true. */
    method EndSession(sessionId: string, now: int) returns (ok: bool)
      requires Valid()
      modifies this, At(sessionId)
      ensures Valid()
      ensures ok <==> old(Live(sessionId, now))
      ensures !ok ==> sessions == old(sessions) - {sessionId} && order == Seqs.Filter(old(order), NotIn({sessionId}))
      ensures ok ==> (&& sessions == old(sessions) && order == old(order)
                      && !sessions[sessionId].isActive
                      && sessions[sessionId].updatedAt == now
                      && sessions[sessionId].messages == old(sessions[sessionId].messages))
    {
      var session := GetSession(sessionId, now);
      if session.None? {
        return false;
      }
      session.value.isActive := false;
      session.value.UpdateLastActivity(now);
      var _ := UpdateSession(session.value, now);
      return true;
    }

    /** `get_session_summary`: None for a missing or expired session (which is evicted), else
        the session's fields and message count. */
    method GetSessionSummary(sessionId: string, now: int) returns (r: Option<Summary>)
      requires Valid()
      modifies this
      ensures Valid()
      ensures r.Some? <==> old(Live(sessionId, now))
      ensures r.Some? ==> sessions == old(sessions) && order == old(order) && sessionId in sessions
                          && (var s := sessions[sessionId];
                              r.value == Summary(s.id, s.userId, s.createdAt, s.updatedAt, |s.messages|, s.isActive, s.metadata))
      ensures r.None? ==> sessions == old(sessions) - {sessionId}
                          && order == Seqs.Filter(old(order), NotIn({sessionId}))
    {
      var session := GetSession(sessionId, now);
      if session.None? {
        return None;
      }
      var s := session.value;
      return Some(Summary(s.id, s.userId, s.createdAt, s.updatedAt, s.GetMessageCount(), s.isActive, s.metadata));
    }

    /** The first loop of both sweeps: the ids of the expired sessions, in dictionary order. */
    method CollectExpired(now: int) returns (expired: seq<string>, live: nat)
      requires Valid()
      ensures expired == Seqs.Filter(order, IsIn(ExpiredSet(now)))
      ensures live == |Seqs.Filter(order, NotIn(ExpiredSet(now)))|
    {
      ghost var gone := ExpiredSet(now);
      expired := [];
      live := 0;
      var i := 0;
      while i < |order|
        invariant 0 <= i <= |order|
        invariant expired == Seqs.Filter(order[..i], IsIn(gone))
        invariant live == |Seqs.Filter(order[..i], NotIn(gone))|
      {
        var sessionId := order[i];
        assert order[..i + 1] == order[..i] + [sessionId];
        Seqs.FilterAppend(order[..i], sessionId, IsIn(gone));
        Seqs.FilterAppend(order[..i], sessionId, NotIn(gone));
        assert sessionId in sessions;
        if sessions[sessionId].IsExpired(now, DefaultExpiryHours) {
          expired := expired + [sessionId];
        } else {
          live := live + 1;
        }
        i := i + 1;
      }
      assert order[..i] == order;
    }

    /** The second loop of both sweeps: every listed id is deleted. */
    method RemoveAll(expired: seq<string>)
      requires Valid()
      requires Seqs.Distinct(expired) && forall k :: k in expired ==> k in sessions
      modifies this
      ensures Valid()
      ensures sessions == old(sessions) - Elems(expired)
      ensures order == Seqs.Filter(old(order), NotIn(Elems(expired)))
    {
      var j := 0;
      ghost var removed: set<string> := {};
      assert Elems(expired[..0]) == {};
      Seqs.FilterAll(order, NotIn({}));
      while j < |expired|
        invariant 0 <= j <= |expired|
        invariant Valid()
        invariant removed == Elems(expired[..j])
        invariant sessions == old(sessions) - removed
        invariant order == Seqs.Filter(old(order), NotIn(removed))
      {
        var sessionId := expired[j];
        ElemsStep(expired, j);
        Remove(sessionId);
        FilterNotInTwice(old(order), removed, sessionId);
        removed := removed + {sessionId};
        assert sessions == old(sessions) - removed;
        assert order == Seqs.Filter(old(order), NotIn(removed));
        j := j + 1;
      }
      assert expired[..j] == expired;
    }

    /** `get_active_sessions_count`: removes every expired session and returns how many
        remain. Ended sessions that have not expired are counted. */
    method GetActiveSessionsCount(now: int) returns (count: nat)
      requires Valid()
      modifies this
      ensures Valid()
      ensures sessions == old(sessions) - old(ExpiredSet(now))
      ensures order == Seqs.Filter(old(order), NotIn(old(ExpiredSet(now))))
      ensures count == |order| == |sessions|
    {
      var expired;
      expired, count := CollectExpired(now);
      ghost var gone := ExpiredSet(now);
      ExpiredListed(now);
      RemoveAll(expired);
      ValidSize();
    }

    /** `cleanup_expired_sessions`: removes every expired session and returns how many were
        removed. */
    method CleanupExpiredSessions(now: int) returns (removed: nat)
      requires Valid()
      modifies this
      ensures Valid()
      ensures sessions == old(sessions) - old(ExpiredSet(now))
      ensures order == Seqs.Filter(old(order), NotIn(old(ExpiredSet(now))))
      ensures removed == |Seqs.Filter(old(order), IsIn(old(ExpiredSet(now))))|
      ensures removed + |sessions| == |old(sessions)|
    {
      var expired, _ := CollectExpired(now);
      ghost var gone := ExpiredSet(now);
      ExpiredListed(now);
      ValidSize();
      RemoveAll(expired);
      ValidSize();
      Seqs.FilterComplement(old(order), IsIn(gone), NotIn(gone));
      removed := |expired|;
    }

    /** The expired ids listed in dictionary order are exactly the expired keys, each once. */
    lemma ExpiredListed(now: int)
      requires Valid()
      ensures var expired := Seqs.Filter(order, IsIn(ExpiredSet(now)));
        && Seqs.Distinct(expired)
        && (forall k :: k in expired ==> k in sessions)
        && Elems(expired) == ExpiredSet(now)
    {
      var gone := ExpiredSet(now);
      Seqs.FilterDistinct(order, IsIn(gone));
      Seqs.FilterMembers(order, IsIn(gone));
      forall k | k in gone ensures k in Seqs.Filter(order, IsIn(gone)) {
        var i :| 0 <= i < |order| && order[i] == k;
      }
    }

    /** The store holds as many sessions as `order` lists keys. */
    lemma ValidSize()
      requires Valid()
      ensures |sessions| == |order|
    {
      Seqs.DistinctCardinality(order, sessions.Keys);
    }

    /** `get_user_sessions`: the unexpired sessions of the user, in dictionary order. Expired
        ones are skipped but not evicted, so the store does not change. */
    method GetUserSessions(userId: string, now: int) returns (r: seq<Session>)
      requires Valid()
      ensures var keys := Seqs.Filter(order, IsIn(UserSet(userId, now)));
        |r| == |keys| && forall i :: 0 <= i < |r| ==> keys[i] in sessions && r[i] == sessions[keys[i]]
      ensures forall s :: s in r <==> s in sessions.Values && s.userId == Some(userId) && !s.IsExpired(now, DefaultExpiryHours)
    {
      ghost var owned := UserSet(userId, now);
      ghost var keys: seq<string> := [];
      r := [];
      var i := 0;
      while i < |order|
        invariant 0 <= i <= |order|
        invariant keys == Seqs.Filter(order[..i], IsIn(owned))
        invariant |r| == |keys| && forall m :: 0 <= m < |r| ==> keys[m] in sessions && r[m] == sessions[keys[m]]
      {
        var session := sessions[order[i]];
        assert order[..i + 1] == order[..i] + [order[i]];
        Seqs.FilterAppend(order[..i], order[i], IsIn(owned));
        if session.userId == Some(userId) {
          if session.IsExpired(now, DefaultExpiryHours) {
            i := i + 1;
            continue;
          }
          r := r + [session];
          keys := keys + [order[i]];
        }
        i := i + 1;
      }
      assert order[..i] == order;
      UserSessionsMembers(userId, now, r, keys);
    }

    lemma UserSessionsMembers(userId: string, now: int, r: seq<Session>, keys: seq<string>)
      requires Valid()
      requires keys == Seqs.Filter(order, IsIn(UserSet(userId, now)))
      requires |r| == |keys| && forall i :: 0 <= i < |r| ==> keys[i] in sessions && r[i] == sessions[keys[i]]
      ensures forall s :: s in r <==> s in sessions.Values && s.userId == Some(userId) && !s.IsExpired(now, DefaultExpiryHours)
    {
      var owned := UserSet(userId, now);
      Seqs.FilterMembers(order, IsIn(owned));
      forall s ensures s in r <==> s in sessions.Values && s.userId == Some(userId) && !s.IsExpired(now, DefaultExpiryHours) {
        if s in r {
          var i :| 0 <= i < |r| && r[i] == s;
          assert keys[i] in keys;
        }
        if s in sessions.Values && s.userId == Some(userId) && !s.IsExpired(now, DefaultExpiryHours) {
          var k :| k in sessions && sessions[k] == s;
          assert k in owned;
          var j :| 0 <= j < |order| && order[j] == k;
          assert k in keys;
          var i :| 0 <= i < |keys| && keys[i] == k;
          assert r[i] == s;
        }
      }
    }
  }

  /** Growing a prefix of a list without repeats by one element adds a new element. */
  lemma ElemsStep(s: seq<string>, j: nat)
    requires Seqs.Distinct(s) && j < |s|
    ensures s[j] !in Elems(s[..j])
    ensures Elems(s[..j + 1]) == Elems(s[..j]) + {s[j]}
  {
    assert s[..j + 1] == s[..j] + [s[j]];
  }

  /** Removing one more key after a set of keys is removing their union. */
  lemma FilterNotInTwice(s: seq<string>, gone: set<string>, k: string)
    ensures Seqs.Filter(Seqs.Filter(s, NotIn(gone)), NotIn({k})) == Seqs.Filter(s, NotIn(gone + {k}))
  {
    Seqs.FilterAnd(s, NotIn(gone), NotIn({k}), NotIn(gone + {k}));
  }
}
