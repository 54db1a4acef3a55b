/** The tracker of poisoned sessions. Session records are shared objects, updated in place. */
module SessionTracker {
  import opened Wrappers

  datatype Status = Clean | Poisoned

  /** The contents of a session record. */
  datatype Info = Info(
    status: Status,
    poisonedAt: Option<int>,
    poisonCodes: seq<string>,
    poisonMessage: string,
    commandCount: nat,
    lastActivity: int)

  type Sessions = map<string, Info>

  // ----- the operations, as functions -----

  predicate Expired(maxAge: int, info: Info, now: int) {
    maxAge > 0 && now - info.lastActivity > maxAge
  }

  predicate PoisonedAt(maxAge: int, m: Sessions, id: string, now: int) {
    id in m && !Expired(maxAge, m[id], now) && m[id].status.Poisoned?
  }

  function AfterPoison(m: Sessions, id: string, codes: seq<string>, message: string, now: int): Sessions {
    if id == "" then m else
      var count := if id in m then m[id].commandCount else 0;
      m[id := Info(Poisoned, Some(now), codes, message, count, now)]
  }

  function AfterUnpoison(m: Sessions, id: string, now: int): Sessions {
    if id !in m || id == "" then m
    else m[id := Info(Clean, None, [], "", m[id].commandCount, now)]
  }

  /** Counting a command in a record, which starts over if it has expired by `again`. */
  function Counted(maxAge: int, info: Info, now: int, again: int): Info {
    if Expired(maxAge, info, again) then Info(Clean, None, [], "", 1, now)
    else info.(commandCount := info.commandCount + 1, lastActivity := now)
  }

  /** The expiry test reads the clock a second time. */
  function AfterRecord(maxAge: int, m: Sessions, id: string, now: int, again: int): Sessions {
    if id == "" then m else
      var info := if id in m then m[id] else Info(Clean, None, [], "", 0, now);
      m[id := Counted(maxAge, info, now, again)]
  }

  /** `clock` is what the clock says when a session is looked at. */
  function AfterCleanup(maxAge: int, m: Sessions, clock: string -> int): Sessions {
    map id | id in m && !Expired(maxAge, m[id], clock(id)) :: m[id]
  }

  // ----- the objects -----

  class SessionInfo {
    var status: Status
    var poisonedAt: Option<int>
    var poisonCodes: seq<string>
    var poisonMessage: string
    var commandCount: nat
    var lastActivity: int

    constructor (status: Status, now: int)
      ensures View() == Info(status, None, [], "", 0, now)
    {
      this.status, poisonedAt, poisonCodes, poisonMessage := status, None, [], "";
      commandCount, lastActivity := 0, now;
    }

    function View(): Info
      reads this
    {
      Info(status, poisonedAt, poisonCodes, poisonMessage, commandCount, lastActivity)
    }

    predicate IsPoisoned()
      reads this
    {
      status.Poisoned?
    }

    method Clear()
      modifies this
      ensures View() == old(View()).(status := Clean, poisonedAt := None, poisonCodes := [], poisonMessage := "")
    {
      status, poisonedAt, poisonCodes, poisonMessage := Clean, None, [], "";
    }

    method MarkPoisoned(codes: seq<string>, message: string, now: int)
      modifies this
      ensures View() == Info(Poisoned, Some(now), codes, message, old(commandCount), now)
    {
      status, poisonedAt, poisonCodes, poisonMessage := Poisoned, Some(now), codes, message;
      lastActivity := now;
    }

    method Count(maxAge: int, now: int, again: int)
      modifies this
      ensures View() == Counted(maxAge, old(View()), now, again)
    {
      if Expired(maxAge, View(), again) {
        Clear();
        commandCount := 0;
      }
      commandCount := commandCount + 1;
      lastActivity := now;
    }
  }

  class Tracker {
    const maxSessionAge: int
    var sessions: map<string, SessionInfo>

    /** No two sessions share a record. */
    ghost predicate Valid()
      reads this
    {
      forall a, b :: a in sessions && b in sessions && a != b ==> sessions[a] != sessions[b]
    }

    ghost function Model(): Sessions
      reads this, sessions.Values
    {
      map id | id in sessions :: sessions[id].View()
    }

    constructor (maxSessionAge: int)
      ensures Valid() && Model() == map[] && this.maxSessionAge == maxSessionAge && sessions == map[]
    {
      this.maxSessionAge := maxSessionAge;
      sessions := map[];
    }

    predicate IsExpired(info: SessionInfo, now: int)
      reads info
    {
      maxSessionAge > 0 && now - info.lastActivity > maxSessionAge
    }

    /** The record is handed out as it is, not as a copy. */
    method IsPoisoned(id: string, now: int) returns (poisoned: bool, info: SessionInfo?)
      requires Valid()
      ensures poisoned <==> id != "" && PoisonedAt(maxSessionAge, Model(), id, now)
      ensures poisoned ==> id in sessions && info == sessions[id]
    {
      if id == "" {
        return false, null;
      }
      if id !in sessions {
        return false, null;
      }
      info := sessions[id];
      if IsExpired(info, now) {
        return false, null;
      }
      return info.IsPoisoned(), info;
    }

    /** The session's record, added with the given status if there is none. */
    method Entry(id: string, status: Status, now: int) returns (info: SessionInfo)
      requires Valid()
      modifies this
      ensures Valid() && fresh(sessions.Values - old(sessions.Values))
      ensures id in sessions && sessions[id] == info
      ensures Model() == if id in old(Model()) then old(Model())
                         else old(Model())[id := Info(status, None, [], "", 0, now)]
    {
      if id !in sessions {
        var added := new SessionInfo(status, now);
        sessions := sessions[id := added];
      }
      info := sessions[id];
    }

    /** Writing to one record changes one session. */
    twostate lemma OneSessionWritten(id: string)
      requires old(Valid()) && sessions == old(sessions) && id in sessions
      requires forall o :: o in sessions.Values && o != sessions[id] ==> unchanged(o)
      ensures Model() == old(Model())[id := sessions[id].View()]
    {
      forall k | k in sessions && k != id
        ensures sessions[k].View() == old(sessions[k].View())
      {
        assert sessions[k] in sessions.Values;
      }
    }

    method Poison(id: string, codes: seq<string>, message: string, now: int)
      requires Valid()
      modifies this, sessions.Values
      ensures Valid() && fresh(sessions.Values - old(sessions.Values))
      ensures Model() == AfterPoison(old(Model()), id, codes, message, now)
      ensures id != "" ==>
                && id in Model() && Model()[id].status.Poisoned? && Model()[id].poisonedAt == Some(now)
                && Model()[id].poisonCodes == codes && Model()[id].poisonMessage == message
                && Model()[id].lastActivity == now
                && Model()[id].commandCount == if id in old(Model()) then old(Model()[id].commandCount) else 0
      ensures forall k :: k in old(Model()) && k != id ==> k in Model() && Model()[k] == old(Model()[k])
    {
      if id == "" {
        return;
      }
      var info := Entry(id, Poisoned, now);
      label entered:
      assert old@entered(info.View()) == old@entered(Model())[id];
      info.MarkPoisoned(codes, message, now);
      hide Model;
      OneSessionWritten@entered(id);
    }

    method Unpoison(id: string, now: int)
      requires Valid()
      modifies sessions.Values
      ensures Valid()
      ensures Model() == AfterUnpoison(old(Model()), id, now)
      ensures id != "" && id in old(Model()) ==>
                id in Model() && Model()[id] == Info(Clean, None, [], "", old(Model()[id].commandCount), now)
      ensures forall k :: k in old(Model()) && k != id ==> k in Model() && Model()[k] == old(Model()[k])
    {
      if id == "" || id !in sessions {
        return;
      }
      var info := sessions[id];
      info.Clear();
      info.lastActivity := now;
    }

    method RecordCommand(id: string, now: int, again: int)
      requires Valid()
      modifies this, sessions.Values
      ensures Valid() && fresh(sessions.Values - old(sessions.Values))
      ensures Model() == AfterRecord(maxSessionAge, old(Model()), id, now, again)
      ensures id != "" ==>
                && id in Model() && Model()[id].lastActivity == now
                && (id in old(Model()) && maxSessionAge > 0 && again - old(Model()[id].lastActivity) > maxSessionAge ==>
                      Model()[id] == Info(Clean, None, [], "", 1, now))
                && (id in old(Model())
                    && (maxSessionAge <= 0 || again - old(Model()[id].lastActivity) <= maxSessionAge) ==>
                      Model()[id] == old(Model()[id]).(commandCount := old(Model()[id].commandCount) + 1,
                                                       lastActivity := now))
                && (id !in old(Model()) ==> Model()[id] == Info(Clean, None, [], "", 1, now))
    {
      if id == "" {
        return;
      }
      var info := Entry(id, Clean, now);
      label entered:
      assert old@entered(info.View()) == old@entered(Model())[id];
      info.Count(maxSessionAge, now, again);
      hide Model, Counted;
      OneSessionWritten@entered(id);
    }

    method CleanupExpired(clock: string -> int) returns (removed: nat)
      requires Valid()
      modifies this
      ensures Valid() && sessions.Values <= old(sessions.Values)
      ensures Model() == AfterCleanup(maxSessionAge, old(Model()), clock)
      ensures forall id :: id in sessions <==>
                id in old(sessions)
                && (maxSessionAge <= 0 || clock(id) - old(sessions[id].lastActivity) <= maxSessionAge)
      ensures removed == |old(sessions)| - |sessions|
    {
      hide Model;
      removed := 0;
      var ids := sessions.Keys;
      ghost var all := sessions;
      while ids != {}
        invariant ids <= all.Keys
        invariant sessions.Keys <= all.Keys && forall id :: id in sessions ==> sessions[id] == all[id]
        invariant forall id :: id in all ==> (id in sessions <==> id in ids || !IsExpired(all[id], clock(id)))
        invariant removed == |all| - |sessions|
        decreases |ids|
      {
        var id :| id in ids;
        if IsExpired(sessions[id], clock(id)) {
          assert |sessions - {id}| == |sessions| - 1 by { RemoveOne(sessions, id); }
          sessions := sessions - {id};
          removed := removed + 1;
        }
        ids := ids - {id};
      }
      SessionsKept(clock);
    }

    twostate lemma SessionsKept(clock: string -> int)
      requires sessions.Keys <= old(sessions.Keys) && forall id :: id in sessions ==> sessions[id] == old(sessions)[id]
      requires forall o :: o in old(sessions.Values) ==> unchanged(o)
      requires forall id :: id in old(sessions) ==> (id in sessions <==> !IsExpired(old(sessions)[id], clock(id)))
      ensures Model() == AfterCleanup(maxSessionAge, old(Model()), clock)
    {
      forall id | id in old(sessions)
        ensures old(sessions)[id].View() == old(sessions[id].View())
      {
        assert old(sessions)[id] in old(sessions.Values);
      }
    }
  }

  lemma RemoveOne<T>(m: map<string, T>, k: string)
    requires k in m
    ensures |m - {k}| == |m| - 1
  {
    assert (m - {k}).Keys == m.Keys - {k};
  }

  // ----- what every operation keeps -----

  /** Poisoned exactly when the time of poisoning is set. */
  predicate Consistent(info: Info) {
    info.status.Poisoned? <==> info.poisonedAt.Some?
  }
}
