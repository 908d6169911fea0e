/** The sessions table behind the ORM, and the listener that sweeps it: before any Session is
    persisted, every stored session whose expiry is strictly before the current time is
    scheduled for removal, whoever owns it. The entity manager works as a unit of work:
    remove and persist only schedule, and flush writes the removals and then the inserts. */
module Sessions {
  import opened Entities

  /** A row of the sessions table. */
  datatype SessionRow = SessionRow(userId: int, token: string, createdAt: int, expiresAt: int)

  /** The committed rows, by id. */
  type Rows = map<nat, SessionRow>

  /** The listener's query: the ids of the rows with expiresAt < now. */
  function ExpiredIds(rows: Rows, now: int): set<nat> {
    set id | id in rows && rows[id].expiresAt < now
  }

  /** The table once the expired rows are gone. */
  function Swept(rows: Rows, now: int): Rows {
    map id | id in rows && now <= rows[id].expiresAt :: rows[id]
  }

  /** The rows left by flush: the scheduled removals deleted, then each scheduled insert
      written under the next id. */
  function Committed(rows: Rows, removals: set<nat>, inserts: seq<SessionRow>, nextId: nat): Rows
    decreases |inserts|
  {
    if inserts == [] then map id | id in rows && id !in removals :: rows[id]
    else
      var n := |inserts| - 1;
      Committed(rows, removals, inserts[..n], nextId)[nextId + n := inserts[n]]
  }

  /** Removing what the query found leaves exactly the rows that expire at or after now, of
      every user; rows are kept with their values. */
  lemma SweepRemovesExpired(rows: Rows, now: int)
    ensures Committed(rows, ExpiredIds(rows, now), [], 0) == Swept(rows, now)
    ensures forall id :: id in Swept(rows, now) <==> id in rows && !(rows[id].expiresAt < now)
    ensures forall id :: id in Swept(rows, now) ==> Swept(rows, now)[id] == rows[id]
  {
  }

  /** Sweeping twice at the same time is sweeping once, and a later sweep subsumes an
      earlier one. */
  lemma SweepIdempotent(rows: Rows, earlier: int, now: int)
    requires earlier <= now
    ensures Swept(Swept(rows, now), now) == Swept(rows, now)
    ensures Swept(Swept(rows, earlier), now) == Swept(rows, now)
  {
    assert Swept(Swept(rows, now), now).Keys == Swept(rows, now).Keys;
    assert Swept(Swept(rows, earlier), now).Keys == Swept(rows, now).Keys;
  }

  /** Flush keeps the rows not scheduled for removal, and writes the k-th insert under id
      nextId + k; nothing else is in the table. */
  lemma {:induction false} CommittedSpec(rows: Rows, removals: set<nat>, inserts: seq<SessionRow>, nextId: nat)
    requires forall id :: id in rows ==> id < nextId
    ensures var r := Committed(rows, removals, inserts, nextId);
      && (forall id :: id in r <==> (id in rows && id !in removals) || nextId <= id < nextId + |inserts|)
      && (forall id :: id in rows && id !in removals ==> r[id] == rows[id])
      && (forall k :: 0 <= k < |inserts| ==> r[nextId + k] == inserts[k])
    decreases |inserts|
  {
    if inserts != [] {
      var n := |inserts| - 1;
      CommittedSpec(rows, removals, inserts[..n], nextId);
      assert forall k :: 0 <= k < n ==> inserts[..n][k] == inserts[k];
    }
  }

  /** The row written for a session: its owner's id, its token and its two times. */
  function RowOf(s: Session): SessionRow
    reads s
    requires s.user != null
  {
    SessionRow(s.user.id, s.token, s.createdAt, s.expiresAt)
  }

  /** What is handed to persist: a Session, or any other entity. */
  datatype Entity = SessionEntity(session: Session) | OtherEntity

  class EntityManager {
    /** The committed sessions table. */
    var rows: Rows
    /** The id the next inserted row receives. */
    var nextId: nat
    /** Rows scheduled for removal by remove(). */
    var removals: set<nat>
    /** Rows scheduled for insertion by persist(). */
    var inserts: seq<SessionRow>

    /** Every committed id was handed out already. */
    ghost predicate Valid()
      reads this
    {
      forall id :: id in rows ==> id < nextId
    }

    constructor (rows: Rows, nextId: nat)
      requires forall id :: id in rows ==> id < nextId
      ensures Valid() && this.rows == rows && this.nextId == nextId && removals == {} && inserts == []
    {
      this.rows := rows;
      this.nextId := nextId;
      removals := {};
      inserts := [];
    }

    /** remove: schedules the row's deletion. */
    method Remove(id: nat)
      modifies this
      ensures removals == old(removals) + {id}
      ensures rows == old(rows) && nextId == old(nextId) && inserts == old(inserts)
    {
      removals := removals + {id};
    }

    /** persist: the registered prePersist listener runs first, then a Session is scheduled
        for insertion as the row of its current fields. */
    method Persist(e: Entity, listener: SessionCleanupListener, now: int)
      requires listener.entityManager == this
      requires e.SessionEntity? ==> e.session.user != null
      modifies this
      ensures rows == old(rows) && nextId == old(nextId)
      ensures e.SessionEntity? ==>
        removals == old(removals) + ExpiredIds(old(rows), now) && inserts == old(inserts) + [old(RowOf(e.session))]
      ensures e.OtherEntity? ==> removals == old(removals) && inserts == old(inserts)
    {
      listener.PrePersist(e, now);
      if e.SessionEntity? {
        inserts := inserts + [RowOf(e.session)];
      }
    }

    /** flush: writes the scheduled removals and inserts, and clears both schedules. */
    method Flush()
      requires Valid()
      modifies this
      ensures Valid()
      ensures rows == Committed(old(rows), old(removals), old(inserts), old(nextId))
      ensures nextId == old(nextId) + |old(inserts)|
      ensures removals == {} && inserts == []
    {
      var queue := inserts;
      var first := nextId;
      rows := map id | id in rows && id !in removals :: rows[id];
      var i := 0;
      while i < |queue|
        invariant 0 <= i <= |queue| && nextId == first + i
        invariant rows == Committed(old(rows), old(removals), queue[..i], first)
        invariant forall id :: id in rows ==> id < nextId
      {
        assert queue[..i + 1][..i] == queue[..i];
        rows := rows[nextId := queue[i]];
        nextId := nextId + 1;
        i := i + 1;
      }
      assert queue[..i] == queue;
      removals := {};
      inserts := [];
    }
  }

  class SessionCleanupListener {
    const entityManager: EntityManager

    constructor (em: EntityManager)
      ensures entityManager == em
    {
      entityManager := em;
    }

    /** prePersist: nothing for an entity that is not a Session; otherwise each committed row
        with expiresAt < now is handed to remove. */
    method PrePersist(e: Entity, now: int)
      modifies entityManager
      ensures entityManager.rows == old(entityManager.rows)
      ensures entityManager.nextId == old(entityManager.nextId)
      ensures entityManager.inserts == old(entityManager.inserts)
      ensures entityManager.removals
           == if e.SessionEntity? then old(entityManager.removals) + ExpiredIds(old(entityManager.rows), now)
              else old(entityManager.removals)
    {
      if !e.SessionEntity? {
        return;
      }
      var expired := ExpiredIds(entityManager.rows, now);
      var pending := expired;
      while pending != {}
        invariant pending <= expired
        invariant entityManager.removals == old(entityManager.removals) + (expired - pending)
        invariant entityManager.rows == old(entityManager.rows)
        invariant entityManager.nextId == old(entityManager.nextId)
        invariant entityManager.inserts == old(entityManager.inserts)
        decreases pending
      {
        var id :| id in pending;
        entityManager.Remove(id);
        pending := pending - {id};
      }
    }
  }

  /** Persisting one session into a quiet unit of work and flushing leaves the swept table
      plus the new row under a fresh id. */
  lemma PersistThenFlush(rows: Rows, now: int, row: SessionRow, nextId: nat)
    requires forall id :: id in rows ==> id < nextId
    ensures Committed(rows, {} + ExpiredIds(rows, now), [] + [row], nextId) == Swept(rows, now)[nextId := row]
    ensures nextId !in rows
  {
    assert {} + ExpiredIds(rows, now) == ExpiredIds(rows, now);
    assert ([] + [row])[..0] == [];
    assert [] + [row] == [row];
    SweepRemovesExpired(rows, now);
  }
}
