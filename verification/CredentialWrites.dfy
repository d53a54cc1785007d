/** What one persist, move and purge do to the row they are about, and to every other (convex/credentials.ts). */
module CredentialWrites {
  import opened Prelude
  import opened Sealing
  import opened Credentials
  import opened CredentialInvariants

  /**
   * A persist is refused exactly for a holder that is not the key's, a page value of the organisation, an issued page
   * value, a stale or unfit sync, or a source not linked to the owner: the read at its ref never refuses it.
   */
  lemma PersistRefusedExactly(db: Db, a: PersistArgs, sealed: Sealed, now: Time)
    requires Inv(db)
    ensures
      Persist(db, a, sealed, now).Ok? <==>
      && IsOrganisationOwnerKey(a.userId) == a.organisation
      && (a.source.Page? ==> !a.organisation && a.issuedBy.None? && LinkedTo(db, a.source.sourceId, a.userId))
      && (a.syncRun.Some? ==> a.source.Page? && CurrentGeneration(db, a.source.sourceId, a.syncRun.value))
  {
    if a.source.Page? {
      UniqueReadNeverFails(db, a.userId, a.source.sourceId, a.source.ref);
    }
  }

  /** What a rewritten row keeps from before: when it was created and revoked, how it was issued, and its hold. */
  predicate KeepsHistory(row: Row, after: Row) {
    && after.createdAt == row.createdAt && after.revokedAt == row.revokedAt
    && after.issuedBy == row.issuedBy && after.sourceRevocation == row.sourceRevocation
    && after.refreshCredentialId == row.refreshCredentialId
  }

  /** A row just inserted: never used, revoked, superseded or held. */
  predicate IsFresh(row: Row, now: Time) {
    && row.createdAt == now && row.lastUsedAt.None?
    && row.revokedAt.None? && row.status.None? && row.statusReason.None? && row.supersededAt.None?
    && row.sourceRevocation.None? && row.refreshCredentialId.None?
  }

  lemma PersistGoesTo(db: Db, a: PersistArgs, sealed: Sealed, now: Time)
    requires Inv(db) && Persist(db, a, sealed, now).Ok?
    ensures PersistRefusal(db, a).None?
    ensures
      var (after, id) := Persist(db, a, sealed, now).value;
      && (id in db.rows <==> a.source.Page? && exists other <- db.rows ::
          StandsAt(db.rows[other], a.userId, a.source.sourceId, a.source.ref))
      && (id in db.rows ==>
            && StandsAt(db.rows[id], a.userId, a.source.sourceId, a.source.ref)
            && after == db.(rows := db.rows[id := Rotated(db.rows[id], a, sealed)]))
      && (id !in db.rows ==> after == db.(rows := db.rows[id := NewRow(a, sealed, now)], next := db.next + 1))
  {
    if a.source.Page? {
      UniqueReadNeverFails(db, a.userId, a.source.sourceId, a.source.ref);
    }
  }

  /**
   * What is stored can be read back, on one row and on no other: the row that stood at the page ref, which keeps its
   * history and a person's revoke, or a new one, which nothing revoked.
   */
  lemma PersistReadsBack(db: Db, a: PersistArgs, plaintext: string, kr: Keyring, iv: Iv, now: Time, allow: bool)
    requires Inv(db) && Persist(db, a, SealFor(plaintext, kr, a.userId, iv), now).Ok?
    ensures
      var (after, id) := Persist(db, a, SealFor(plaintext, kr, a.userId, iv), now).value;
      && id in after.rows && after.rows.Keys == db.rows.Keys + {id}
      && (forall other <- db.rows | other != id :: after.rows[other] == db.rows[other])
      && after == db.(rows := after.rows, next := if id in db.rows then db.next else db.next + 1)
      && Value(after.rows[id], kr, allow) == Some(plaintext)
      && after.rows[id].userId == a.userId && after.rows[id].source == a.source && after.rows[id].metadata == a.metadata
      && after.rows[id].organisation == a.organisation && after.rows[id].issuedBy == a.issuedBy
      && (id in db.rows <==> a.source.Page? && exists other <- db.rows ::
          StandsAt(db.rows[other], a.userId, a.source.sourceId, a.source.ref))
      && (id in db.rows ==>
            && KeepsHistory(db.rows[id], after.rows[id])
            && after.rows[id].lastUsedAt == if a.rotated then None else db.rows[id].lastUsedAt)
      && (id !in db.rows ==> IsFresh(after.rows[id], now))
      && after.rows[id].statusReason ==
           (if id in db.rows && db.rows[id].revokedAt.Some? && a.rotated then Some(REVOKE_STANDS_REASON) else None)
      && DecryptRow(after.rows[id], kr, allow) ==
           if (id in db.rows && db.rows[id].revokedAt.Some?) || plaintext == "" then None else Some(plaintext)
  {
    var sealed := SealFor(plaintext, kr, a.userId, iv);
    var (after, id) := Persist(db, a, sealed, now).value;
    PersistGoesTo(db, a, sealed, now);
    SealOpensForItsOwnerOnly(plaintext, kr, a.userId, iv, a.userId, allow);
    hide Persist;
    assert Value(after.rows[id], kr, allow) == Some(plaintext);
    if id in db.rows { assert RowOk(db.rows[id]); }
  }

  /**
   * A move happens exactly when its row still stands where it was read and no row stands at the target; it takes the
   * value along unchanged, a person's revoke with it, and otherwise writes nothing.
   */
  lemma MovesExactly(db: Db, a: MoveArgs, kr: Keyring, allow: bool)
    requires Inv(db) && MoveToRef(db, a).Ok?
    ensures
      var (after, moved) := MoveToRef(db, a).value;
      && (moved <==>
            && a.id in db.rows && StandsAt(db.rows[a.id], a.userId, a.sourceId, a.fromRef)
            && forall other <- db.rows :: !StandsAt(db.rows[other], a.userId, a.sourceId, a.ref))
      && (!moved ==> after == db)
      && (moved ==>
            && after.rows.Keys == db.rows.Keys && StandsAt(after.rows[a.id], a.userId, a.sourceId, a.ref)
            && KeepsHistory(db.rows[a.id], after.rows[a.id])
            && Value(after.rows[a.id], kr, allow) == Value(db.rows[a.id], kr, allow)
            && after.rows[a.id].metadata == a.metadata
            && after.rows[a.id].status.None? && after.rows[a.id].supersededAt.None?
            && after.rows[a.id].lastUsedAt == db.rows[a.id].lastUsedAt
            && forall other <- db.rows | other != a.id :: after.rows[other] == db.rows[other])
  {
    var taken := FirstAt(db, a.userId, a.sourceId, a.ref, 0);
    if taken.Some? { assert StandsAt(db.rows[taken.value], a.userId, a.sourceId, a.ref); }
  }

  /** Purging twice is purging once, the first time kept; a hold outlasts every purge, and its value with it. */
  lemma PurgingTwiceIsOnce(row: Row, first: Time, again: Time)
    ensures Purged(Purged(row, first), again) == Purged(row, first)
    ensures Purged(row, first).revokedAt == Some(row.revokedAt.GetOr(first))
    ensures AwaitsRevocation(row) ==> Purged(row, first) == row.(revokedAt := Some(row.revokedAt.GetOr(first)))
    ensures !AwaitsRevocation(row) ==> Purged(row, first).ciphertext.None? && Purged(row, first).iv.None?
  {
    if row.ciphertext.None? && row.iv.None? && row.revokedAt.Some? {
      assert Purged(row, first) == row;
    }
  }

  /**
   * New metadata is refused exactly for a missing row or a sync that may not write it; it leaves the value, the history
   * and the usage, puts a superseded row back in use, and keeps the words of a person's revoke.
   */
  lemma MetadataExactly(db: Db, id: Id, metadata: Metadata, syncRun: Option<RunId>, kr: Keyring, allow: bool)
    ensures
      UpdateMetadata(db, id, metadata, syncRun).Ok? <==>
      && id in db.rows
      && (syncRun.Some? ==>
            db.rows[id].source.Page? && CurrentGeneration(db, db.rows[id].source.sourceId, syncRun.value))
    ensures UpdateMetadata(db, id, metadata, syncRun).Ok? ==>
      var row, after := db.rows[id], UpdateMetadata(db, id, metadata, syncRun).value;
      && id in after.rows && after == db.(rows := db.rows[id := after.rows[id]])
      && after.rows[id].userId == row.userId && after.rows[id].source == row.source
      && after.rows[id].metadata == metadata && after.rows[id].lastUsedAt == row.lastUsedAt
      && after.rows[id].supersededAt.None?
      && KeepsHistory(row, after.rows[id]) && Value(after.rows[id], kr, allow) == Value(row, kr, allow)
      && DecryptRow(after.rows[id], kr, allow) ==
           (if row.revokedAt.Some? then None else NotEmpty(Value(row, kr, allow)))
      && after.rows[id].statusReason == if row.revokedAt.Some? && row.status.None? then row.statusReason else None
  {
    if UpdateMetadata(db, id, metadata, syncRun).Ok? {
      assert UpdateMetadata(db, id, metadata, syncRun).value.rows[id].ciphertext == db.rows[id].ciphertext;
    }
  }

  /**
   * A page row a sync no longer finds opens to no one, keeps its value, and says since when; found again it is the row
   * it was, under its new metadata, but for a reason superseding overwrote.
   */
  lemma FoundAgainIsLive(
      db: Db, id: Id, gone: Time, metadata: Metadata, syncRun: Option<RunId>, kr: Keyring, allow: bool)
    requires id in db.rows && db.rows[id].source.Page? && db.rows[id].status.None?
    requires syncRun.Some? ==> CurrentGeneration(db, db.rows[id].source.sourceId, syncRun.value)
    ensures
      var row := db.rows[id];
      var superseded := ApplyTx(db, DoChange(id, Supersede(gone)), kr);
      var found := UpdateMetadata(superseded, id, metadata, syncRun);
      && id in superseded.rows && superseded == db.(rows := db.rows[id := superseded.rows[id]])
      && superseded.rows[id].supersededAt == Some(gone) && DecryptRow(superseded.rows[id], kr, allow) == None
      && ApplyTx(superseded, DoChange(id, Supersede(gone + 1)), kr) == superseded
      && found.Ok? && found.value == db.(rows := db.rows[id := row.(
           metadata := metadata, supersededAt := None, statusReason := None)])
      && DecryptRow(found.value.rows[id], kr, allow) ==
           (if row.revokedAt.Some? then None else NotEmpty(Value(row, kr, allow)))
  {
    var row := db.rows[id];
    var superseded := ApplyTx(db, DoChange(id, Supersede(gone)), kr);
    assert superseded.rows[id := superseded.rows[id]] == superseded.rows;
    assert Changed(superseded.rows[id], Supersede(gone + 1)) == superseded.rows[id];
    MetadataExactly(superseded, id, metadata, syncRun, kr, allow);
    assert superseded.rows[id].ciphertext == row.ciphertext;
    var found := UpdateMetadata(superseded, id, metadata, syncRun).value;
    assert found.rows[id] == row.(metadata := metadata, supersededAt := None, statusReason := None);
  }

  /** A use and a revoke make one stamp each, the first revoke standing; a prune deletes only what opens to no one. */
  lemma MarksExactly(db: Db, id: Id, now: Time, kr: Keyring, allow: bool)
    requires id in db.rows
    ensures
      var row := db.rows[id];
      && ApplyTx(db, DoChange(id, Touch(now)), kr) == db.(rows := db.rows[id := row.(lastUsedAt := Some(now))])
      && ApplyTx(db, DoChange(id, Revoke(now)), kr) ==
           db.(rows := db.rows[id := row.(revokedAt := Some(row.revokedAt.GetOr(now)))])
    ensures
      var row, after := db.rows[id], ApplyTx(db, DoPrune(id), kr);
      && after == db.(rows := after.rows)
      && (forall other <- db.rows | other != id :: other in after.rows && after.rows[other] == db.rows[other])
      && (id !in after.rows <==>
            row.source.Page? && row.status == Some(Superseded) && row.supersededAt.Some? && row.revokedAt.None?)
      && (id in after.rows ==> after == db)
      && (id !in after.rows ==> DecryptRow(row, kr, allow) == None)
  {
    if db.rows[id].revokedAt.Some? {
      assert db.rows[id].(revokedAt := Some(db.rows[id].revokedAt.GetOr(now))) == db.rows[id];
    }
  }
}
