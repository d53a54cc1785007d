/** What every transaction of the credential table keeps, and what holds over every run of them. */
module CredentialInvariants {
  import opened Prelude
  import opened Sealing
  import opened Credentials

  /** Holder and owner key agree, an issued row is no page's, and a held row is revoked and ends without its value. */
  predicate RowOk(row: Row) {
    && (row.organisation <==> IsOrganisationOwnerKey(row.userId))
    && (row.organisation ==> !row.source.Page?)
    && (row.issuedBy.Some? ==> !row.source.Page?)
    && (row.ciphertext.Some? <==> row.iv.Some?)
    && (row.sourceRevocation.Some? ==>
          && row.issuedBy.Some? && row.revokedAt.Some?
          && (row.sourceRevocation.value.state != Pending ==> row.ciphertext.None?))
  }

  predicate SameKey(a: Row, b: Row) {
    a.source.Page? && a.source == b.source && a.userId == b.userId
  }

  ghost predicate UniqueRefs(db: Db) {
    forall i, j :: i in db.rows && j in db.rows && SameKey(db.rows[i], db.rows[j]) ==> i == j
  }

  /** Every page row is its source's owner's. */
  ghost predicate OwnersHold(db: Db) {
    forall i <- db.rows | db.rows[i].source.Page? ::
      && db.rows[i].source.sourceId in db.sources
      && db.sources[db.rows[i].source.sourceId].userId == db.rows[i].userId
  }

  /** Ids are given in table order and never again. */
  ghost predicate IdsGiven(db: Db) {
    forall i <- db.rows :: i < db.next
  }

  ghost predicate Inv(db: Db) {
    && IdsGiven(db)
    && (forall i <- db.rows :: RowOk(db.rows[i]))
    && (forall s <- db.sources :: !IsOrganisationOwnerKey(db.sources[s].userId))
    && UniqueRefs(db)
    && OwnersHold(db)
  }

  function Run(db: Db, txs: seq<Tx>, kr: Keyring): Db {
    if txs == [] then db else ApplyTx(Run(db, txs[..|txs| - 1], kr), txs[|txs| - 1], kr)
  }

  const EMPTY := Db(map[], 0, map[], [], false)

  // ---------------------------------------------------------------- each transaction keeps the invariant

  /** With unique refs a `.unique()` read finds the one row at its key, or that there is none. */
  lemma UniqueReadNeverFails(db: Db, userId: string, sourceId: SourceId, ref: string)
    requires Inv(db)
    ensures UniqueAt(db, userId, sourceId, ref).Ok?
    ensures forall i <- db.rows ::
      StandsAt(db.rows[i], userId, sourceId, ref) <==> UniqueAt(db, userId, sourceId, ref) == Ok(Some(i))
  {
    var first := FirstAt(db, userId, sourceId, ref, 0);
    if first.Some? {
      var second := FirstAt(db, userId, sourceId, ref, first.value + 1);
      assert second.Some? ==> SameKey(db.rows[first.value], db.rows[second.value]);
    }
  }

  /** A patch that leaves every row's owner and source alone keeps refs unique. */
  lemma PatchKeepsInv(db: Db, id: Id, row: Row)
    requires Inv(db) && id in db.rows && RowOk(row)
    requires row.userId == db.rows[id].userId && row.source == db.rows[id].source
    ensures Inv(db.(rows := db.rows[id := row]))
  {
    var after := db.(rows := db.rows[id := row]);
    forall i, j | i in after.rows && j in after.rows && SameKey(after.rows[i], after.rows[j])
      ensures i == j
    {
      assert SameKey(db.rows[i], db.rows[j]);
    }
  }

  lemma InsertKeepsInv(db: Db, row: Row)
    requires Inv(db) && RowOk(row)
    requires row.source.Page? ==>
      && FirstAt(db, row.userId, row.source.sourceId, row.source.ref, 0).None?
      && row.source.sourceId in db.sources && db.sources[row.source.sourceId].userId == row.userId
    ensures Inv(db.(rows := db.rows[db.next := row], next := db.next + 1))
  {
    var after := db.(rows := db.rows[db.next := row], next := db.next + 1);
    forall i, j | i in after.rows && j in after.rows && SameKey(after.rows[i], after.rows[j])
      ensures i == j
    {
      if i in db.rows && j in db.rows {
        assert SameKey(db.rows[i], db.rows[j]);
      }
    }
  }

  lemma PersistKeepsInv(db: Db, a: PersistArgs, sealed: Sealed, now: Time)
    requires Inv(db) && Persist(db, a, sealed, now).Ok?
    ensures Inv(Persist(db, a, sealed, now).value.0)
  {
    var (after, id) := Persist(db, a, sealed, now).value;
    if a.source.Page? {
      UniqueReadNeverFails(db, a.userId, a.source.sourceId, a.source.ref);
    }
    if id in db.rows {
      PatchKeepsInv(db, id, Rotated(db.rows[id], a, sealed));
    } else {
      InsertKeepsInv(db, NewRow(a, sealed, now));
    }
  }

  /** Giving one page row a ref no row of its owner and source stands at keeps refs unique. */
  lemma MovedKeepsInv(db: Db, id: Id, row: Row)
    requires Inv(db) && id in db.rows && db.rows[id].source.Page? && RowOk(row)
    requires row.userId == db.rows[id].userId
    requires row.source.Page? && row.source.sourceId == db.rows[id].source.sourceId
    requires FirstAt(db, row.userId, row.source.sourceId, row.source.ref, 0).None?
    ensures Inv(db.(rows := db.rows[id := row]))
  {
    var after := db.(rows := db.rows[id := row]);
    forall i, j | i in after.rows && j in after.rows && SameKey(after.rows[i], after.rows[j])
      ensures i == j
    {
      if i != id && j != id {
        assert SameKey(db.rows[i], db.rows[j]);
      }
    }
  }

  lemma OneValueRefKeepsInv(db: Db, m: RefMove)
    requires Inv(db)
    ensures Inv(ApplyOneValueRef(db, m))
  {
    if OutcomeOf(db, m) == Moved {
      MovedKeepsInv(db, m.id, db.rows[m.id].(source := Page(db.rows[m.id].source.sourceId, m.ref)));
    }
  }

  lemma {:induction false} ValueRefsKeepInv(db: Db, moves: seq<RefMove>)
    requires Inv(db)
    ensures Inv(ApplyValueRefs(db, moves))
  {
    if moves != [] {
      ValueRefsKeepInv(db, moves[..|moves| - 1]);
      OneValueRefKeepsInv(ApplyValueRefs(db, moves[..|moves| - 1]), moves[|moves| - 1]);
    }
  }

  lemma ChangeKeepsRowOk(row: Row, change: RowChange)
    requires RowOk(row)
    ensures RowOk(Changed(row, change))
    ensures Changed(row, change).userId == row.userId && Changed(row, change).source == row.source
  {
  }

  /** A table with no row but those that stood, each where it stood, keeps the rows' part of the invariant. */
  lemma FewerRowsKeepInv(db: Db, after: Db)
    requires Inv(db)
    requires after.rows.Keys <= db.rows.Keys && after.next == db.next
    requires forall i <- after.rows :: after.rows[i] == db.rows[i]
    requires forall s <- db.sources :: s in after.sources && after.sources[s].userId == db.sources[s].userId
    requires forall s <- after.sources :: !IsOrganisationOwnerKey(after.sources[s].userId)
    ensures Inv(after)
  {
    forall i, j | i in after.rows && j in after.rows && SameKey(after.rows[i], after.rows[j])
      ensures i == j
    {
      assert SameKey(db.rows[i], db.rows[j]);
    }
  }

  lemma MetadataKeepsInv(db: Db, id: Id, metadata: Metadata, syncRun: Option<RunId>)
    requires Inv(db) && UpdateMetadata(db, id, metadata, syncRun).Ok?
    ensures Inv(UpdateMetadata(db, id, metadata, syncRun).value)
  {
    PatchKeepsInv(db, id, UpdateMetadata(db, id, metadata, syncRun).value.rows[id]);
  }

  lemma MoveToRefKeepsInv(db: Db, a: MoveArgs)
    requires Inv(db) && MoveToRef(db, a).Ok?
    ensures Inv(MoveToRef(db, a).value.0)
  {
    if MoveToRef(db, a).value.1 {
      MovedKeepsInv(db, a.id, MoveToRef(db, a).value.0.rows[a.id]);
    }
  }

  lemma SourcesKeepInv(db: Db, tx: Tx, kr: Keyring)
    requires Inv(db) && (tx.DoLink? || tx.DoUnlink? || tx.DoBeginRun?)
    ensures Inv(ApplyTx(db, tx, kr))
  {
    FewerRowsKeepInv(db, ApplyTx(db, tx, kr));
  }

  lemma RunsOrPruneKeepInv(db: Db, tx: Tx, kr: Keyring)
    requires Inv(db) && (tx.DoPrune? || tx.DoRecordRefs? || tx.DoEndRun?)
    ensures Inv(ApplyTx(db, tx, kr))
  {
    FewerRowsKeepInv(db, ApplyTx(db, tx, kr));
  }

  lemma ChangeKeepsInv(db: Db, id: Id, change: RowChange)
    requires Inv(db) && id in db.rows
    ensures Inv(db.(rows := db.rows[id := Changed(db.rows[id], change)]))
  {
    ChangeKeepsRowOk(db.rows[id], change);
    PatchKeepsInv(db, id, Changed(db.rows[id], change));
  }

  lemma TxKeepsInv(db: Db, tx: Tx, kr: Keyring)
    requires Inv(db)
    ensures Inv(ApplyTx(db, tx, kr))
  {
    match tx
    case DoPersist(a, plaintext, iv, now) =>
      var sealed := SealFor(plaintext, kr, a.userId, iv);
      if Persist(db, a, sealed, now).Ok? { PersistKeepsInv(db, a, sealed, now); }
    case DoUpdateMetadata(id, metadata, syncRun) =>
      if UpdateMetadata(db, id, metadata, syncRun).Ok? { MetadataKeepsInv(db, id, metadata, syncRun); }
    case DoMoveToRef(a) =>
      if MoveToRef(db, a).Ok? { MoveToRefKeepsInv(db, a); }
    case DoApplyValueRefs(moves) => ValueRefsKeepInv(db, moves);
    case DoChange(id, change) =>
      if id in db.rows { ChangeKeepsInv(db, id, change); }
    case _ =>
      if tx.DoLink? || tx.DoUnlink? || tx.DoBeginRun? {
        SourcesKeepInv(db, tx, kr);
      } else {
        RunsOrPruneKeepInv(db, tx, kr);
      }
  }

  // ---------------------------------------------------------------- over every run

  /**
   * From any table that meets the invariant, the empty one among them, over every interleaving of the table's
   * transactions: at most one row stands at each owner, source and ref, a row the organisation holds is under the
   * reserved key and no page's, and an issued row is no page's.
   */
  lemma {:induction false} RunKeepsInv(db: Db, txs: seq<Tx>, kr: Keyring)
    requires Inv(db)
    ensures Inv(Run(db, txs, kr))
  {
    if txs != [] {
      RunKeepsInv(db, txs[..|txs| - 1], kr);
      TxKeepsInv(Run(db, txs[..|txs| - 1], kr), txs[|txs| - 1], kr);
    }
  }

  predicate IsRevoked(db: Db, id: Id) {
    id in db.rows && db.rows[id].revokedAt.Some?
  }

  /** The same row, at most its ref on its own source changed. */
  predicate RefMovedAtMost(row: Row, after: Row) {
    && after == row.(source := after.source)
    && (|| after.source == row.source
        || (row.source.Page? && after.source.Page? && after.source.sourceId == row.source.sourceId))
  }

  ghost predicate OnlyRefsMoved(db: Db, after: Db) {
    && after.rows.Keys == db.rows.Keys && after.next == db.next
    && after.sources == db.sources && after.resealDone == db.resealDone
    && (forall i <- db.rows :: RefMovedAtMost(db.rows[i], after.rows[i]))
  }

  lemma OneValueRefOnlyMoves(db: Db, m: RefMove)
    ensures OnlyRefsMoved(db, ApplyOneValueRef(db, m))
  {
  }

  lemma OnlyRefsMovedTransitive(a: Db, b: Db, c: Db)
    requires OnlyRefsMoved(a, b) && OnlyRefsMoved(b, c)
    ensures OnlyRefsMoved(a, c)
  {
    forall i | i in a.rows
      ensures RefMovedAtMost(a.rows[i], c.rows[i])
    {
      assert RefMovedAtMost(a.rows[i], b.rows[i]) && RefMovedAtMost(b.rows[i], c.rows[i]);
    }
  }

  lemma {:induction false} ValueRefsOnlyMove(db: Db, moves: seq<RefMove>)
    ensures OnlyRefsMoved(db, ApplyValueRefs(db, moves))
  {
    if moves != [] {
      var before := ApplyValueRefs(db, moves[..|moves| - 1]);
      ValueRefsOnlyMove(db, moves[..|moves| - 1]);
      OneValueRefOnlyMoves(before, moves[|moves| - 1]);
      OnlyRefsMovedTransitive(db, before, ApplyValueRefs(db, moves));
    }
  }

  lemma RevokeStandsOneStep(db: Db, tx: Tx, kr: Keyring, id: Id)
    requires IdsGiven(db) && IsRevoked(db, id)
    ensures IdsGiven(ApplyTx(db, tx, kr)) && IsRevoked(ApplyTx(db, tx, kr), id)
  {
    if tx.DoApplyValueRefs? {
      ValueRefsOnlyMove(db, tx.moves);
      assert RefMovedAtMost(db.rows[id], ApplyTx(db, tx, kr).rows[id]);
    }
  }

  /** A person's revoke stands: no run un-revokes the row or deletes it, so `decrypt` never opens it again. */
  lemma {:induction false} RevokeStands(db: Db, txs: seq<Tx>, kr: Keyring, id: Id, allowUnbound: bool)
    requires IdsGiven(db) && IsRevoked(db, id)
    ensures IdsGiven(Run(db, txs, kr)) && IsRevoked(Run(db, txs, kr), id)
    ensures DecryptRow(Run(db, txs, kr).rows[id], kr, allowUnbound) == None
  {
    if txs != [] {
      RevokeStands(db, txs[..|txs| - 1], kr, id, allowUnbound);
      RevokeStandsOneStep(Run(db, txs[..|txs| - 1], kr), txs[|txs| - 1], kr, id);
    }
  }
}
