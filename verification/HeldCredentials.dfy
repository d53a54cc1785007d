/** The vendor hold on a credential: what every step keeps of it, how it ends, and that it stays ended. */
module HeldCredentials {
  import opened Prelude
  import opened Sealing
  import opened Credentials
  import opened CredentialInvariants
  import opened Reseal

  ghost predicate Good(s: Sys, kr: Keyring, allow: bool) {
    Inv(s.db) && SysOk(s, kr, allow)
  }

  lemma OneResealKeepsInv(db: Db, r: Resealed, kr: Keyring, allow: bool)
    requires Inv(db) && ItemOk(db, r, kr, allow)
    ensures Inv(ApplyOneReseal(db, r))
  {
    if StillHolds(db, r) {
      PatchKeepsInv(db, r.id, ApplyOneReseal(db, r).rows[r.id]);
    }
  }

  lemma {:induction false} ApplyKeepsInv(db: Db, items: seq<Resealed>, kr: Keyring, allow: bool)
    requires Inv(db) && forall r <- items :: ItemOk(db, r, kr, allow)
    ensures Inv(ApplyReseal(db, items).0)
  {
    if items != [] {
      var before := ApplyReseal(db, items[..|items| - 1]).0;
      ApplyKeepsInv(db, items[..|items| - 1], kr, allow);
      ApplyIsInvisible(db, items[..|items| - 1], kr, allow);
      ItemEvolves(db, before, items[|items| - 1], kr, allow);
      OneResealKeepsInv(before, items[|items| - 1], kr, allow);
    }
  }

  lemma NextKeepsGood(s: Sys, step: Step, kr: Keyring, allow: bool)
    requires Good(s, kr, allow)
    ensures Good(Next(s, step, kr), kr, allow)
  {
    NextKeepsSysOk(s, step, kr, allow);
    match step
    case Transact(tx) => TxKeepsInv(s.db, tx, kr);
    case ApplyPage(i) =>
      if i < |s.drivers| && s.drivers[i].phase.Loaded? {
        assert s.drivers[i] in s.drivers;
        ApplyKeepsInv(s.db, s.drivers[i].phase.items, kr, allow);
      }
    case CompleteMigration => FewerRowsKeepInv(s.db, Next(s, step, kr).db);
    case _ =>
  }

  /** Over every run, re-seals included, the table keeps its invariant. */
  lemma {:induction false} StepsKeepGood(s: Sys, steps: seq<Step>, kr: Keyring, allow: bool)
    requires Good(s, kr, allow)
    ensures Good(Steps(s, steps, kr), kr, allow)
  {
    if steps != [] {
      StepsKeepGood(s, steps[..|steps| - 1], kr, allow);
      NextKeepsGood(Steps(s, steps[..|steps| - 1], kr), steps[|steps| - 1], kr, allow);
    }
  }

  lemma NextKeepsRevoked(s: Sys, step: Step, kr: Keyring, allow: bool, id: Id)
    requires SysOk(s, kr, allow) && IsRevoked(s.db, id)
    ensures IsRevoked(Next(s, step, kr).db, id)
  {
    match step
    case Transact(tx) => RevokeStandsOneStep(s.db, tx, kr, id);
    case ApplyPage(i) => PageIsInvisible(s, i, kr, allow, id);
    case _ =>
  }

  /**
   * A person's revoke stands through every step, a page of re-sealed values read before it and applied after it
   * included.
   */
  lemma {:induction false} RevokeOutlastsReseals(
      s: Sys, steps: seq<Step>, kr: Keyring, allow: bool, id: Id, allowUnbound: bool)
    requires SysOk(s, kr, allow) && IsRevoked(s.db, id)
    ensures SysOk(Steps(s, steps, kr), kr, allow) && IsRevoked(Steps(s, steps, kr).db, id)
    ensures DecryptRow(Steps(s, steps, kr).db.rows[id], kr, allowUnbound) == None
  {
    if steps != [] {
      var before, step := Steps(s, steps[..|steps| - 1], kr), steps[|steps| - 1];
      RevokeOutlastsReseals(s, steps[..|steps| - 1], kr, allow, id, allowUnbound);
      NextKeepsSysOk(before, step, kr, allow);
      NextKeepsRevoked(before, step, kr, allow, id);
    }
  }

  /** Held: revoked, its revocation pending, and its value still there for the vendor call. */
  predicate HeldWith(db: Db, id: Id, value: Option<string>, kr: Keyring, allow: bool) {
    && id in db.rows
    && AwaitsRevocation(db.rows[id])
    && db.rows[id].revokedAt.Some?
    && Value(db.rows[id], kr, allow) == value
  }

  /** What the vendor call's decrypt answers: only a held row Day0 obtained opens there; None where it throws. */
  function DecryptForRevocation(row: Row, kr: Keyring, allow: bool): Option<string> {
    if row.issuedBy.None? || !AwaitsRevocation(row) || !HoldsValue(row) then None else NotEmpty(Value(row, kr, allow))
  }

  /**
   * The vendor's call opens exactly an issued row whose revocation is pending, to its value; and no row of a sound
   * table opens both there and to its employee.
   */
  lemma NeverOpensForBoth(row: Row, kr: Keyring, allow: bool, value: string)
    ensures
      DecryptForRevocation(row, kr, allow) == Some(value) <==>
      && row.issuedBy.Some? && row.sourceRevocation.Some? && row.sourceRevocation.value.state == Pending
      && Value(row, kr, allow) == Some(value) && value != ""
    ensures RowOk(row) ==> DecryptForRevocation(row, kr, allow) == None || DecryptRow(row, kr, allow) == None
  {
    hide OpenOwned;
  }

  predicate Finishes(step: Step, id: Id) {
    step.Transact? && step.tx.DoChange? && step.tx.id == id && step.tx.change.Finish?
  }

  lemma SameSealSameValue(a: Row, b: Row, kr: Keyring, allow: bool)
    requires a.userId == b.userId && SameSeal(a, b)
    ensures Value(a, kr, allow) == Value(b, kr, allow)
  {
  }

  lemma ChangeKeepsHeld(row: Row, change: RowChange)
    requires AwaitsRevocation(row) && row.issuedBy.Some? && !change.Finish?
    ensures AwaitsRevocation(Changed(row, change)) && SameSeal(row, Changed(row, change))
    ensures Changed(row, change).userId == row.userId
    ensures row.revokedAt.Some? ==> Changed(row, change).revokedAt.Some?
  {
  }

  /** An issued row is patched by its id alone: no page write, move or prune reaches it. */
  lemma TxKeepsHeld(db: Db, tx: Tx, kr: Keyring, id: Id)
    requires Inv(db) && id in db.rows && AwaitsRevocation(db.rows[id]) && db.rows[id].revokedAt.Some?
    requires !(tx.DoChange? && tx.id == id && tx.change.Finish?)
    ensures id in ApplyTx(db, tx, kr).rows
    ensures AwaitsRevocation(ApplyTx(db, tx, kr).rows[id]) && SameSeal(db.rows[id], ApplyTx(db, tx, kr).rows[id])
    ensures ApplyTx(db, tx, kr).rows[id].userId == db.rows[id].userId && ApplyTx(db, tx, kr).rows[id].revokedAt.Some?
  {
    assert RowOk(db.rows[id]);
    match tx
    case DoChange(_, change) => if tx.id == id { ChangeKeepsHeld(db.rows[id], change); }
    case DoApplyValueRefs(moves) =>
      ValueRefsOnlyMove(db, moves);
      assert RefMovedAtMost(db.rows[id], ApplyTx(db, tx, kr).rows[id]);
    case DoUpdateMetadata(at, metadata, syncRun) =>
      if UpdateMetadata(db, at, metadata, syncRun).Ok? { MetadataKeepsHeld(db, at, metadata, syncRun, id); }
    case _ => NonPageRowIsLeft(db, tx, kr, id);
  }

  lemma PersistLeavesNonPage(db: Db, a: PersistArgs, sealed: Sealed, now: Time, id: Id)
    requires IdsGiven(db) && id in db.rows && !db.rows[id].source.Page? && Persist(db, a, sealed, now).Ok?
    ensures id in Persist(db, a, sealed, now).value.0.rows
    ensures Persist(db, a, sealed, now).value.0.rows[id] == db.rows[id]
  {
  }

  /** A row that came from no page is written by its id alone. */
  lemma NonPageRowIsLeft(db: Db, tx: Tx, kr: Keyring, id: Id)
    requires Inv(db) && id in db.rows && !db.rows[id].source.Page?
    requires !tx.DoChange? && !tx.DoApplyValueRefs? && !tx.DoUpdateMetadata?
    ensures id in ApplyTx(db, tx, kr).rows && ApplyTx(db, tx, kr).rows[id] == db.rows[id]
  {
    match tx
    case DoPersist(a, plaintext, iv, now) =>
      var sealed := SealFor(plaintext, kr, a.userId, iv);
      if Persist(db, a, sealed, now).Ok? { PersistLeavesNonPage(db, a, sealed, now, id); }
    case _ =>
  }

  /** A new label and status on a row leave its value, its revoke and its vendor revocation. */
  lemma MetadataKeepsHeld(db: Db, at: Id, metadata: Metadata, syncRun: Option<RunId>, id: Id)
    requires id in db.rows && UpdateMetadata(db, at, metadata, syncRun).Ok?
    ensures
      var after := UpdateMetadata(db, at, metadata, syncRun).value;
      && id in after.rows && SameSeal(db.rows[id], after.rows[id]) && after.rows[id].userId == db.rows[id].userId
      && after.rows[id].revokedAt == db.rows[id].revokedAt
      && after.rows[id].sourceRevocation == db.rows[id].sourceRevocation
  {
  }

  lemma NextKeepsHeld(s: Sys, step: Step, kr: Keyring, allow: bool, id: Id, value: Option<string>)
    requires Good(s, kr, allow) && HeldWith(s.db, id, value, kr, allow) && !Finishes(step, id)
    ensures HeldWith(Next(s, step, kr).db, id, value, kr, allow)
  {
    match step
    case Transact(tx) =>
      TxKeepsHeld(s.db, tx, kr, id);
      SameSealSameValue(s.db.rows[id], ApplyTx(s.db, tx, kr).rows[id], kr, allow);
    case ApplyPage(i) => PageIsInvisible(s, i, kr, allow, id);
    case _ =>
  }

  /** A page of another action's re-sealed values changes at most what the row is sealed under. */
  lemma PageIsInvisible(s: Sys, i: nat, kr: Keyring, allow: bool, id: Id)
    requires SysOk(s, kr, allow) && id in s.db.rows
    ensures id in Next(s, ApplyPage(i), kr).db.rows
    ensures AlikeRow(s.db.rows[id], Next(s, ApplyPage(i), kr).db.rows[id], ReaderOf(kr, allow))
  {
    if i < |s.drivers| && s.drivers[i].phase.Loaded? {
      assert s.drivers[i] in s.drivers;
      ApplyIsInvisible(s.db, s.drivers[i].phase.items, kr, allow);
    }
  }

  /** From the hold to its final state a held row keeps its value through every purge, revoke, sync and re-seal. */
  lemma {:induction false} HeldKeepsItsValue(
    s: Sys, steps: seq<Step>, kr: Keyring, allow: bool, id: Id, value: Option<string>)
    requires Good(s, kr, allow) && HeldWith(s.db, id, value, kr, allow)
    requires forall step <- steps :: !Finishes(step, id)
    ensures Good(Steps(s, steps, kr), kr, allow)
    ensures HeldWith(Steps(s, steps, kr).db, id, value, kr, allow)
  {
    if steps != [] {
      var before, step := Steps(s, steps[..|steps| - 1], kr), steps[|steps| - 1];
      HeldKeepsItsValue(s, steps[..|steps| - 1], kr, allow, id, value);
      assert step in steps;
      NextKeepsGood(before, step, kr, allow);
      NextKeepsHeld(before, step, kr, allow, id, value);
    }
  }

  /**
   * All that while the vendor call's decrypt answers the value that was held, and `decrypt` none.
   */
  lemma HeldOpensForRevocationOnly(
      s: Sys, steps: seq<Step>, kr: Keyring, allow: bool, id: Id, value: Option<string>)
    requires Good(s, kr, allow) && HeldWith(s.db, id, value, kr, allow)
    requires forall step <- steps :: !Finishes(step, id)
    ensures id in Steps(s, steps, kr).db.rows
    ensures
      var row := Steps(s, steps, kr).db.rows[id];
      DecryptForRevocation(row, kr, allow) == NotEmpty(value) && DecryptRow(row, kr, allow) == None
  {
    HeldKeepsItsValue(s, steps, kr, allow, id, value);
    assert RowOk(Steps(s, steps, kr).db.rows[id]);
  }

  predicate IsFinal(db: Db, id: Id) {
    && id in db.rows && db.rows[id].sourceRevocation.Some?
    && db.rows[id].sourceRevocation.value.state != Pending
  }

  lemma ChangeKeepsFinal(row: Row, change: RowChange)
    requires row.sourceRevocation.Some? && row.sourceRevocation.value.state != Pending
    ensures Changed(row, change).sourceRevocation == row.sourceRevocation
  {
  }

  lemma TxKeepsFinal(db: Db, tx: Tx, kr: Keyring, id: Id)
    requires Inv(db) && IsFinal(db, id)
    ensures IsFinal(ApplyTx(db, tx, kr), id)
  {
    assert RowOk(db.rows[id]);
    match tx
    case DoChange(_, change) => if tx.id == id { ChangeKeepsFinal(db.rows[id], change); }
    case DoApplyValueRefs(moves) =>
      ValueRefsOnlyMove(db, moves);
      assert RefMovedAtMost(db.rows[id], ApplyTx(db, tx, kr).rows[id]);
    case DoUpdateMetadata(at, metadata, syncRun) =>
      if UpdateMetadata(db, at, metadata, syncRun).Ok? { MetadataKeepsHeld(db, at, metadata, syncRun, id); }
    case _ => NonPageRowIsLeft(db, tx, kr, id);
  }

  lemma NextKeepsFinal(s: Sys, step: Step, kr: Keyring, allow: bool, id: Id)
    requires Good(s, kr, allow) && IsFinal(s.db, id)
    ensures IsFinal(Next(s, step, kr).db, id)
  {
    match step
    case Transact(tx) => TxKeepsFinal(s.db, tx, kr, id);
    case ApplyPage(i) => PageIsInvisible(s, i, kr, allow, id);
    case _ =>
  }

  /**
   * Once its revocation is final a held row never holds a ciphertext again, under any interleaving:
   * a page of re-sealed values read before the end and applied after it writes nothing there.
   */
  lemma {:induction false} FinalHoldsNothingAgain(s: Sys, steps: seq<Step>, kr: Keyring, allow: bool, id: Id)
    requires Good(s, kr, allow) && IsFinal(s.db, id)
    ensures Good(Steps(s, steps, kr), kr, allow)
    ensures IsFinal(Steps(s, steps, kr).db, id) && Steps(s, steps, kr).db.rows[id].ciphertext.None?
    ensures Steps(s, steps, kr).db.rows[id].revokedAt.Some?
    ensures DecryptForRevocation(Steps(s, steps, kr).db.rows[id], kr, allow) == None
  {
    if steps != [] {
      var before, step := Steps(s, steps[..|steps| - 1], kr), steps[|steps| - 1];
      FinalHoldsNothingAgain(s, steps[..|steps| - 1], kr, allow, id);
      NextKeepsGood(before, step, kr, allow);
      NextKeepsFinal(before, step, kr, allow, id);
    }
    assert RowOk(Steps(s, steps, kr).db.rows[id]);
  }

  /** Finishing deletes the value, keeps the attempts and the end that asked, and leaves the row revoked. */
  lemma FinishEndsTheHold(
      db: Db, id: Id, state: FinalState, lastError: Option<string>, now: Time, kr: Keyring, value: Option<string>,
      allow: bool)
    requires Inv(db) && HeldWith(db, id, value, kr, allow)
    ensures
      var after := ApplyTx(db, DoChange(id, Finish(state, lastError, now)), kr);
      && IsFinal(after, id) && after.rows[id].ciphertext.None? && after.rows[id].iv.None?
      && after.rows[id].revokedAt == db.rows[id].revokedAt
      && after.rows[id].sourceRevocation.value.attempts == db.rows[id].sourceRevocation.value.attempts
      && after.rows[id].sourceRevocation.value.end == db.rows[id].sourceRevocation.value.end
  {
  }
}
