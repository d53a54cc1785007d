/**
 * The story of a vendor hold, told from the changes a run asks of the held row alone (convex/sourceRevocation.ts):
 * what the row says of its revocation at any moment, and who can open its value then.
 */
module VendorHolds {
  import opened Prelude
  import opened Sealing
  import opened Credentials
  import opened CredentialInvariants
  import opened Reseal
  import opened HeldCredentials

  /** The changes a run asks of one row, in order. */
  function Asked(steps: seq<Step>, id: Id): seq<RowChange> {
    if steps == [] then []
    else
      var last := steps[|steps| - 1];
      Asked(steps[..|steps| - 1], id)
      + if last.Transact? && last.tx.DoChange? && last.tx.id == id then [last.tx.change] else []
  }

  /** Those before the first that ends the revocation. */
  function BeforeTheEnd(changes: seq<RowChange>): (r: seq<RowChange>)
    ensures r <= changes
    ensures |r| < |changes| ==> changes[|r|].Finish?
  {
    if changes == [] then []
    else
      var front := changes[..|changes| - 1];
      if BeforeTheEnd(front) == front && !changes[|front|].Finish? then changes else BeforeTheEnd(front)
  }

  function Attempts(changes: seq<RowChange>): nat {
    if changes == [] then 0
    else Attempts(changes[..|changes| - 1]) + if changes[|changes| - 1].Attempt? then 1 else 0
  }

  /** A vendor's refusal that answers the attempt last made. */
  predicate AnswersTheLatest(changes: seq<RowChange>, answer: RowChange) {
    answer.Retry? && answer.attempt == Attempts(changes)
  }

  /** The words of the last refusal that answered the attempt then last made. */
  function LastWords(changes: seq<RowChange>): Option<string> {
    if changes == [] then None
    else
      var front, last := changes[..|changes| - 1], changes[|changes| - 1];
      if AnswersTheLatest(front, last) then Some(last.words) else LastWords(front)
  }

  /** When the hold began, or its last attempt was made or answered. */
  function LastHeard(changes: seq<RowChange>, began: Time): Time {
    if changes == [] then began
    else
      var front, last := changes[..|changes| - 1], changes[|changes| - 1];
      if last.Attempt? || AnswersTheLatest(front, last) then last.now else LastHeard(front, began)
  }

  /** What a row held at `began` for `end` says of its revocation, by what was asked of it since. */
  function Told(changes: seq<RowChange>, end: string, began: Time): Revocation {
    var before := BeforeTheEnd(changes);
    if before == changes then
      Revocation(Pending, Attempts(before), LastHeard(before, began), Some(end), LastWords(before))
    else
      var finish := changes[|before|];
      Revocation(
        finish.state, Attempts(before), finish.now, Some(end),
        if finish.lastError.Some? then finish.lastError else LastWords(before))
  }

  /** The row stands revoked since the hold, says what it is told, and holds its value until the end and none after. */
  ghost predicate HeldAs(
      s: Sys, id: Id, changes: seq<RowChange>, end: string, began: Time, value: Option<string>, kr: Keyring,
      allow: bool)
  {
    && Good(s, kr, allow) && id in s.db.rows && s.db.rows[id].issuedBy.Some?
    && s.db.rows[id].revokedAt == Some(began)
    && s.db.rows[id].sourceRevocation == Some(Told(changes, end, began))
    && (BeforeTheEnd(changes) == changes ==> Value(s.db.rows[id], kr, allow) == value)
  }

  /** What one more thing asked adds to it. */
  function AddTo(told: Revocation, change: RowChange): Revocation {
    if told.state != Pending then told
    else
      match change
      case Attempt(now) => told.(attempts := told.attempts + 1, at := now)
      case Retry(attempt, words, now) =>
        if told.attempts == attempt then told.(lastError := Some(words), at := now) else told
      case Finish(state, lastError, now) =>
        told.(state := state, at := now, lastError := if lastError.Some? then lastError else told.lastError)
      case _ => told
  }

  lemma ToldNext(changes: seq<RowChange>, change: RowChange, end: string, began: Time)
    ensures Told(changes + [change], end, began) == AddTo(Told(changes, end, began), change)
  {
    assert (changes + [change])[..|changes|] == changes;
  }

  /** A change asked of a held row adds that to its record, and keeps when it was revoked and how it was issued. */
  lemma ChangeAdds(row: Row, change: RowChange, told: Revocation)
    requires row.issuedBy.Some? && row.revokedAt.Some? && row.sourceRevocation == Some(told)
    ensures Changed(row, change).revokedAt == row.revokedAt && Changed(row, change).issuedBy == row.issuedBy
    ensures Changed(row, change).sourceRevocation == Some(AddTo(told, change))
  {
  }

  lemma ChangeTells(row: Row, change: RowChange, changes: seq<RowChange>, end: string, began: Time)
    requires row.revokedAt == Some(began) && row.issuedBy.Some?
    requires row.sourceRevocation == Some(Told(changes, end, began))
    ensures Changed(row, change).revokedAt == Some(began) && Changed(row, change).issuedBy == row.issuedBy
    ensures Changed(row, change).sourceRevocation == Some(Told(changes + [change], end, began))
  {
    hide Told, AddTo, Changed;
    ChangeAdds(row, change, Told(changes, end, began));
    ToldNext(changes, change, end, began);
  }

  /** A change of a held row's value comes with the end of its revocation. */
  lemma OpenNext(changes: seq<RowChange>, change: RowChange)
    ensures BeforeTheEnd(changes + [change]) == changes + [change] <==>
      BeforeTheEnd(changes) == changes && !change.Finish?
  {
    assert (changes + [change])[..|changes|] == changes;
  }

  /** Any other step leaves what the row says of its revocation. */
  lemma OthersLeaveTheRecord(s: Sys, step: Step, kr: Keyring, allow: bool, id: Id)
    requires Good(s, kr, allow) && id in s.db.rows && s.db.rows[id].issuedBy.Some?
    requires !(step.Transact? && step.tx.DoChange? && step.tx.id == id)
    ensures
      var after := Next(s, step, kr).db;
      && id in after.rows && after.rows[id].issuedBy == s.db.rows[id].issuedBy
      && after.rows[id].revokedAt == s.db.rows[id].revokedAt
      && after.rows[id].sourceRevocation == s.db.rows[id].sourceRevocation
  {
    assert RowOk(s.db.rows[id]);
    match step
    case Transact(tx) => TxLeavesTheRecord(s.db, tx, kr, id);
    case ApplyPage(i) => PageIsInvisible(s, i, kr, allow, id);
    case _ =>
  }

  lemma TxLeavesTheRecord(db: Db, tx: Tx, kr: Keyring, id: Id)
    requires Inv(db) && id in db.rows && db.rows[id].issuedBy.Some? && !db.rows[id].source.Page?
    requires !(tx.DoChange? && tx.id == id)
    ensures
      var after := ApplyTx(db, tx, kr);
      && id in after.rows && after.rows[id].issuedBy == db.rows[id].issuedBy
      && after.rows[id].revokedAt == db.rows[id].revokedAt
      && after.rows[id].sourceRevocation == db.rows[id].sourceRevocation
  {
    match tx
    case DoChange(_, change) =>
    case DoApplyValueRefs(moves) =>
      ValueRefsOnlyMove(db, moves);
      assert RefMovedAtMost(db.rows[id], ApplyTx(db, tx, kr).rows[id]);
    case DoUpdateMetadata(at, metadata, syncRun) =>
      if UpdateMetadata(db, at, metadata, syncRun).Ok? { MetadataKeepsHeld(db, at, metadata, syncRun, id); }
    case _ => NonPageRowIsLeft(db, tx, kr, id);
  }

  lemma NextTells(
      s: Sys, step: Step, kr: Keyring, allow: bool, id: Id, changes: seq<RowChange>, end: string, began: Time,
      value: Option<string>)
    requires HeldAs(s, id, changes, end, began, value, kr, allow)
    ensures HeldAs(Next(s, step, kr), id, changes + Asked([step], id), end, began, value, kr, allow)
  {
    NextKeepsGood(s, step, kr, allow);
    assert RowOk(s.db.rows[id]);
    assert [step][..0] == [];
    if BeforeTheEnd(changes) == changes && !Finishes(step, id) {
      NextKeepsHeld(s, step, kr, allow, id, value);
    }
    if step.Transact? && step.tx.DoChange? && step.tx.id == id {
      ChangeTells(s.db.rows[id], step.tx.change, changes, end, began);
      OpenNext(changes, step.tx.change);
      assert Asked([step], id) == [step.tx.change];
    } else {
      OthersLeaveTheRecord(s, step, kr, allow, id);
      assert changes + Asked([step], id) == changes;
    }
  }

  lemma AskedNext(steps: seq<Step>, id: Id)
    requires steps != []
    ensures Asked(steps, id) == Asked(steps[..|steps| - 1], id) + Asked([steps[|steps| - 1]], id)
  {
    assert [steps[|steps| - 1]][..0] == [];
  }

  lemma {:induction false} StepsTell(
      s: Sys, steps: seq<Step>, kr: Keyring, allow: bool, id: Id, end: string, began: Time, value: Option<string>)
    requires HeldAs(s, id, [], end, began, value, kr, allow)
    ensures HeldAs(Steps(s, steps, kr), id, Asked(steps, id), end, began, value, kr, allow)
  {
    if steps != [] {
      var front := steps[..|steps| - 1];
      StepsTell(s, front, kr, allow, id, end, began, value);
      AskedNext(steps, id);
      NextTells(Steps(s, front, kr), steps[|steps| - 1], kr, allow, id, Asked(front, id), end, began, value);
    }
  }

  /** Only a row Day0 obtained, with no revocation recorded, can be held. */
  predicate Holdable(row: Row) {
    row.issuedBy.Some? && row.sourceRevocation.None?
  }

  /** A hold of any other row changes nothing; a hold touches no other row, and of its own only the two stamps. */
  lemma HoldTouchesItsRow(db: Db, id: Id, end: string, now: Time, kr: Keyring)
    requires id in db.rows
    ensures
      var after := ApplyTx(db, DoChange(id, Hold(end, now)), kr);
      && (after == db <==> !Holdable(db.rows[id]))
      && after == db.(rows := db.rows[id := db.rows[id].(
           revokedAt := after.rows[id].revokedAt, sourceRevocation := after.rows[id].sourceRevocation)])
  {
    var after := ApplyTx(db, DoChange(id, Hold(end, now)), kr);
    if !Holdable(db.rows[id]) {
      assert db.rows == db.rows[id := db.rows[id]];
    } else {
      assert after.rows[id].sourceRevocation.Some?;
    }
  }

  /**
   * A hold and any run after it, re-seals included. The row stands revoked since the hold, over a person's earlier
   * revoke too; it says exactly how often the vendor was asked, what it last answered, and how and when it ended, the
   * first end standing; the vendor's call opens the value the row had before the hold until that end, and no one
   * opens it otherwise.
   */
  lemma HoldIsItsStory(
      s: Sys, id: Id, end: string, began: Time, steps: seq<Step>, kr: Keyring, allow: bool)
    requires Good(s, kr, allow) && id in s.db.rows && Holdable(s.db.rows[id])
    ensures
      var after := Steps(Next(s, Transact(DoChange(id, Hold(end, began))), kr), steps, kr).db;
      var changes := Asked(steps, id);
      && id in after.rows
      && after.rows[id].revokedAt == Some(began)
      && after.rows[id].sourceRevocation == Some(Told(changes, end, began))
      && (BeforeTheEnd(changes) != changes ==> after.rows[id].ciphertext.None? && after.rows[id].iv.None?)
      && DecryptForRevocation(after.rows[id], kr, allow) ==
           (if BeforeTheEnd(changes) == changes then NotEmpty(Value(s.db.rows[id], kr, allow)) else None)
      && DecryptRow(after.rows[id], kr, allow) == None
  {
    var hold := Transact(DoChange(id, Hold(end, began)));
    var value := Value(s.db.rows[id], kr, allow);
    var held := Next(s, hold, kr);
    NextKeepsGood(s, hold, kr, allow);
    SameSealSameValue(s.db.rows[id], held.db.rows[id], kr, allow);
    StepsTell(held, steps, kr, allow, id, end, began, value);
    assert RowOk(Steps(held, steps, kr).db.rows[id]);
  }
}
