/**
 * The credential table and its transactions (convex/credentials.ts), each as a function of the
 * whole table. `CredentialTable` below writes the same transactions as the source does, in place.
 */
module Credentials {
  import opened Prelude
  import opened Sealing
  import CredentialRef

  type Id = nat
  type SourceId = nat
  type RunId = nat

  datatype Kind = ValueKind | LocationKind | OAuthKind

  datatype Metadata = Metadata(
    kind: Kind, caption: string, appId: Option<string>, explicitlyAssigned: Option<bool>, quoted: Option<bool>)

  /** A value's origin: read off a page, typed in, or given by an install. */
  datatype Source = Page(sourceId: SourceId, ref: string) | Entered | OAuth

  datatype Status = Suspect | Superseded

  datatype Issuer = Issuer(
    organisationConnectionId: Option<nat>, appCreated: bool, clientSecretCredentialId: Option<Id>)

  datatype RevocationState = Pending | Done | NotSupported | Failed

  datatype Revocation = Revocation(
    state: RevocationState, attempts: nat, at: Time, end: Option<string>, lastError: Option<string>)

  datatype Row = Row(
    userId: string,
    organisation: bool,
    metadata: Metadata,
    ciphertext: Option<Cipher>,
    iv: Option<Iv>,
    keyId: Option<Key>,
    source: Source,
    issuedBy: Option<Issuer>,
    createdAt: Time,
    lastUsedAt: Option<Time>,
    status: Option<Status>,
    statusReason: Option<string>,
    supersededAt: Option<Time>,
    revokedAt: Option<Time>,
    sourceRevocation: Option<Revocation>,
    refreshCredentialId: Option<Id>)

  datatype DocSource = DocSource(userId: string, linked: bool, activeSyncId: Option<RunId>)

  datatype RunState = Running | Completed | SupersededRun | ErrorRun | HeldRun

  datatype SyncRun = SyncRun(sourceId: SourceId, state: RunState, credentialRefs: seq<string>)

  /** The tables these transactions read and write. Rows stand in table order by id. */
  datatype Db = Db(
    rows: map<Id, Row>,
    next: Id,
    sources: map<SourceId, DocSource>,
    runs: seq<SyncRun>,
    resealDone: bool)

  datatype Error =
    | HolderMismatch
    | OrganisationPageSource
    | IssuedOnPage
    | NotTheOwnersSource
    | NotUnique
    | NoSuchRow
    | StaleGeneration
    | NotPageDerived
    | NeverIssued
    | PlaintextRequired
    | PageTooLarge
    | TooManyCredentials

  const REVOKE_STANDS_REASON :=
    "Revoked by a person. The page now holds a different value; it stays revoked until a person lands or approves one."

  // ---------------------------------------------------------------- reading

  predicate HoldsValue(row: Row) {
    row.ciphertext.Some? && row.iv.Some?
  }

  /** What a row's value opens to, if it holds one the keyring can read. */
  function Value(row: Row, kr: Keyring, allowUnbound: bool): Option<string> {
    if HoldsValue(row) then
      OpenOwned(row.ciphertext.value, row.iv.value, row.userId, row.keyId, kr, allowUnbound)
    else None
  }

  /** An empty value is no landed value. */
  function NotEmpty(value: Option<string>): Option<string> {
    if value == Some("") then None else value
  }

  /** What `decrypt` answers; None where it throws. */
  function DecryptRow(row: Row, kr: Keyring, allowUnbound: bool): Option<string> {
    if row.revokedAt.Some? || row.status.Some? || !HoldsValue(row) then None else NotEmpty(Value(row, kr, allowUnbound))
  }

  predicate StandsAt(row: Row, userId: string, sourceId: SourceId, ref: string) {
    row.userId == userId && row.source == Page(sourceId, ref)
  }

  /** The first row at an index key, from `from` on in table order. */
  function FirstAt(db: Db, userId: string, sourceId: SourceId, ref: string, from: Id): (r: Option<Id>)
    ensures r.Some? ==>
      from <= r.value < db.next && r.value in db.rows && StandsAt(db.rows[r.value], userId, sourceId, ref)
    ensures r.Some? ==>
      forall id <- db.rows | from <= id < r.value :: !StandsAt(db.rows[id], userId, sourceId, ref)
    ensures r.None? ==>
      forall id <- db.rows | from <= id < db.next :: !StandsAt(db.rows[id], userId, sourceId, ref)
    decreases db.next - from
  {
    if from >= db.next then None
    else if from in db.rows && StandsAt(db.rows[from], userId, sourceId, ref) then Some(from)
    else FirstAt(db, userId, sourceId, ref, from + 1)
  }

  /** The `.unique()` read of an index key: an error when two rows stand there. */
  function UniqueAt(db: Db, userId: string, sourceId: SourceId, ref: string): Result<Option<Id>, Error> {
    var first := FirstAt(db, userId, sourceId, ref, 0);
    if first.None? then Ok(None)
    else if FirstAt(db, userId, sourceId, ref, first.value + 1).Some? then Err(NotUnique)
    else Ok(first)
  }

  // ---------------------------------------------------------------- guards

  function HolderRefusal(userId: string, organisation: bool, source: Source): Option<Error> {
    if IsOrganisationOwnerKey(userId) != organisation then Some(HolderMismatch)
    else if IsOrganisationOwnerKey(userId) && source.Page? then Some(OrganisationPageSource)
    else None
  }

  function IssuedRefusal(issuedBy: Option<Issuer>, source: Source): Option<Error> {
    if issuedBy.Some? && source.Page? then Some(IssuedOnPage) else None
  }

  predicate CurrentGeneration(db: Db, sourceId: SourceId, run: RunId) {
    && sourceId in db.sources && db.sources[sourceId].linked
    && run < |db.runs| && db.runs[run].sourceId == sourceId
    && db.sources[sourceId].activeSyncId == Some(run)
    && db.runs[run].state == Running
  }

  /** The fence of a sync's write: a write that names a superseded generation is refused. */
  function FenceRefusal(db: Db, source: Source, syncRun: Option<RunId>): Option<Error> {
    if syncRun.None? then None
    else if !source.Page? then Some(NotPageDerived)
    else if CurrentGeneration(db, source.sourceId, syncRun.value) then None
    else Some(StaleGeneration)
  }

  predicate LinkedTo(db: Db, sourceId: SourceId, userId: string) {
    sourceId in db.sources && db.sources[sourceId].linked && db.sources[sourceId].userId == userId
  }

  // ---------------------------------------------------------------- transactions

  datatype PersistArgs = PersistArgs(
    userId: string,
    organisation: bool,
    metadata: Metadata,
    source: Source,
    issuedBy: Option<Issuer>,
    rotated: bool,
    syncRun: Option<RunId>)

  function NewRow(a: PersistArgs, sealed: Sealed, now: Time): Row {
    Row(a.userId, a.organisation, a.metadata, Some(sealed.cipher), Some(sealed.iv), Some(sealed.keyId), a.source,
        a.issuedBy, now, None, None, None, None, None, None, None)
  }

  /** A changed page value on its standing row: usage restarts on a rotation, and a revoke stands. */
  function Rotated(row: Row, a: PersistArgs, sealed: Sealed): Row {
    row.(metadata := a.metadata,
         ciphertext := Some(sealed.cipher), iv := Some(sealed.iv), keyId := Some(sealed.keyId),
         lastUsedAt := if a.rotated then None else row.lastUsedAt,
         status := None, supersededAt := None,
         statusReason := if row.revokedAt.Some? && a.rotated then Some(REVOKE_STANDS_REASON) else None)
  }

  function PersistRefusal(db: Db, a: PersistArgs): Option<Error> {
    var holder := HolderRefusal(a.userId, a.organisation, a.source);
    if holder.Some? then holder
    else
      var issued := IssuedRefusal(a.issuedBy, a.source);
      if issued.Some? then issued
      else
        var fence := FenceRefusal(db, a.source, a.syncRun);
        if fence.Some? then fence
        else if a.source.Page? && !LinkedTo(db, a.source.sourceId, a.userId) then Some(NotTheOwnersSource)
        else None
  }

  function Persist(db: Db, a: PersistArgs, sealed: Sealed, now: Time): Result<(Db, Id), Error> {
    var refusal := PersistRefusal(db, a);
    if refusal.Some? then Err(refusal.value)
    else
      var standing := if a.source.Page? then UniqueAt(db, a.userId, a.source.sourceId, a.source.ref) else Ok(None);
      if standing.Err? then Err(standing.error)
      else if standing.value.None? then
        Ok((db.(rows := db.rows[db.next := NewRow(a, sealed, now)], next := db.next + 1), db.next))
      else
        var id := standing.value.value;
        Ok((db.(rows := db.rows[id := Rotated(db.rows[id], a, sealed)]), id))
  }

  function UpdateMetadata(db: Db, id: Id, metadata: Metadata, syncRun: Option<RunId>): Result<Db, Error> {
    var fence := FenceRefusal(db, if id in db.rows then db.rows[id].source else Entered, syncRun);
    if fence.Some? then Err(fence.value)
    else if id !in db.rows then Err(NoSuchRow)
    else
      var row := db.rows[id];
      Ok(db.(rows := db.rows[id := row.(
        metadata := metadata, status := None, supersededAt := None,
        statusReason := if row.revokedAt.Some? && row.status.None? then row.statusReason else None)]))
  }

  datatype MoveArgs = MoveArgs(
    id: Id, userId: string, fromRef: string, sourceId: SourceId, ref: string, metadata: Metadata,
    syncRun: Option<RunId>)

  /** Move a page row to another ref; false, and nothing written, when it moved since or the ref is taken. */
  function MoveToRef(db: Db, a: MoveArgs): Result<(Db, bool), Error> {
    var fence := FenceRefusal(db, Page(a.sourceId, a.ref), a.syncRun);
    if fence.Some? then Err(fence.value)
    else if a.id !in db.rows || !StandsAt(db.rows[a.id], a.userId, a.sourceId, a.fromRef) then Ok((db, false))
    else if FirstAt(db, a.userId, a.sourceId, a.ref, 0).Some? then Ok((db, false))
    else
      Ok((db.(rows := db.rows[a.id := db.rows[a.id].(
        source := Page(a.sourceId, a.ref), metadata := a.metadata,
        status := None, supersededAt := None, statusReason := None)]), true))
  }

  predicate AwaitsRevocation(row: Row) {
    row.sourceRevocation.Some? && row.sourceRevocation.value.state == Pending
  }

  /** Revoke a row and delete its value, save one held for its vendor's revocation. */
  function Purged(row: Row, now: Time): Row {
    if row.ciphertext.None? && row.iv.None? && row.revokedAt.Some? then row
    else if AwaitsRevocation(row) then
      if row.revokedAt.None? then row.(revokedAt := Some(now)) else row
    else
      row.(revokedAt := Some(row.revokedAt.GetOr(now)), ciphertext := None, iv := None)
  }

  function Held(row: Row, end: string, now: Time): Result<Row, Error> {
    if row.issuedBy.None? then Err(NeverIssued)
    else if row.sourceRevocation.Some? then Ok(row)
    else Ok(row.(revokedAt := Some(now), sourceRevocation := Some(Revocation(Pending, 0, now, Some(end), None))))
  }

  /** The states a held credential ends in. */
  type FinalState = s: RevocationState | s != Pending witness Done

  function FinishedRevocation(row: Row, state: FinalState, lastError: Option<string>, now: Time): Row {
    var held := row.sourceRevocation;
    row.(revokedAt := Some(row.revokedAt.GetOr(now)), ciphertext := None, iv := None,
         sourceRevocation := Some(Revocation(
           state,
           if held.Some? then held.value.attempts else 0,
           now,
           if held.Some? then held.value.end else None,
           if lastError.Some? then lastError else if held.Some? then held.value.lastError else None)))
  }

  /** One re-sealed value of a page: written only over the ciphertext it was opened from. */
  datatype Resealed = Resealed(id: Id, from: Cipher, sealed: Sealed)

  predicate StillHolds(db: Db, r: Resealed) {
    r.id in db.rows && db.rows[r.id].ciphertext == Some(r.from)
  }

  function ApplyOneReseal(db: Db, r: Resealed): Db {
    if StillHolds(db, r) then
      db.(rows := db.rows[r.id := db.rows[r.id].(
        ciphertext := Some(r.sealed.cipher), iv := Some(r.sealed.iv), keyId := Some(r.sealed.keyId))])
    else db
  }

  /** A page of re-sealed values applied in order, and how many were written. */
  function ApplyReseal(db: Db, rows: seq<Resealed>): (Db, nat) {
    if rows == [] then (db, 0)
    else
      var (before, applied) := ApplyReseal(db, rows[..|rows| - 1]);
      var last := rows[|rows| - 1];
      (ApplyOneReseal(before, last), applied + if StillHolds(before, last) then 1 else 0)
  }

  /** The newest sync run of a source. */
  function NewestRun(runs: seq<SyncRun>, sourceId: SourceId): (r: Option<RunId>)
    ensures r.Some? ==> r.value < |runs| && runs[r.value].sourceId == sourceId
    ensures forall i :: 0 <= i < |runs| && runs[i].sourceId == sourceId ==> r.Some? && i <= r.value
  {
    if runs == [] then None
    else if runs[|runs| - 1].sourceId == sourceId then Some(|runs| - 1)
    else NewestRun(runs[..|runs| - 1], sourceId)
  }

  /** Each ref once, at its first place. */
  function Distinct(refs: seq<string>): (r: seq<string>)
    ensures forall ref :: ref in r <==> ref in refs
    ensures forall i, j :: 0 <= i < j < |r| ==> r[i] != r[j]
  {
    if refs == [] then []
    else
      var before := Distinct(refs[..|refs| - 1]);
      var last := refs[|refs| - 1];
      assert refs == refs[..|refs| - 1] + [last];
      if last in before then before else before + [last]
  }

  function Carried(refs: seq<string>, fromRef: string, ref: string): seq<string> {
    Distinct(Map(refs, carried => if carried == fromRef then ref else carried))
  }

  /** A moved row must stay in the generation it was read for: its newest run, if not completed, takes the new ref. */
  function CarryRefIntoOpenRun(db: Db, sourceId: SourceId, fromRef: string, ref: string): Db {
    var latest := NewestRun(db.runs, sourceId);
    if latest.None? then db
    else if db.runs[latest.value].state == Completed || fromRef !in db.runs[latest.value].credentialRefs then db
    else
      var run := db.runs[latest.value];
      db.(runs := db.runs[latest.value := run.(credentialRefs := Carried(run.credentialRefs, fromRef, ref))])
  }

  datatype RefMove = RefMove(id: Id, fromRef: string, ref: string)

  datatype MoveOutcome = Skipped | Blocked | Moved

  function OutcomeOf(db: Db, m: RefMove): MoveOutcome {
    if m.id !in db.rows || !db.rows[m.id].source.Page? || db.rows[m.id].source.ref != m.fromRef then Skipped
    else if FirstAt(db, db.rows[m.id].userId, db.rows[m.id].source.sourceId, m.ref, 0).Some? then Blocked
    else Moved
  }

  function ApplyOneValueRef(db: Db, m: RefMove): Db {
    if OutcomeOf(db, m) == Moved then
      var row := db.rows[m.id];
      var sourceId := row.source.sourceId;
      CarryRefIntoOpenRun(
        db.(rows := db.rows[m.id := row.(source := Page(sourceId, m.ref))]), sourceId, m.fromRef, m.ref)
    else db
  }

  function ApplyValueRefs(db: Db, moves: seq<RefMove>): Db {
    if moves == [] then db
    else ApplyOneValueRef(ApplyValueRefs(db, moves[..|moves| - 1]), moves[|moves| - 1])
  }

  /** How many rows a page of moves moves, and which another row blocks. */
  function MovesReport(db: Db, moves: seq<RefMove>): (nat, seq<Id>) {
    if moves == [] then (0, [])
    else
      var front, last := moves[..|moves| - 1], moves[|moves| - 1];
      var (changed, blocked) := MovesReport(db, front);
      match OutcomeOf(ApplyValueRefs(db, front), last)
      case Moved => (changed + 1, blocked)
      case Blocked => (changed, blocked + [last.id])
      case Skipped => (changed, blocked)
  }

  // ---------------------------------------------------------------- every transaction as one step

  /** A transaction that patches one row by its id and touches nothing else. */
  datatype RowChange =
    | Purge(now: Time)
    | Hold(end: string, now: Time)
    | Attempt(now: Time)
    | Retry(attempt: nat, words: string, now: Time)
    | Finish(state: FinalState, lastError: Option<string>, now: Time)
    | Revoke(now: Time)
    | Touch(now: Time)
    | Supersede(now: Time)

  function Changed(row: Row, change: RowChange): Row {
    match change
    case Purge(now) => Purged(row, now)
    case Hold(end, now) => var r := Held(row, end, now); if r.Ok? then r.value else row
    case Attempt(now) =>
      if AwaitsRevocation(row) then
        row.(sourceRevocation := Some(row.sourceRevocation.value.(
          attempts := row.sourceRevocation.value.attempts + 1, at := now)))
      else row
    case Retry(attempt, words, now) =>
      if row.issuedBy.Some? && AwaitsRevocation(row) && row.sourceRevocation.value.attempts == attempt then
        row.(sourceRevocation := Some(row.sourceRevocation.value.(lastError := Some(words), at := now)))
      else row
    case Finish(state, lastError, now) =>
      if AwaitsRevocation(row) then FinishedRevocation(row, state, lastError, now) else row
    case Revoke(now) => if row.revokedAt.None? then row.(revokedAt := Some(now)) else row
    case Touch(now) => row.(lastUsedAt := Some(now))
    case Supersede(now) => SupersededRow(row, now)
  }

  /** A transaction over the table; a seal made by the action before it is made with the step's IV. */
  datatype Tx =
    | DoPersist(persist: PersistArgs, plaintext: string, iv: Iv, now: Time)
    | DoUpdateMetadata(id: Id, metadata: Metadata, syncRun: Option<RunId>)
    | DoMoveToRef(move: MoveArgs)
    | DoApplyValueRefs(moves: seq<RefMove>)
    | DoChange(id: Id, change: RowChange)
    | DoPrune(id: Id)
    | DoLink(sourceId: SourceId, userId: string)
    | DoUnlink(sourceId: SourceId)
    | DoBeginRun(sourceId: SourceId, carriedRefs: seq<string>)
    | DoRecordRefs(run: RunId, refs: seq<string>)
    | DoEndRun(run: RunId, state: RunState)

  function SupersededRow(row: Row, now: Time): Row {
    if row.source.Page? && row.status != Some(Superseded) then
      row.(status := Some(Superseded), supersededAt := Some(now),
           statusReason := Some("No longer detected in synced documentation."))
    else row
  }

  /** The runs with a source's running generation superseded by the one that begins. */
  function EndActive(db: Db, sourceId: SourceId): (r: seq<SyncRun>)
    requires sourceId in db.sources
    ensures |r| == |db.runs|
  {
    var active := db.sources[sourceId].activeSyncId;
    if active.Some? && active.value < |db.runs| && db.runs[active.value].state == Running then
      db.runs[active.value := db.runs[active.value].(state := SupersededRun)]
    else db.runs
  }

  /** What a sync's finish deletes for good: a page row long superseded, never one a person revoked. */
  predicate Prunable(row: Row) {
    row.source.Page? && row.status == Some(Superseded) && row.revokedAt.None? && row.supersededAt.Some?
  }

  /** The table after a transaction; one that throws leaves it as it was. */
  function ApplyTx(db: Db, tx: Tx, kr: Keyring): Db {
    match tx
    case DoPersist(a, plaintext, iv, now) =>
      var r := Persist(db, a, SealFor(plaintext, kr, a.userId, iv), now);
      if r.Ok? then r.value.0 else db
    case DoUpdateMetadata(id, metadata, syncRun) =>
      var r := UpdateMetadata(db, id, metadata, syncRun);
      if r.Ok? then r.value else db
    case DoMoveToRef(a) =>
      var r := MoveToRef(db, a);
      if r.Ok? then r.value.0 else db
    case DoApplyValueRefs(moves) => ApplyValueRefs(db, moves)
    case DoChange(id, change) => if id in db.rows then db.(rows := db.rows[id := Changed(db.rows[id], change)]) else db
    case DoPrune(id) => if id in db.rows && Prunable(db.rows[id]) then db.(rows := db.rows - {id}) else db
    case DoLink(sourceId, userId) =>
      if sourceId in db.sources || IsOrganisationOwnerKey(userId) then db
      else db.(sources := db.sources[sourceId := DocSource(userId, true, None)])
    case DoUnlink(sourceId) =>
      if sourceId in db.sources then db.(sources := db.sources[sourceId := db.sources[sourceId].(linked := false)])
      else db
    case DoBeginRun(sourceId, carriedRefs) =>
      if sourceId in db.sources then
        db.(runs := EndActive(db, sourceId) + [SyncRun(sourceId, Running, carriedRefs)],
            sources := db.sources[sourceId := db.sources[sourceId].(activeSyncId := Some(|db.runs|))])
      else db
    case DoRecordRefs(run, refs) =>
      if run < |db.runs| && db.runs[run].state == Running then
        db.(runs := db.runs[run := db.runs[run].(credentialRefs := db.runs[run].credentialRefs + refs)])
      else db
    case DoEndRun(run, state) =>
      if run < |db.runs| && db.runs[run].state == Running then
        db.(runs := db.runs[run := db.runs[run].(state := state)])
      else db
  }
}
