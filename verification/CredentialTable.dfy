/**
 * The credential store as the source writes it: one mutable table whose transactions patch and
 * insert rows in place, and the re-seal actions that read a page, seal it again and apply it.
 */
module CredentialTable {
  import opened Prelude
  import opened Sealing
  import opened Credentials
  import opened CredentialInvariants
  import opened Reseal
  import opened ResealTheorems
  import opened KeyCounts
  import opened PageCounts
  import opened ValueRefs
  import opened RefRewrite
  import OwnerPurge

  const RESEAL_BUDGET_MS: int := 240000

  /** How a rotation ends: the old key can go, or rows still name it; or no call of so many reached the table's end. */
  datatype Rotation = Rotated(changed: nat, skipped: nat) | StillNamed(left: nat) | NotEnded

  /** What one page of a re-seal reports. */
  datatype PageReport = PageReport(read: nat, changed: nat, skipped: nat, cursor: Id, isDone: bool)

  /** What a page of the rewrite reports: its count, and by name the rows that keep their old refs. */
  datatype RefPage = RefPage(
    read: nat, changed: nat, unreadable: seq<Id>, blocked: seq<Id>, cursor: Id, isDone: bool)

  /** A clock that moves on by at least a millisecond a page. */
  ghost predicate Rising(turns: nat -> Turn) {
    forall i: nat :: Elapsed(turns, i) >= i
  }

  /** What the clock shows after a page, since its call began. */
  function Elapsed(turns: nat -> Turn, i: nat): int {
    turns(i).elapsedMs
  }

  /** The budget is left after each of the first pages. */
  ghost predicate Within(turns: nat -> Turn, pages: int) {
    forall i: nat | i < pages :: Elapsed(turns, i) <= RESEAL_BUDGET_MS
  }

  /** Where a call begins: at the cursor it is given, or the first row. */
  function StartOf(cursor: Option<Id>): Id {
    if cursor.Some? then cursor.value else 0
  }

  /** A call goes on while neither the table has ended nor the budget, and stops at the first page either does. */
  ghost predicate Stopped(turns: nat -> Turn, pages: nat, stop: bool, isDone: bool) {
    if stop then
      pages > 0 && Within(turns, pages - 1) && (isDone || Elapsed(turns, pages - 1) > RESEAL_BUDGET_MS)
    else
      !isDone && Within(turns, pages)
  }

  lemma NextStopped(turns: nat -> Turn, pages: nat, isDone: bool)
    requires Stopped(turns, pages, false, false)
    ensures Stopped(turns, pages + 1, isDone || Elapsed(turns, pages) > RESEAL_BUDGET_MS, isDone)
  {
  }

  lemma StopsInTime(turns: nat -> Turn, pages: nat)
    requires Rising(turns) && Stopped(turns, pages, false, false)
    ensures pages <= RESEAL_BUDGET_MS + 1
  {
    if pages > 0 {
      assert Elapsed(turns, pages - 1) >= pages - 1;
    }
  }

  function TurnTxs(turn: Turn): seq<Tx> {
    Transactions(turn.before) + Transactions(turn.between)
  }

  /** The transactions beside a re-seal's first pages. */
  function TurnsTxs(turns: nat -> Turn, pages: nat): seq<Tx> {
    if pages == 0 then [] else TurnsTxs(turns, pages - 1) + TurnTxs(turns(pages - 1))
  }

  /** One call of a rotation: other steps before it, and what happens beside its pages. */
  datatype Call = Call(before: seq<Step>, turns: nat -> Turn)

  /** The transactions beside a rotation's calls, each of so many pages. */
  function CallsTxs(calls: nat -> Call, pages: seq<nat>): seq<Tx> {
    if pages == [] then []
    else
      var i := |pages| - 1;
      CallsTxs(calls, pages[..i]) + Transactions(calls(i).before) + TurnsTxs(calls(i).turns, pages[i])
  }

  /** Each call but the last stopped at its budget, and the last as it says. */
  ghost predicate CallsStopped(calls: nat -> Call, pages: seq<nat>, isDone: bool) {
    && (pages == [] ==> !isDone)
    && forall i: nat | i < |pages| :: CallStopped(calls, i, pages[i], isDone && i == |pages| - 1)
  }

  ghost predicate CallStopped(calls: nat -> Call, i: nat, pages: nat, isDone: bool) {
    Stopped(calls(i).turns, pages, true, isDone)
  }

  lemma NextCallStopped(calls: nat -> Call, pages: seq<nat>, more: nat, isDone: bool)
    requires CallsStopped(calls, pages, false) && Stopped(calls(|pages|).turns, more, true, isDone)
    ensures CallsStopped(calls, pages + [more], isDone)
  {
    forall i: nat | i < |pages| + 1
      ensures CallStopped(calls, i, (pages + [more])[i], isDone && i == |pages|)
    {
      if i < |pages| { assert CallStopped(calls, i, pages[i], false); }
    }
  }

  predicate NeedsNoPrevious(row: Row, kr: Keyring, now: bool) {
    Value(row, WithoutPrevious(kr), now) == Value(row, kr, now)
  }

  class Deployment {
    var rows: map<Id, Row>
    var next: Id
    var sources: map<SourceId, DocSource>
    var runs: seq<SyncRun>
    var resealDone: bool
    /** The other re-seal actions under way. */
    var drivers: seq<Driver>
    const keyring: Keyring

    constructor (keyring: Keyring)
      ensures this.keyring == keyring
      ensures Table() == EMPTY && drivers == []
    {
      this.keyring := keyring;
      rows, next, sources, runs, resealDone, drivers := map[], 0, map[], [], false, [];
    }

    function Table(): Db
      reads this
    {
      Db(rows, next, sources, runs, resealDone)
    }

    function Contents(): Sys
      reads this
    {
      Sys(Table(), drivers)
    }

    // -------------------------------------------------------------- mutations

    method PersistEncrypted(a: PersistArgs, sealed: Sealed, now: Time) returns (r: Result<Id, Error>)
      modifies this`rows, this`next
      ensures var spec := Persist(old(Table()), a, sealed, now);
        if spec.Ok? then Table() == spec.value.0 && r == Ok(spec.value.1)
        else Table() == old(Table()) && r == Err(spec.error)
    {
      var refusal := PersistRefusal(Table(), a);
      if refusal.Some? { return Err(refusal.value); }
      var standing: Option<Id> := None;
      if a.source.Page? {
        var read := UniqueAt(Table(), a.userId, a.source.sourceId, a.source.ref);
        if read.Err? { return Err(read.error); }
        standing := read.value;
      }
      if standing.None? {
        rows := rows[next := NewRow(a, sealed, now)];
        next := next + 1;
        return Ok(next - 1);
      }
      var existing := rows[standing.value];
      rows := rows[standing.value := existing.(
        metadata := a.metadata,
        ciphertext := Some(sealed.cipher), iv := Some(sealed.iv), keyId := Some(sealed.keyId),
        lastUsedAt := if a.rotated then None else existing.lastUsedAt,
        status := None, supersededAt := None,
        statusReason := if existing.revokedAt.Some? && a.rotated then Some(REVOKE_STANDS_REASON) else None)];
      return Ok(standing.value);
    }

    method UpdateMetadataOf(id: Id, metadata: Metadata, syncRun: Option<RunId>) returns (r: Result<Id, Error>)
      modifies this`rows
      ensures var spec := UpdateMetadata(old(Table()), id, metadata, syncRun);
        if spec.Ok? then Table() == spec.value && r == Ok(id) else Table() == old(Table()) && r == Err(spec.error)
    {
      var fence := FenceRefusal(Table(), if id in rows then rows[id].source else Entered, syncRun);
      if fence.Some? { return Err(fence.value); }
      if id !in rows { return Err(NoSuchRow); }
      var row := rows[id];
      rows := rows[id := row.(
        metadata := metadata, status := None, supersededAt := None,
        statusReason := if row.revokedAt.Some? && row.status.None? then row.statusReason else None)];
      r := Ok(id);
    }

    /** Move a page row to the ref its value keys now; false when it moved since, or the ref is taken. */
    method MoveRowToRef(a: MoveArgs) returns (r: Result<bool, Error>)
      modifies this`rows
      ensures var spec := MoveToRef(old(Table()), a);
        if spec.Ok? then Table() == spec.value.0 && r == Ok(spec.value.1)
        else Table() == old(Table()) && r == Err(spec.error)
    {
      var fence := FenceRefusal(Table(), Page(a.sourceId, a.ref), a.syncRun);
      if fence.Some? { return Err(fence.value); }
      if a.id !in rows || !StandsAt(rows[a.id], a.userId, a.sourceId, a.fromRef) { return Ok(false); }
      var taken := FirstAt(Table(), a.userId, a.sourceId, a.ref, 0);
      if taken.Some? { return Ok(false); }
      rows := rows[a.id := rows[a.id].(
        source := Page(a.sourceId, a.ref), metadata := a.metadata,
        status := None, supersededAt := None, statusReason := None)];
      r := Ok(true);
    }

    /** Hold an issued row for its vendor's revocation: revoked at once, its value kept for the call. */
    method HoldForSourceRevocation(id: Id, end: string, now: Time) returns (r: Result<Id, Error>)
      requires id in rows
      modifies this`rows
      ensures Table() == ApplyTx(old(Table()), DoChange(id, Hold(end, now)), keyring)
      ensures r == if old(rows)[id].issuedBy.None? then Err(NeverIssued) else Ok(id)
      ensures old(rows)[id].issuedBy.Some? && old(rows)[id].sourceRevocation.None? ==>
        && rows[id].revokedAt == Some(now) && rows[id].ciphertext == old(rows)[id].ciphertext
        && rows[id].sourceRevocation == Some(Revocation(Pending, 0, now, Some(end), None))
    {
      var row := rows[id];
      assert rows == rows[id := row];
      if row.issuedBy.None? { return Err(NeverIssued); }
      if row.sourceRevocation.Some? { return Ok(id); }
      rows := rows[id := row.(
        revokedAt := Some(now), sourceRevocation := Some(Revocation(Pending, 0, now, Some(end), None)))];
      r := Ok(id);
    }

    /** Write a row's final revocation state and delete its value; its attempts and the end that asked stay. */
    method FinishSourceRevocation(id: Id, state: FinalState, lastError: Option<string>, now: Time)
      requires id in rows
      modifies this`rows
      ensures rows == old(rows)[id := FinishedRevocation(old(rows)[id], state, lastError, now)]
    {
      var row := rows[id];
      var held := row.sourceRevocation;
      var revokedAt := if row.revokedAt.Some? then row.revokedAt else Some(now);
      var attempts := if held.Some? then held.value.attempts else 0;
      var end := if held.Some? then held.value.end else None;
      var failure := if lastError.Some? then lastError else if held.Some? then held.value.lastError else None;
      rows := rows[id := row.(
        revokedAt := revokedAt, ciphertext := None, iv := None,
        sourceRevocation := Some(Revocation(state, attempts, now, end, failure)))];
    }

    /** End the holds of a revocation's rows: those still pending are finished, any other is left alone. */
    method FinishJob(ids: seq<Id>, state: FinalState, lastError: Option<string>, now: Time)
      modifies this`rows
      ensures Table() == Run(old(Table()), FinishEach(ids, state, lastError, now), keyring)
      ensures forall id <- ids | id in rows :: !AwaitsRevocation(rows[id])
    {
      ghost var table := Table();
      assert FinishEach(ids[..0], state, lastError, now) == [];
      for i := 0 to |ids|
        invariant Table() == Run(table, FinishEach(ids[..i], state, lastError, now), keyring)
      {
        FinishNext(table, ids, i, state, lastError, now, keyring);
        if ids[i] in rows && AwaitsRevocation(rows[ids[i]]) {
          FinishSourceRevocation(ids[i], state, lastError, now);
        }
      }
      assert ids[..|ids|] == ids;
      NonePending(table, ids, |ids|, state, lastError, now, keyring);
    }

    method RevokeRow(id: Id, now: Time)
      requires id in rows
      modifies this`rows
      ensures Table() == ApplyTx(old(Table()), DoChange(id, Revoke(now)), keyring)
    {
      var row := rows[id];
      assert rows == rows[id := row];
      if row.revokedAt.Some? { return; }
      rows := rows[id := row.(revokedAt := Some(now))];
    }

    method PurgeCredential(id: Id, now: Time)
      requires id in rows
      modifies this`rows
      ensures Table() == ApplyTx(old(Table()), DoChange(id, Purge(now)), keyring)
    {
      var credential := rows[id];
      if credential.ciphertext.None? && credential.iv.None? && credential.revokedAt.Some? {
        assert rows == rows[id := credential];
        return;
      }
      if AwaitsRevocation(credential) {
        if credential.revokedAt.None? {
          rows := rows[id := credential.(revokedAt := Some(now))];
        } else {
          assert rows == rows[id := credential];
        }
        return;
      }
      rows := rows[id := credential.(
        revokedAt := if credential.revokedAt.Some? then credential.revokedAt else Some(now),
        ciphertext := None, iv := None)];
    }

    /** Put each new seal where the old one still stands, and nowhere else. */
    method ApplyResealPage(items: seq<Resealed>) returns (applied: nat)
      modifies this`rows
      ensures (Table(), applied) == ApplyReseal(old(Table()), items)
    {
      applied := 0;
      for i := 0 to |items|
        invariant (Table(), applied) == ApplyReseal(old(Table()), items[..i])
      {
        var resealed := items[i];
        assert items[..i + 1][..i] == items[..i];
        if resealed.id in rows && rows[resealed.id].ciphertext == Some(resealed.from) {
          rows := rows[resealed.id := rows[resealed.id].(
            ciphertext := Some(resealed.sealed.cipher), iv := Some(resealed.sealed.iv),
            keyId := Some(resealed.sealed.keyId))];
          applied := applied + 1;
        }
      }
      assert items[..|items|] == items;
    }

    method CarryIntoOpenRun(sourceId: SourceId, fromRef: string, ref: string)
      modifies this`runs
      ensures Table() == CarryRefIntoOpenRun(old(Table()), sourceId, fromRef, ref)
    {
      var latest := NewestRun(runs, sourceId);
      if latest.None? { return; }
      var run := runs[latest.value];
      if run.state == Completed || fromRef !in run.credentialRefs { return; }
      runs := runs[latest.value := run.(credentialRefs := Carried(run.credentialRefs, fromRef, ref))];
    }

    /** One row's move: made while its old ref stands and its new one is free. */
    method MoveToKeyedRef(moved: RefMove) returns (outcome: MoveOutcome)
      modifies this`rows, this`runs
      ensures Table() == ApplyOneValueRef(old(Table()), moved) && outcome == OutcomeOf(old(Table()), moved)
    {
      if moved.id !in rows || !rows[moved.id].source.Page? || rows[moved.id].source.ref != moved.fromRef {
        return Skipped;
      }
      var row := rows[moved.id];
      var sourceId := row.source.sourceId;
      var taken := FirstAt(Table(), row.userId, sourceId, moved.ref, 0);
      if taken.Some? { return Blocked; }
      rows := rows[moved.id := row.(source := Page(sourceId, moved.ref))];
      CarryIntoOpenRun(sourceId, moved.fromRef, moved.ref);
      outcome := Moved;
    }

    /** The apply of a rewritten page, row by row. */
    method ApplyValueRefPage(moves: seq<RefMove>) returns (changed: nat, blocked: seq<Id>)
      modifies this`rows, this`runs
      ensures Table() == ApplyValueRefs(old(Table()), moves)
      ensures (changed, blocked) == MovesReport(old(Table()), moves)
      ensures forall id <- blocked :: id in rows && rows[id].source.Page?
    {
      ghost var table := Table();
      changed, blocked := 0, [];
      assert ApplyValueRefs(table, moves[..0]) == table && MovesReport(table, moves[..0]) == (0, []);
      hide ApplyValueRefs, MovesReport, ApplyOneValueRef, OutcomeOf;
      for i := 0 to |moves|
        invariant Table() == ApplyValueRefs(table, moves[..i]) && changed == MovesReport(table, moves[..i]).0
        invariant blocked == MovesReport(table, moves[..i]).1
      {
        NextMove(table, moves, i);
        var outcome := MoveToKeyedRef(moves[i]);
        if outcome == Moved {
          changed := changed + 1;
        } else if outcome == Blocked {
          blocked := blocked + [moves[i].id];
        }
      }
      assert moves[..|moves|] == moves;
      BlockedStand(table, moves);
    }

    method PurgeOwnedCredentials(office: OwnerPurge.Office, userId: string, now: Time) returns (r: Result<nat, Error>)
      modifies this`rows
      ensures var spec := OwnerPurge.PurgeOwned(old(Table()), office, userId, now);
        if spec.Ok? then Table() == spec.value.0 && r == Ok(spec.value.1)
        else Table() == old(Table()) && r == Err(spec.error)
    {
      var ids := OwnerPurge.OwnedRows(Table(), userId);
      if |ids| > OwnerPurge.OWNED_CREDENTIAL_LIMIT { return Err(TooManyCredentials); }
      var kept := OwnerPurge.IdentitiesKept(Table(), office, userId, ids);
      var purged := PurgeEach(ids, kept, now);
      return Ok(purged);
    }

    /** The purge's loop over the rows as the owner's read returned them. */
    method PurgeEach(ids: seq<Id>, kept: set<Id>, now: Time) returns (purged: nat)
      modifies this`rows
      ensures (Table(), purged) == OwnerPurge.PurgeRows(old(Table()), ids, kept, now)
    {
      var read := rows;
      ghost var table := Table();
      purged := 0;
      for i := 0 to |ids|
        invariant (Table(), purged) == OwnerPurge.PurgeRows(table, ids[..i], kept, now)
      {
        OwnerPurge.PurgeRowsNext(table, ids, i, kept, now);
        if ids[i] in kept || ids[i] !in read { continue; }
        rows := rows[ids[i] := Purged(read[ids[i]], now)];
        purged := purged + 1;
      }
      assert ids[..|ids|] == ids;
    }

    // -------------------------------------------------------------- the re-seal actions

    /** Any steps of other transactions and actions. */
    method Interfere(steps: seq<Step>)
      modifies this
      ensures Contents() == Steps(old(Contents()), steps, keyring)
    {
      for i := 0 to |steps|
        invariant Contents() == Steps(old(Contents()), steps[..i], keyring)
      {
        assert steps[..i + 1][..i] == steps[..i];
        var after := Next(Contents(), steps[i], keyring);
        rows, next, sources, runs, resealDone, drivers :=
          after.db.rows, after.db.next, after.db.sources, after.db.runs, after.db.resealDone, after.drivers;
      }
      assert steps[..|steps|] == steps;
    }

    /** Open and seal again the rows of one page; what it cannot open it leaves and counts. */
    method SealPageAgain(from: Id, upTo: Id, ivs: Id -> Iv) returns (resealed: seq<Resealed>, skipped: nat)
      requires from <= upTo
      ensures resealed == ResealItems(Table(), from, upTo, ivs, keyring, !resealDone)
      ensures skipped == Unopened(Table(), from, upTo, keyring, !resealDone)
    {
      resealed, skipped := [], 0;
      for id := from to upTo
        invariant resealed == ResealItems(Table(), from, id, ivs, keyring, !resealDone)
        invariant skipped == Unopened(Table(), from, id, keyring, !resealDone)
      {
        if id !in rows || !HoldsValue(rows[id]) { continue; }
        var row := rows[id];
        if row.keyId == Some(keyring.current) { continue; }
        var plaintext := OpenOwned(row.ciphertext.value, row.iv.value, row.userId, row.keyId, keyring, !resealDone);
        if plaintext.None? {
          skipped := skipped + 1;
          continue;
        }
        var sealed := SealFor(plaintext.value, keyring, row.userId, ivs(id));
        resealed := resealed + [Resealed(id, row.ciphertext.value, sealed)];
      }
    }

    /**
     * One page of the re-seal, with any steps at all between its read and its apply: the table after it, and each
     * count. What it settles is what `DriverOk` says of a re-seal that stands at the cursor it returns.
     */
    method ResealOnePage(cursor: Id, between: seq<Step>, ivs: Id -> Iv, ghost allow: bool, ghost whole: bool)
      returns (page: PageReport)
      requires SysOk(Contents(), keyring, allow)
      requires DriverOk(Table(), Driver(cursor, Ready, whole), keyring, allow)
      modifies this
      ensures SysOk(Contents(), keyring, allow)
      ensures DriverOk(Table(), Driver(page.cursor, if page.isDone then Finished else Ready, whole), keyring, allow)
      ensures Alike(Table(), Run(old(Table()), Transactions(between), keyring), ReaderOf(keyring, allow))
      ensures page.cursor == PageEnd(old(Table()), cursor, RESEAL_PAGE)
      ensures page.isDone == IsLastPage(old(Table()), cursor)
      ensures page.read == RowsIn(old(Table()), cursor, page.cursor) <= RESEAL_PAGE
      ensures page.skipped == Unopened(old(Table()), cursor, page.cursor, keyring, !old(resealDone))
      ensures
        var items := ResealItems(old(Table()), cursor, page.cursor, ivs, keyring, !old(resealDone));
        (Table(), page.changed) == ApplyReseal(Steps(old(Contents()), between, keyring).db, items)
    {
      var upTo := PageEnd(Table(), cursor, RESEAL_PAGE);
      var read := RowsIn(Table(), cursor, upTo);
      ShortPageIsTheLast(Table(), cursor, RESEAL_PAGE);
      var resealed, skipped := SealPageAgain(cursor, upTo, ivs);
      ghost var mine := DriverAfterRead(Table(), Driver(cursor, Ready, whole), ivs, keyring);
      ReadKeepsDriver(Table(), Driver(cursor, Ready, whole), ivs, keyring, allow);

      RunBeside(between, mine, allow);

      ghost var unapplied := Contents();
      var changed := 0;
      if resealed != [] {
        changed := ApplyResealPage(resealed);
      }
      ApplyIsInvisible(unapplied.db, resealed, keyring, allow);
      EvolvedSysOk(unapplied, Table(), keyring, allow);
      ApplyKeepsDriver(unapplied.db, mine, keyring, allow);
      AlikeBack(unapplied.db, Table(), Run(old(Table()), Transactions(between), keyring), ReaderOf(keyring, allow));
      page := PageReport(read, changed, skipped, upTo, read < RESEAL_PAGE);
    }

    /** Other steps beside a re-seal, which leave it where it stands and do not see it. */
    method RunBeside(steps: seq<Step>, ghost mine: Driver, ghost allow: bool)
      requires SysOk(Contents(), keyring, allow) && DriverOk(Table(), mine, keyring, allow)
      modifies this
      ensures Contents() == Steps(old(Contents()), steps, keyring)
      ensures SysOk(Contents(), keyring, allow) && DriverOk(Table(), mine, keyring, allow)
      ensures Alike(Table(), Run(old(Table()), Transactions(steps), keyring), ReaderOf(keyring, allow))
    {
      ghost var before := Contents();
      Interfere(steps);
      StepsKeepSysOk(before, steps, keyring, allow);
      StepsEvolve(before, steps, keyring, allow);
      DriverEvolves(before.db, Table(), mine, keyring, allow);
      ResealIsInvisible(before, steps, keyring, allow);
    }

    /** The next turn: steps of others, then one page with others beside it. */
    method OneTurn(
        cursor: Id, turns: nat -> Turn, turn: nat, ivs: Id -> Iv, ghost allow: bool, ghost whole: bool, ghost start: Db)
      returns (page: PageReport)
      requires SysOk(Contents(), keyring, allow) && DriverOk(Table(), Driver(cursor, Ready, whole), keyring, allow)
      requires Alike(Table(), Run(start, TurnsTxs(turns, turn), keyring), ReaderOf(keyring, allow))
      modifies this
      ensures SysOk(Contents(), keyring, allow)
      ensures DriverOk(Table(), Driver(page.cursor, if page.isDone then Finished else Ready, whole), keyring, allow)
      ensures Alike(Table(), Run(start, TurnsTxs(turns, turn + 1), keyring), ReaderOf(keyring, allow))
      ensures page.read <= RESEAL_PAGE && (!page.isDone ==> cursor + RESEAL_PAGE <= page.cursor)
      ensures page.changed + page.skipped <= page.read
    {
      var now := turns(turn);
      ghost var first := Table();
      RunBeside(now.before, Driver(cursor, Ready, whole), allow);
      ghost var before := Contents();
      page := ResealOnePage(cursor, now.between, ivs, allow, whole);
      TurnAlike(start, first, before.db, Table(), turns, turn, keyring, ReaderOf(keyring, allow));
      PageAtMost(before, cursor, page, now.between, ivs, keyring);
    }

    /**
     * One call of a re-seal, whatever runs beside its pages. It stops at the first page the table or the budget ends
     * at; the table it leaves is the one the other transactions alone leave; and a re-seal of the whole table that went
     * so far stands, or ended, where it says.
     */
    method ResealAll(start: Option<Id>, turns: nat -> Turn, ivs: Id -> Iv, ghost allow: bool, ghost whole: bool)
      returns (read: nat, changed: nat, skipped: nat, cursor: Id, isDone: bool, ghost pages: nat)
      requires SysOk(Contents(), keyring, allow) && Rising(turns)
      requires DriverOk(Table(), Driver(StartOf(start), Ready, whole), keyring, allow)
      modifies this
      ensures SysOk(Contents(), keyring, allow)
      ensures DriverOk(Table(), Driver(cursor, if isDone then Finished else Ready, whole), keyring, allow)
      ensures isDone && whole ==> AllSettled(Table(), keyring, allow)
      ensures Alike(Table(), Run(old(Table()), TurnsTxs(turns, pages), keyring), ReaderOf(keyring, allow))
      ensures Stopped(turns, pages, true, isDone) && (!isDone ==> cursor >= StartOf(start) + RESEAL_PAGE * pages)
      ensures changed + skipped <= read <= RESEAL_PAGE * pages
    {
      cursor := StartOf(start);
      read, changed, skipped, isDone, pages := 0, 0, 0, false, 0;
      var stop, turn := false, 0;
      AlikeReflexive(Table(), ReaderOf(keyring, allow));
      assert Run(Table(), TurnsTxs(turns, 0), keyring) == Table();
      assert Stopped(turns, 0, false, false);
      hide Stopped, Rising;
      while !stop
        invariant SysOk(Contents(), keyring, allow) && turn == pages
        invariant DriverOk(Table(), Driver(cursor, if isDone then Finished else Ready, whole), keyring, allow)
        invariant Alike(Table(), Run(old(Table()), TurnsTxs(turns, pages), keyring), ReaderOf(keyring, allow))
        invariant Stopped(turns, pages, stop, isDone)
        invariant !isDone ==> cursor >= StartOf(start) + RESEAL_PAGE * pages
        invariant changed + skipped <= read <= RESEAL_PAGE * pages
        decreases !stop, RESEAL_BUDGET_MS + 1 - turn
      {
        StopsInTime(turns, turn);
        var page := OneTurn(cursor, turns, turn, ivs, allow, whole, old(Table()));
        read, changed, skipped := read + page.read, changed + page.changed, skipped + page.skipped;
        cursor, isDone := page.cursor, page.isDone;
        stop := isDone || Elapsed(turns, turn) > RESEAL_BUDGET_MS;
        NextStopped(turns, turn, isDone);
        turn, pages := turn + 1, pages + 1;
      }
      FinishedIsSettled(Table(), cursor, keyring, allow);
    }

    /** Steps of others, then one call of the re-seal. */
    method OneCall(start: Id, now: Call, ivs: Id -> Iv, ghost allow: bool)
      returns (changed: nat, skipped: nat, cursor: Id, isDone: bool, ghost pages: nat)
      requires SysOk(Contents(), keyring, allow) && Rising(now.turns)
      requires DriverOk(Table(), Driver(start, Ready, true), keyring, allow)
      modifies this
      ensures SysOk(Contents(), keyring, allow)
      ensures DriverOk(Table(), Driver(cursor, if isDone then Finished else Ready, true), keyring, allow)
      ensures
        var txs := Transactions(now.before) + TurnsTxs(now.turns, pages);
        Alike(Table(), Run(old(Table()), txs, keyring), ReaderOf(keyring, allow))
      ensures Stopped(now.turns, pages, true, isDone) && (!isDone ==> cursor >= start + RESEAL_PAGE)
      ensures changed + skipped <= RESEAL_PAGE * pages
    {
      RunBeside(now.before, Driver(start, Ready, true), allow);
      ghost var before := Contents();
      var read;
      read, changed, skipped, cursor, isDone, pages := ResealAll(Some(start), now.turns, ivs, allow, true);
      GoesOnAlike(old(Table()), before.db, Table(), Transactions(now.before), TurnsTxs(now.turns, pages), keyring,
                  ReaderOf(keyring, allow));
    }

    /**
     * A rotation's calls, resumed one after another from where the last stopped. At most `most` of them; when none
     * ended, the table has at least a page of ids for each.
     */
    method ResealEveryRow(calls: nat -> Call, most: nat, ivs: Id -> Iv, ghost allow: bool)
      returns (changed: nat, skipped: nat, isDone: bool, ghost pages: seq<nat>)
      requires SysOk(Contents(), keyring, allow) && forall i: nat :: Rising(calls(i).turns)
      modifies this
      ensures SysOk(Contents(), keyring, allow)
      ensures isDone ==> AllSettled(Table(), keyring, allow)
      ensures |pages| <= most && (!isDone ==> |pages| == most && RESEAL_PAGE * most <= next)
      ensures CallsStopped(calls, pages, isDone)
      ensures Alike(Table(), Run(old(Table()), CallsTxs(calls, pages), keyring), ReaderOf(keyring, allow))
      ensures changed + skipped <= RESEAL_PAGE * Sum(pages)
    {
      var cursor: Id := 0;
      changed, skipped, isDone, pages := 0, 0, false, [];
      AlikeReflexive(Table(), ReaderOf(keyring, allow));
      var call := 0;
      while call < most && !isDone
        invariant SysOk(Contents(), keyring, allow) && |pages| == call <= most
        invariant DriverOk(Table(), Driver(cursor, if isDone then Finished else Ready, true), keyring, allow)
        invariant !isDone ==> cursor >= RESEAL_PAGE * call
        invariant CallsStopped(calls, pages, isDone)
        invariant Alike(Table(), Run(old(Table()), CallsTxs(calls, pages), keyring), ReaderOf(keyring, allow))
        invariant changed + skipped <= RESEAL_PAGE * Sum(pages)
        decreases most - call, !isDone
      {
        ghost var before := Contents();
        var now := calls(call);
        var more, unread, upTo, done, turns := OneCall(cursor, now, ivs, allow);
        ghost var txs := Transactions(now.before) + TurnsTxs(now.turns, turns);
        GoesOnAlike(old(Table()), before.db, Table(), CallsTxs(calls, pages), txs, keyring, ReaderOf(keyring, allow));
        CallsNext(calls, pages, turns);
        SumNext(pages, turns);
        NextCallStopped(calls, pages, turns, done);
        pages := pages + [turns];
        changed, skipped, cursor, isDone, call := changed + more, skipped + unread, upTo, done, call + 1;
      }
    }

    /**
     * The sum over the pages of the rows that name a key, and of those that name none, with other steps before each
     * page; of at most one page for each turn. It writes nothing; and once it has reached the table's end the sum lies
     * between the rows that name an old key at its end and those that named it at its start.
     */
    method RowsNamingKey(keyId: Key, between: seq<seq<Step>>, ghost allow: bool)
      returns (rowsNamed: nat, unkeyed: nat, isDone: bool, ghost pages: nat)
      requires SysOk(Contents(), keyring, allow)
      modifies this
      ensures SysOk(Contents(), keyring, allow)
      ensures pages <= |between| && (!isDone ==> pages == |between| && KEY_COUNT_PAGE * pages <= next)
      ensures Contents() == Steps(old(Contents()), Flattened(between[..pages]), keyring)
      ensures
        var c, none := CountPages(old(Contents()), between[..pages], Some(keyId), keyring),
                       CountPages(old(Contents()), between[..pages], None, keyring);
        (rowsNamed, unkeyed, isDone, isDone) == (c.named, none.named, c.isDone, none.isDone)
      ensures isDone && keyId != keyring.current ==>
        Named(Table(), Some(keyId), 0, next) <= rowsNamed <= Named(old(Table()), Some(keyId), 0, old(next))
      ensures isDone ==> Named(Table(), None, 0, next) <= unkeyed <= Named(old(Table()), None, 0, old(next))
      ensures isDone && Quiet(between) ==>
        && rowsNamed == Named(old(Table()), Some(keyId), 0, old(next))
        && unkeyed == Named(old(Table()), None, 0, old(next))
    {
      ghost var start := Contents();
      rowsNamed, unkeyed, isDone, pages := CountEachPage(keyId, between, allow);
      CountWritesNothing(start, between[..pages], None, keyring);
      if isDone {
        CountIsBetween(start, between[..pages], None, keyring, allow);
        if keyId != keyring.current {
          CountIsBetween(start, between[..pages], Some(keyId), keyring, allow);
          SamePages(start, between[..pages], None, Some(keyId), keyring);
        }
        if Quiet(between) {
          QuietCountIsExact(start, between[..pages], None, keyring);
          QuietCountIsExact(start, between[..pages], Some(keyId), keyring);
        }
      }
    }

    /** The loop over the pages. */
    method CountEachPage(keyId: Key, between: seq<seq<Step>>, ghost allow: bool)
      returns (rowsNamed: nat, unkeyed: nat, isDone: bool, ghost pages: nat)
      requires SysOk(Contents(), keyring, allow)
      modifies this
      ensures SysOk(Contents(), keyring, allow)
      ensures pages <= |between| && (!isDone ==> pages == |between| && KEY_COUNT_PAGE * pages <= next)
      ensures
        var c, none := CountPages(old(Contents()), between[..pages], Some(keyId), keyring),
                       CountPages(old(Contents()), between[..pages], None, keyring);
        c == Count(Contents(), c.cursor, rowsNamed, isDone) && none == Count(Contents(), c.cursor, unkeyed, isDone)
    {
      ghost var start := Contents();
      ghost var c, none := Count(start, 0, 0, false), Count(start, 0, 0, false);
      var cursor: Id := 0;
      rowsNamed, unkeyed, isDone, pages := 0, 0, false, 0;
      var page := 0;
      assert between[..0] == [];
      hide OneCount, SysOk;
      while page < |between| && !isDone
        invariant page == pages <= |between| && SysOk(Contents(), keyring, allow) && cursor <= next
        invariant c == CountPages(start, between[..pages], Some(keyId), keyring)
        invariant none == CountPages(start, between[..pages], None, keyring)
        invariant c == Count(Contents(), cursor, rowsNamed, isDone)
        invariant none == Count(Contents(), cursor, unkeyed, isDone)
        invariant !isDone ==> KEY_COUNT_PAGE * pages <= cursor
        decreases |between| - page, !isDone
      {
        NextCount(start, between, page, Some(keyId), keyring);
        NextCount(start, between, page, None, keyring);
        var more, others, upTo, done := CountOnePage(keyId, between[page], cursor, allow, c, none);
        c, none := OneCount(c, between[page], Some(keyId), keyring), OneCount(none, between[page], None, keyring);
        rowsNamed, unkeyed, cursor, isDone := rowsNamed + more, unkeyed + others, upTo, done;
        page, pages := page + 1, pages + 1;
      }
    }

    /** Steps of others, then one page of the counts. */
    method CountOnePage(
        keyId: Key, steps: seq<Step>, cursor: Id, ghost allow: bool, ghost c: Count, ghost none: Count)
      returns (more: nat, others: nat, upTo: Id, done: bool)
      requires SysOk(Contents(), keyring, allow)
      requires c.s == none.s == Contents() && c.cursor == none.cursor == cursor <= next
      modifies this
      ensures SysOk(Contents(), keyring, allow) && upTo <= next && (!done ==> cursor + KEY_COUNT_PAGE <= upTo)
      ensures OneCount(c, steps, Some(keyId), keyring) == Count(Contents(), upTo, c.named + more, done)
      ensures OneCount(none, steps, None, keyring) == Count(Contents(), upTo, none.named + others, done)
    {
      StepsKeepSysOk(Contents(), steps, keyring, allow);
      StepsEvolve(Contents(), steps, keyring, allow);
      Interfere(steps);
      var byKeyId;
      byKeyId, others, upTo, done := CountPage(Table(), cursor);
      more := if keyId in byKeyId then byKeyId[keyId] else 0;
    }

    /**
     * The end of a rotation: re-seal every row, count the rows that name the old key, and let the key go when there are
     * none. Then no row needs it, at that moment or after any later steps.
     */
    method FinishRotation(
        calls: nat -> Call, most: nat, ivs: Id -> Iv, between: seq<seq<Step>>, ghost allow: bool)
      returns (outcome: Rotation, ghost resealed: Sys, ghost pages: seq<nat>, ghost read: nat)
      requires SysOk(Contents(), keyring, allow) && forall i: nat :: Rising(calls(i).turns)
      requires keyring.previous.Some? && keyring.previous.value != keyring.current
      modifies this
      ensures SysOk(Contents(), keyring, allow)
      ensures Alike(resealed.db, Run(old(Table()), CallsTxs(calls, pages), keyring), ReaderOf(keyring, allow))
      ensures read <= |between| && Contents() == Steps(resealed, Flattened(between[..read]), keyring)
      ensures outcome.NotEnded? ==> RESEAL_PAGE * most <= next || KEY_COUNT_PAGE * |between| <= next
      ensures !outcome.NotEnded? ==> AllSettled(Table(), keyring, allow)
      ensures outcome.Rotated? ==>
        outcome.changed + outcome.skipped <= RESEAL_PAGE * Sum(pages) && Named(Table(), keyring.previous, 0, next) == 0
      ensures outcome.StillNamed? ==>
        0 < outcome.left && Named(Table(), keyring.previous, 0, next) <= outcome.left
        && outcome.left <= Named(resealed.db, keyring.previous, 0, resealed.db.next)
      ensures outcome.Rotated? ==>
        forall later, now, id: Id | (now ==> allow) && id in Steps(Contents(), later, keyring).db.rows ::
          NeedsNoPrevious(Steps(Contents(), later, keyring).db.rows[id], keyring, now)
    {
      var changed, skipped, isDone;
      changed, skipped, isDone, pages := ResealEveryRow(calls, most, ivs, allow);
      resealed, read := Contents(), 0;
      assert between[..0] == [];
      if !isDone {
        outcome := NotEnded;
        return;
      }
      var left, unkeyed, counted;
      left, unkeyed, counted, read := RowsNamingKey(keyring.previous.value, between, allow);
      SettledForGood(resealed, Flattened(between[..read]), keyring, allow);
      outcome := if !counted then NotEnded else if left > 0 then StillNamed(left) else Rotated(changed, skipped);
      forall later, now, id: Id | (now ==> allow) && id in Steps(Contents(), later, keyring).db.rows
        ensures NeedsNoPrevious(Steps(Contents(), later, keyring).db.rows[id], keyring, now)
      {
        SettledDropsSafely(Contents(), later, keyring, allow, now, id);
      }
    }

    // -------------------------------------------------------------- the ref rewrite's action

    /** Open each row of a page on a legacy ref and give it the ref its value keys; what it cannot open it leaves. */
    method KeyPage(from: Id, upTo: Id, fingerprint: (string, string) -> string)
      returns (moves: seq<RefMove>, unreadable: seq<Id>)
      requires from <= upTo
      ensures moves == PageMoves(Table(), from, upTo, keyring, !resealDone, fingerprint)
      ensures unreadable == Unreadable(Table(), from, upTo, keyring, !resealDone)
    {
      moves, unreadable := [], [];
      for id := from to upTo
        invariant moves == PageMoves(Table(), from, id, keyring, !resealDone, fingerprint)
        invariant unreadable == Unreadable(Table(), from, id, keyring, !resealDone)
      {
        if id !in rows || !HoldsLegacyRef(rows[id]) { continue; }
        var row := rows[id];
        var plaintext := OpenOwned(row.ciphertext.value, row.iv.value, row.userId, row.keyId, keyring, !resealDone);
        if plaintext.None? {
          unreadable := unreadable + [id];
          continue;
        }
        moves := moves + [RefMove(id, row.source.ref, KeyedRef(row, plaintext.value, fingerprint))];
      }
    }

    /** One page of the rewrite, with any steps at all between its read and its apply. */
    method RewriteOnePage(
        cursor: Id, between: seq<Step>, fingerprint: (string, string) -> string,
        ghost allow: bool, ghost unreadable: seq<Id>, ghost blocked: seq<Id>)
      returns (page: RefPage)
      requires SysOk(Contents(), keyring, allow) && cursor <= next && KeyedSteps(between) && Fingerprints(fingerprint)
      requires Reported(Table(), cursor, unreadable, blocked, ReaderOf(keyring, allow))
      modifies this
      ensures SysOk(Contents(), keyring, allow)
      ensures page.cursor == PageEnd(old(Table()), cursor, RESEAL_PAGE) <= next
      ensures page.isDone == IsLastPage(old(Table()), cursor)
      ensures
        var held := Steps(old(Contents()), between, keyring);
        var moves := MovesRead(old(Contents()), cursor, keyring, fingerprint);
        && Contents() == Sys(ApplyValueRefs(held.db, moves), held.drivers)
        && (page.changed, page.blocked) == MovesReport(held.db, moves)
      ensures page.unreadable == UnreadableRead(old(Contents()), cursor, keyring)
      ensures
        Reported(
          Table(), if page.isDone then next else page.cursor, unreadable + page.unreadable, blocked + page.blocked,
          ReaderOf(keyring, allow))
    {
      var upTo := PageEnd(Table(), cursor, RESEAL_PAGE);
      var read := RowsIn(Table(), cursor, upTo);
      var moves, left := KeyPage(cursor, upTo, fingerprint);
      RewriteGoesOn(Contents(), between, moves, keyring, allow);
      PageOfRewrite(Contents(), between, cursor, keyring, allow, fingerprint, unreadable, blocked);
      Interfere(between);
      var changed, taken := 0, [];
      if moves != [] {
        changed, taken := ApplyValueRefPage(moves);
      }
      page := RefPage(read, changed, left, taken, upTo, read < RESEAL_PAGE);
    }

    /** The next turn: steps of others, then one page of the rewrite with others beside it. */
    method RewriteTurn(
        cursor: Id, turns: seq<Turn>, turn: nat, fingerprint: (string, string) -> string, ghost allow: bool,
        ghost start: Sys, ghost r: Rewrite)
      returns (page: RefPage)
      requires turn < |turns| && r == Pages(start, turns[..turn], keyring, fingerprint)
      requires r.s == Contents() && r.cursor == cursor && !r.isDone && RewriteOk(r, keyring, allow)
      requires KeyedTurns(turns) && Fingerprints(fingerprint) && Unfinished(start, turns, turn, keyring, fingerprint)
      modifies this
      ensures
        var after := Pages(start, turns[..turn + 1], keyring, fingerprint);
        && after == Rewrite(Contents(), page.cursor, r.changed + page.changed, r.unreadable + page.unreadable,
                            r.blocked + page.blocked, page.isDone)
        && RewriteOk(after, keyring, allow)
      ensures Unfinished(start, turns, turn + 1, keyring, fingerprint)
      ensures !page.isDone ==> cursor + RESEAL_PAGE <= page.cursor
    {
      var now := turns[turn];
      NextPage(start, turns, turn, keyring, fingerprint);
      NextUnfinished(start, turns, turn, keyring, fingerprint);
      OnePageIsOk(r, now, keyring, allow, fingerprint);
      Interfere(now.before);
      StepsLegacy(r.s, now.before, keyring, allow);
      StepsEvolve(r.s, now.before, keyring, allow);
      ReportedEvolves(r.s.db, Table(), cursor, r.unreadable, r.blocked, ReaderOf(keyring, allow));
      page := RewriteOnePage(cursor, now.between, fingerprint, allow, r.unreadable, r.blocked);
    }

    /**
     * The rewrite from the first row on, one page after another, whatever runs beside it: its table, its count and both
     * its lists are those of the pages it ran, and nothing else was written but by the others. Once it ends, a row
     * still holding a value on a legacy ref is named blocked when it opens and unreadable when it does not; and each
     * named row was found so by a page. Of at most one page for each turn; if none ended it, the table has at least a
     * page of ids for each.
     */
    method RewriteEveryRef(turns: seq<Turn>, fingerprint: (string, string) -> string, ghost allow: bool)
      returns (changed: nat, unreadable: seq<Id>, blocked: seq<Id>, isDone: bool, ghost pages: nat)
      requires SysOk(Contents(), keyring, allow) && KeyedTurns(turns) && Fingerprints(fingerprint)
      modifies this
      ensures pages <= |turns| && (!isDone ==> pages == |turns| && RESEAL_PAGE * pages <= next)
      ensures Unfinished(old(Contents()), turns, pages, keyring, fingerprint)
      ensures
        var r := Pages(old(Contents()), turns[..pages], keyring, fingerprint);
        r == Rewrite(Contents(), r.cursor, changed, unreadable, blocked, isDone) && RewriteOk(r, keyring, allow)
      ensures
        var steps := RewriteSteps(old(Contents()), turns[..pages], keyring, fingerprint);
        Contents() == Steps(old(Contents()), steps, keyring)
      ensures isDone ==> Reported(Table(), next, unreadable, blocked, ReaderOf(keyring, allow))
      ensures
        forall id :: id in unreadable <==>
          exists k: nat | k < pages :: UnreadOn(old(Contents()), turns, k, keyring, fingerprint, id)
      ensures
        forall id :: id in blocked <==>
          exists k: nat | k < pages :: BlockedOn(old(Contents()), turns, k, keyring, fingerprint, id)
    {
      ghost var start := Contents();
      changed, unreadable, blocked, isDone, pages := RewritePages(turns, fingerprint, allow);
      RewriteIsARun(start, turns[..pages], keyring, fingerprint);
      forall id {
        NamedExactly(start, turns, pages, keyring, fingerprint, id);
      }
    }

    /** The loop over the pages. */
    method RewritePages(turns: seq<Turn>, fingerprint: (string, string) -> string, ghost allow: bool)
      returns (changed: nat, unreadable: seq<Id>, blocked: seq<Id>, isDone: bool, ghost pages: nat)
      requires SysOk(Contents(), keyring, allow) && KeyedTurns(turns) && Fingerprints(fingerprint)
      modifies this
      ensures pages <= |turns| && (!isDone ==> pages == |turns| && RESEAL_PAGE * pages <= next)
      ensures Unfinished(old(Contents()), turns, pages, keyring, fingerprint)
      ensures
        var r := Pages(old(Contents()), turns[..pages], keyring, fingerprint);
        r == Rewrite(Contents(), r.cursor, changed, unreadable, blocked, isDone) && RewriteOk(r, keyring, allow)
    {
      var cursor: Id := 0;
      changed, unreadable, blocked, isDone, pages := 0, [], [], false, 0;
      ghost var start := Contents();
      ghost var r := Rewrite(start, 0, 0, [], [], false);
      BegunIsOk(start, keyring, allow);
      assert Unfinished(start, turns, 0, keyring, fingerprint) && r == Pages(start, turns[..0], keyring, fingerprint);
      var page := 0;
      hide Pages, RewriteOk, SysOk, Fingerprints, Unfinished;
      while page < |turns| && !isDone
        invariant page == pages <= |turns| && r == Pages(start, turns[..pages], keyring, fingerprint)
        invariant r == Rewrite(Contents(), cursor, changed, unreadable, blocked, isDone) && RewriteOk(r, keyring, allow)
        invariant Unfinished(start, turns, pages, keyring, fingerprint)
        invariant !isDone ==> RESEAL_PAGE * pages <= cursor
        decreases |turns| - page, !isDone
      {
        var one := RewriteTurn(cursor, turns, page, fingerprint, allow, start, r);
        r := Pages(start, turns[..page + 1], keyring, fingerprint);
        changed, unreadable, blocked := changed + one.changed, unreadable + one.unreadable, blocked + one.blocked;
        cursor, isDone, page, pages := one.cursor, one.isDone, page + 1, pages + 1;
      }
      OkIsWithin(r, keyring, allow);
    }
  }

  lemma GoesOnAlike(start: Db, before: Db, after: Db, beside: seq<Tx>, txs: seq<Tx>, kr: Keyring, read: Reader)
    requires Alike(before, Run(start, beside, kr), read) && Alike(after, Run(before, txs, kr), read)
    ensures Alike(after, Run(start, beside + txs, kr), read)
  {
    RunAlike(before, Run(start, beside, kr), txs, kr, read);
    RunAppend(start, beside, txs, kr);
    AlikeTransitive(after, Run(before, txs, kr), Run(start, beside + txs, kr), read);
  }

  lemma FinishedIsSettled(db: Db, cursor: Id, kr: Keyring, allow: bool)
    ensures DriverOk(db, Driver(cursor, Finished, true), kr, allow) ==> AllSettled(db, kr, allow)
  {
  }

  lemma TurnAlike(
      start: Db, first: Db, before: Db, after: Db, turns: nat -> Turn, turn: nat, kr: Keyring, read: Reader)
    requires Alike(first, Run(start, TurnsTxs(turns, turn), kr), read)
    requires Alike(before, Run(first, Transactions(turns(turn).before), kr), read)
    requires Alike(after, Run(before, Transactions(turns(turn).between), kr), read)
    ensures Alike(after, Run(start, TurnsTxs(turns, turn + 1), kr), read)
  {
    GoesOnAlike(first, before, after, Transactions(turns(turn).before), Transactions(turns(turn).between), kr, read);
    GoesOnAlike(start, first, after, TurnsTxs(turns, turn), TurnTxs(turns(turn)), kr, read);
  }

  lemma PageAtMost(s: Sys, cursor: Id, page: PageReport, between: seq<Step>, ivs: Id -> Iv, kr: Keyring)
    requires cursor <= page.cursor && page.read == RowsIn(s.db, cursor, page.cursor)
    requires page.skipped == Unopened(s.db, cursor, page.cursor, kr, !s.db.resealDone)
    requires
      var items := ResealItems(s.db, cursor, page.cursor, ivs, kr, !s.db.resealDone);
      page.changed == ApplyReseal(Steps(s, between, kr).db, items).1
    ensures cursor + page.read <= page.cursor && page.changed + page.skipped <= page.read
  {
    RowsAtMost(s.db, cursor, page.cursor);
    CountsAtMost(s.db, cursor, page.cursor, ivs, kr, !s.db.resealDone);
    AppliedAtMost(Steps(s, between, kr).db, ResealItems(s.db, cursor, page.cursor, ivs, kr, !s.db.resealDone));
  }

  lemma {:induction false} AppliedAtMost(db: Db, items: seq<Resealed>)
    ensures ApplyReseal(db, items).1 <= |items|
  {
    if items != [] {
      AppliedAtMost(db, items[..|items| - 1]);
    }
  }

  /** No row is both sealed again and skipped. */
  lemma {:induction false} CountsAtMost(db: Db, from: Id, upTo: Id, ivs: Id -> Iv, kr: Keyring, allow: bool)
    ensures
      |ResealItems(db, from, upTo, ivs, kr, allow)| + Unopened(db, from, upTo, kr, allow) <= RowsIn(db, from, upTo)
    decreases upTo
  {
    if from < upTo {
      CountsAtMost(db, from, upTo - 1, ivs, kr, allow);
    }
  }

  function Sum(pages: seq<nat>): nat {
    if pages == [] then 0 else Sum(pages[..|pages| - 1]) + pages[|pages| - 1]
  }

  lemma SumNext(pages: seq<nat>, more: nat)
    ensures Sum(pages + [more]) == Sum(pages) + more
  {
    assert (pages + [more])[..|pages|] == pages;
  }

  lemma CallsNext(calls: nat -> Call, pages: seq<nat>, more: nat)
    ensures
      CallsTxs(calls, pages + [more]) ==
      CallsTxs(calls, pages) + (Transactions(calls(|pages|).before) + TurnsTxs(calls(|pages|).turns, more))
  {
    assert (pages + [more])[..|pages|] == pages;
  }

  function FinishEach(ids: seq<Id>, state: FinalState, lastError: Option<string>, now: Time): seq<Tx> {
    Map(ids, id => DoChange(id, Finish(state, lastError, now)))
  }

  function FinishedOne(db: Db, id: Id, state: FinalState, lastError: Option<string>, now: Time): Db {
    if id in db.rows && AwaitsRevocation(db.rows[id]) then
      db.(rows := db.rows[id := FinishedRevocation(db.rows[id], state, lastError, now)])
    else db
  }

  lemma FinishNext(db: Db, ids: seq<Id>, i: nat, state: FinalState, lastError: Option<string>, now: Time, kr: Keyring)
    requires i < |ids|
    ensures
      Run(db, FinishEach(ids[..i + 1], state, lastError, now), kr)
      == FinishedOne(Run(db, FinishEach(ids[..i], state, lastError, now), kr), ids[i], state, lastError, now)
  {
    var all, front := FinishEach(ids[..i + 1], state, lastError, now), FinishEach(ids[..i], state, lastError, now);
    assert all[..|all| - 1] == front;
    FinishTx(Run(db, front, kr), ids[i], state, lastError, now, kr);
  }

  lemma {:induction false} NonePending(
      db: Db, ids: seq<Id>, n: nat, state: FinalState, lastError: Option<string>, now: Time, kr: Keyring)
    requires n <= |ids|
    ensures
      var after := Run(db, FinishEach(ids[..n], state, lastError, now), kr);
      forall i | 0 <= i < n && ids[i] in after.rows :: !AwaitsRevocation(after.rows[ids[i]])
  {
    if n > 0 {
      NonePending(db, ids, n - 1, state, lastError, now, kr);
      FinishNext(db, ids, n - 1, state, lastError, now, kr);
    }
  }

  lemma FinishTx(db: Db, id: Id, state: FinalState, lastError: Option<string>, now: Time, kr: Keyring)
    ensures ApplyTx(db, DoChange(id, Finish(state, lastError, now)), kr) == FinishedOne(db, id, state, lastError, now)
  {
    if id in db.rows && !AwaitsRevocation(db.rows[id]) {
      assert db.rows == db.rows[id := db.rows[id]];
    }
  }
}
