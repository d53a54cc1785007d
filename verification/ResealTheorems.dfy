/** What a re-seal does, over every interleaving with stores, purges, moves, sync finishes and other re-seals. */
module ResealTheorems {
  import opened Prelude
  import opened Sealing
  import opened Credentials
  import opened CredentialInvariants
  import opened Reseal

  // ---------------------------------------------------------------- completeness

  /** The state a run begins in: any table at all, and no re-seal under way. */
  ghost predicate Begins(s: Sys) {
    IdsGiven(s.db) && s.drivers == []
  }

  /** The opening policy of a state. */
  function Allows(db: Db): bool {
    !db.resealDone
  }

  ghost predicate SomeReached(s: Sys) {
    exists d <- s.drivers :: d.whole && d.phase.Finished?
  }

  /**
   * Once any re-seal begun at the first row has reached the end, every row of the table holding a
   * value is under the current key and bound to its owner, or the keyring cannot open it; and so it
   * stays through every later step.
   */
  lemma ResealIsComplete(s: Sys, steps: seq<Step>, later: seq<Step>, kr: Keyring)
    requires Begins(s) && SomeReached(Steps(s, steps, kr))
    ensures AllSettled(Steps(Steps(s, steps, kr), later, kr).db, kr, Allows(s.db))
  {
    StepsKeepSysOk(s, steps, kr, Allows(s.db));
    var reached := Steps(s, steps, kr);
    SettledForGood(reached, later, kr, Allows(s.db));
  }

  lemma {:induction false} SettledForGood(s: Sys, later: seq<Step>, kr: Keyring, allow: bool)
    requires SysOk(s, kr, allow) && AllSettled(s.db, kr, allow)
    ensures SysOk(Steps(s, later, kr), kr, allow) && AllSettled(Steps(s, later, kr).db, kr, allow)
  {
    if later != [] {
      var before := Steps(s, later[..|later| - 1], kr);
      var step := later[|later| - 1];
      SettledForGood(s, later[..|later| - 1], kr, allow);
      NextKeepsSysOk(before, step, kr, allow);
      match step
      case Transact(tx) =>
        TxEvolves(before.db, tx, kr);
        AllSettledEvolves(before.db, ApplyTx(before.db, tx, kr), kr, allow);
      case ApplyPage(i) =>
        if i < |before.drivers| && before.drivers[i].phase.Loaded? {
          assert before.drivers[i] in before.drivers;
          ApplyIsInvisible(before.db, before.drivers[i].phase.items, kr, allow);
          AllSettledEvolves(before.db, ApplyReseal(before.db, before.drivers[i].phase.items).0, kr, allow);
        }
      case _ =>
    }
  }

  lemma AllSettledEvolves(db: Db, after: Db, kr: Keyring, allow: bool)
    requires Evolves(db, after, kr) && AllSettled(db, kr, allow)
    ensures AllSettled(after, kr, allow)
  {
    forall i | i in after.rows ensures Settled(after.rows[i], kr, allow) {
      if i in db.rows { SettledEvolves(db.rows[i], after.rows[i], kr, allow); }
    }
  }

  // ---------------------------------------------------------------- invisibility

  /** The transactions of a run, with every step of a re-seal taken out. */
  function Transactions(steps: seq<Step>): seq<Tx> {
    if steps == [] then []
    else
      var last := steps[|steps| - 1];
      Transactions(steps[..|steps| - 1]) + if last.Transact? then [last.tx] else []
  }

  lemma {:induction false} FirstAtAlike(
      a: Db, b: Db, userId: string, sourceId: SourceId, ref: string, from: Id, read: Reader)
    requires Alike(a, b, read)
    ensures FirstAt(a, userId, sourceId, ref, from) == FirstAt(b, userId, sourceId, ref, from)
    decreases if from < a.next then a.next - from else 0
  {
    if from < a.next {
      FirstAtAlike(a, b, userId, sourceId, ref, from + 1, read);
      if from in a.rows {
        assert AlikeRow(a.rows[from], b.rows[from], read);
      }
    }
  }

  lemma RotatedAlike(a: Row, b: Row, p: PersistArgs, sealed: Sealed, read: Reader)
    requires AlikeRow(a, b, read)
    ensures AlikeRow(Rotated(a, p, sealed), Rotated(b, p, sealed), read)
  {
  }

  lemma UniqueAtAlike(a: Db, b: Db, userId: string, sourceId: SourceId, ref: string, read: Reader)
    requires Alike(a, b, read)
    ensures UniqueAt(a, userId, sourceId, ref) == UniqueAt(b, userId, sourceId, ref)
  {
    FirstAtAlike(a, b, userId, sourceId, ref, 0, read);
    var first := FirstAt(a, userId, sourceId, ref, 0);
    if first.Some? { FirstAtAlike(a, b, userId, sourceId, ref, first.value + 1, read); }
  }

  /** A patch by id leaves alike tables alike when it leaves the patched rows alike. */
  lemma PatchAlike(a: Db, b: Db, id: Id, row: Row, other: Row, read: Reader)
    requires Alike(a, b, read) && AlikeRow(row, other, read)
    ensures Alike(a.(rows := a.rows[id := row]), b.(rows := b.rows[id := other]), read)
  {
  }

  lemma InsertAlike(a: Db, b: Db, row: Row, read: Reader)
    requires Alike(a, b, read)
    ensures
      var after, other :=
        a.(rows := a.rows[a.next := row], next := a.next + 1), b.(rows := b.rows[b.next := row], next := b.next + 1);
      Alike(after, other, read)
  {
  }

  lemma PersistAlike(a: Db, b: Db, p: PersistArgs, sealed: Sealed, now: Time, read: Reader)
    requires Alike(a, b, read)
    ensures Persist(a, p, sealed, now).Ok? <==> Persist(b, p, sealed, now).Ok?
    ensures Persist(a, p, sealed, now).Ok? ==>
      Alike(Persist(a, p, sealed, now).value.0, Persist(b, p, sealed, now).value.0, read)
  {
    assert PersistRefusal(a, p) == PersistRefusal(b, p);
    if p.source.Page? { UniqueAtAlike(a, b, p.userId, p.source.sourceId, p.source.ref, read); }
    if Persist(a, p, sealed, now).Ok? {
      var id := Persist(a, p, sealed, now).value.1;
      if p.source.Page? && UniqueAt(a, p.userId, p.source.sourceId, p.source.ref).value.Some? {
        assert AlikeRow(a.rows[id], b.rows[id], read);
        RotatedAlike(a.rows[id], b.rows[id], p, sealed, read);
        PatchAlike(a, b, id, Rotated(a.rows[id], p, sealed), Rotated(b.rows[id], p, sealed), read);
      } else {
        InsertAlike(a, b, NewRow(p, sealed, now), read);
      }
    }
  }

  lemma RevokedAlike(a: Row, b: Row, at: Option<Time>, read: Reader)
    requires AlikeRow(a, b, read)
    ensures AlikeRow(a.(revokedAt := at), b.(revokedAt := at), read)
  {
  }

  lemma EmptiedAlike(a: Row, b: Row, at: Option<Time>, read: Reader)
    requires SameRecord(a, b)
    ensures
      AlikeRow(
        a.(revokedAt := at, ciphertext := None, iv := None), b.(revokedAt := at, ciphertext := None, iv := None), read)
  {
  }

  lemma PurgedAlike(a: Row, b: Row, now: Time, read: Reader)
    requires AlikeRow(a, b, read)
    ensures AlikeRow(Purged(a, now), Purged(b, now), read)
  {
    RevokedAlike(a, b, Some(now), read);
    EmptiedAlike(a, b, Some(a.revokedAt.GetOr(now)), read);
    assert a.revokedAt == b.revokedAt && a.sourceRevocation == b.sourceRevocation;
  }

  lemma RevocationAlike(a: Row, b: Row, change: RowChange, read: Reader)
    requires AlikeRow(a, b, read) && (change.Hold? || change.Attempt? || change.Finish?)
    ensures AlikeRow(Changed(a, change), Changed(b, change), read)
  {
    match change
    case Finish(state, lastError, now) =>
      assert AwaitsRevocation(a) == AwaitsRevocation(b);
      assert SameRecord(FinishedRevocation(a, state, lastError, now), FinishedRevocation(b, state, lastError, now));
    case _ =>
  }

  /** Patches that leave the seals of two alike rows, and leave the rest of the two the same, leave them alike. */
  lemma SameSealsAlike(a: Row, b: Row, patched: Row, other: Row, read: Reader)
    requires AlikeRow(a, b, read) && SameRecord(patched, other)
    requires SameSeal(a, patched) && SameSeal(b, other) && patched.userId == a.userId && other.userId == b.userId
    ensures AlikeRow(patched, other, read)
  {
  }

  lemma SameMarks(a: Row, b: Row, change: RowChange)
    requires SameRecord(a, b) && (change.Retry? || change.Revoke? || change.Touch? || change.Supersede?)
    ensures SameRecord(Changed(a, change), Changed(b, change))
  {
    match change
    case Retry(attempt, words, now) => SameRetry(a, b, change);
    case Supersede(now) => SameSuperseded(a, b, change);
    case _ =>
  }

  lemma SameRetry(a: Row, b: Row, change: RowChange)
    requires SameRecord(a, b) && change.Retry?
    ensures SameRecord(Changed(a, change), Changed(b, change))
  {
  }

  lemma SameSuperseded(a: Row, b: Row, change: RowChange)
    requires SameRecord(a, b) && change.Supersede?
    ensures SameRecord(Changed(a, change), Changed(b, change))
  {
  }

  lemma MarkKeepsSeal(row: Row, change: RowChange)
    requires change.Retry? || change.Revoke? || change.Touch? || change.Supersede?
    ensures SameSeal(row, Changed(row, change)) && Changed(row, change).userId == row.userId
  {
  }

  lemma MarkAlike(a: Row, b: Row, change: RowChange, read: Reader)
    requires AlikeRow(a, b, read) && (change.Retry? || change.Revoke? || change.Touch? || change.Supersede?)
    ensures AlikeRow(Changed(a, change), Changed(b, change), read)
  {
    SameMarks(a, b, change);
    MarkKeepsSeal(a, change);
    MarkKeepsSeal(b, change);
    SameSealsAlike(a, b, Changed(a, change), Changed(b, change), read);
  }

  lemma ChangeAlike(a: Row, b: Row, change: RowChange, read: Reader)
    requires AlikeRow(a, b, read)
    ensures AlikeRow(Changed(a, change), Changed(b, change), read)
  {
    match change
    case Purge(now) => PurgedAlike(a, b, now, read);
    case Hold(_, _) => RevocationAlike(a, b, change, read);
    case Attempt(_) => RevocationAlike(a, b, change, read);
    case Finish(_, _, _) => RevocationAlike(a, b, change, read);
    case _ => MarkAlike(a, b, change, read);
  }

  lemma OneValueRefAlike(a: Db, b: Db, m: RefMove, read: Reader)
    requires Alike(a, b, read)
    ensures Alike(ApplyOneValueRef(a, m), ApplyOneValueRef(b, m), read)
  {
    if m.id in a.rows && a.rows[m.id].source.Page? {
      var row, other := a.rows[m.id], b.rows[m.id];
      assert AlikeRow(row, other, read);
      FirstAtAlike(a, b, row.userId, row.source.sourceId, m.ref, 0, read);
      if OutcomeOf(a, m) == Moved {
        var source := Page(row.source.sourceId, m.ref);
        assert AlikeRow(row.(source := source), other.(source := source), read);
        PatchAlike(a, b, m.id, row.(source := source), other.(source := source), read);
        CarryAlike(
          a.(rows := a.rows[m.id := row.(source := source)]), b.(rows := b.rows[m.id := other.(source := source)]),
          row.source.sourceId, m.fromRef, m.ref, read);
      }
    } else if m.id in a.rows {
      assert AlikeRow(a.rows[m.id], b.rows[m.id], read);
    }
  }

  lemma CarryAlike(a: Db, b: Db, sourceId: SourceId, fromRef: string, ref: string, read: Reader)
    requires Alike(a, b, read)
    ensures Alike(CarryRefIntoOpenRun(a, sourceId, fromRef, ref), CarryRefIntoOpenRun(b, sourceId, fromRef, ref), read)
  {
  }

  lemma {:induction false} ValueRefsAlike(a: Db, b: Db, moves: seq<RefMove>, read: Reader)
    requires Alike(a, b, read)
    ensures Alike(ApplyValueRefs(a, moves), ApplyValueRefs(b, moves), read)
  {
    if moves != [] {
      ValueRefsAlike(a, b, moves[..|moves| - 1], read);
      var front, last := moves[..|moves| - 1], moves[|moves| - 1];
      OneValueRefAlike(ApplyValueRefs(a, front), ApplyValueRefs(b, front), last, read);
    }
  }

  lemma MetadataAlike(a: Db, b: Db, id: Id, metadata: Metadata, syncRun: Option<RunId>, read: Reader)
    requires Alike(a, b, read)
    ensures UpdateMetadata(a, id, metadata, syncRun).Ok? <==> UpdateMetadata(b, id, metadata, syncRun).Ok?
    ensures UpdateMetadata(a, id, metadata, syncRun).Ok? ==>
      Alike(UpdateMetadata(a, id, metadata, syncRun).value, UpdateMetadata(b, id, metadata, syncRun).value, read)
  {
    if id in a.rows {
      assert AlikeRow(a.rows[id], b.rows[id], read);
      if UpdateMetadata(a, id, metadata, syncRun).Ok? {
        PatchAlike(a, b, id, UpdateMetadata(a, id, metadata, syncRun).value.rows[id],
                   UpdateMetadata(b, id, metadata, syncRun).value.rows[id], read);
      }
    }
  }

  lemma MoveAlike(a: Db, b: Db, m: MoveArgs, read: Reader)
    requires Alike(a, b, read)
    ensures MoveToRef(a, m).Ok? <==> MoveToRef(b, m).Ok?
    ensures MoveToRef(a, m).Ok? ==> Alike(MoveToRef(a, m).value.0, MoveToRef(b, m).value.0, read)
  {
    FirstAtAlike(a, b, m.userId, m.sourceId, m.ref, 0, read);
    if m.id in a.rows {
      assert AlikeRow(a.rows[m.id], b.rows[m.id], read);
      MovedAlike(a.rows[m.id], b.rows[m.id], m, read);
      PatchAlike(a, b, m.id, MovedRow(a.rows[m.id], m), MovedRow(b.rows[m.id], m), read);
    }
  }

  function MovedRow(row: Row, m: MoveArgs): Row {
    row.(
      source := Page(m.sourceId, m.ref), metadata := m.metadata,
      status := None, supersededAt := None, statusReason := None)
  }

  lemma MovedAlike(a: Row, b: Row, m: MoveArgs, read: Reader)
    requires AlikeRow(a, b, read)
    ensures AlikeRow(MovedRow(a, m), MovedRow(b, m), read)
    ensures StandsAt(a, m.userId, m.sourceId, m.fromRef) <==> StandsAt(b, m.userId, m.sourceId, m.fromRef)
  {
  }

  lemma PruneAlike(a: Db, b: Db, id: Id, kr: Keyring, read: Reader)
    requires Alike(a, b, read)
    ensures Alike(ApplyTx(a, DoPrune(id), kr), ApplyTx(b, DoPrune(id), kr), read)
  {
    if id in a.rows {
      assert AlikeRow(a.rows[id], b.rows[id], read);
      assert Prunable(a.rows[id]) == Prunable(b.rows[id]);
    }
  }

  /** The transactions on sources and sync runs read and write those alone. */
  lemma RunsOfSourcesAndRuns(a: Db, b: Db, tx: Tx, kr: Keyring)
    requires tx.DoLink? || tx.DoUnlink? || tx.DoBeginRun? || tx.DoRecordRefs? || tx.DoEndRun?
    requires a.sources == b.sources && a.runs == b.runs
    ensures ApplyTx(a, tx, kr) == a.(sources := ApplyTx(b, tx, kr).sources, runs := ApplyTx(b, tx, kr).runs)
    ensures ApplyTx(b, tx, kr) == b.(sources := ApplyTx(b, tx, kr).sources, runs := ApplyTx(b, tx, kr).runs)
  {
  }

  /** No transaction tells two alike tables apart. */
  lemma TxAlike(a: Db, b: Db, tx: Tx, kr: Keyring, read: Reader)
    requires Alike(a, b, read)
    ensures Alike(ApplyTx(a, tx, kr), ApplyTx(b, tx, kr), read)
  {
    match tx
    case DoPersist(p, plaintext, iv, now) => PersistAlike(a, b, p, SealFor(plaintext, kr, p.userId, iv), now, read);
    case DoUpdateMetadata(id, metadata, syncRun) => MetadataAlike(a, b, id, metadata, syncRun, read);
    case DoMoveToRef(m) => MoveAlike(a, b, m, read);
    case DoApplyValueRefs(moves) => ValueRefsAlike(a, b, moves, read);
    case DoChange(id, change) =>
      if id in a.rows {
        ChangeAlike(a.rows[id], b.rows[id], change, read);
        PatchAlike(a, b, id, Changed(a.rows[id], change), Changed(b.rows[id], change), read);
      }
    case DoPrune(id) => PruneAlike(a, b, id, kr, read);
    case _ =>
      RunsOfSourcesAndRuns(a, b, tx, kr);
      SameRowsAlike(a, b, ApplyTx(a, tx, kr), ApplyTx(b, tx, kr), read);
  }

  /** Tables with the same rows as two alike ones, and the same sources and runs, are alike. */
  lemma SameRowsAlike(a: Db, b: Db, a': Db, b': Db, read: Reader)
    requires Alike(a, b, read) && a'.rows == a.rows && b'.rows == b.rows
    requires a'.next == b'.next && a'.sources == b'.sources && a'.runs == b'.runs
    ensures Alike(a', b', read)
  {
  }

  lemma AlikeReflexive(db: Db, read: Reader)
    ensures Alike(db, db, read)
  {
  }

  /**
   * A re-seal is invisible: over every interleaving, the table left is the one the other
   * transactions alone would have left, every value as it opens included. So no newer write was
   * overwritten, no purged value came back, and each re-sealed row opens to the value it had.
   */
  lemma {:induction false} ResealIsInvisible(s: Sys, steps: seq<Step>, kr: Keyring, allow: bool)
    requires SysOk(s, kr, allow)
    ensures SysOk(Steps(s, steps, kr), kr, allow)
    ensures Alike(Steps(s, steps, kr).db, Run(s.db, Transactions(steps), kr), ReaderOf(kr, allow))
  {
    if steps == [] {
      AlikeReflexive(s.db, ReaderOf(kr, allow));
    } else {
      var before := Steps(s, steps[..|steps| - 1], kr);
      var alone := Run(s.db, Transactions(steps[..|steps| - 1]), kr);
      var step := steps[|steps| - 1];
      ResealIsInvisible(s, steps[..|steps| - 1], kr, allow);
      NextKeepsSysOk(before, step, kr, allow);
      match step
      case Transact(tx) =>
        TxAlike(before.db, alone, tx, kr, ReaderOf(kr, allow));
        var txs := Transactions(steps);
        assert txs[..|txs| - 1] == Transactions(steps[..|steps| - 1]);
      case ApplyPage(i) =>
        assert Transactions(steps) == Transactions(steps[..|steps| - 1]);
        if i < |before.drivers| && before.drivers[i].phase.Loaded? {
          assert before.drivers[i] in before.drivers;
          ApplyIsInvisible(before.db, before.drivers[i].phase.items, kr, allow);
          AlikeBack(before.db, Next(before, step, kr).db, alone, ReaderOf(kr, allow));
        }
      case _ =>
        assert Transactions(steps) == Transactions(steps[..|steps| - 1]);
    }
  }

  /** Alike tables stay alike through any run of transactions. */
  lemma {:induction false} RunAlike(a: Db, b: Db, txs: seq<Tx>, kr: Keyring, read: Reader)
    requires Alike(a, b, read)
    ensures Alike(Run(a, txs, kr), Run(b, txs, kr), read)
  {
    if txs != [] {
      RunAlike(a, b, txs[..|txs| - 1], kr, read);
      TxAlike(Run(a, txs[..|txs| - 1], kr), Run(b, txs[..|txs| - 1], kr), txs[|txs| - 1], kr, read);
    }
  }

  lemma {:induction false} RunAppend(db: Db, xs: seq<Tx>, ys: seq<Tx>, kr: Keyring)
    ensures Run(db, xs + ys, kr) == Run(Run(db, xs, kr), ys, kr)
  {
    if ys == [] {
      assert xs + ys == xs;
    } else {
      RunAppend(db, xs, ys[..|ys| - 1], kr);
      assert (xs + ys)[..|xs + ys| - 1] == xs + ys[..|ys| - 1];
    }
  }

  lemma AlikeBack(a: Db, b: Db, c: Db, read: Reader)
    requires Alike(a, b, read) && Alike(a, c, read)
    ensures Alike(b, c, read)
  {
    forall i | i in b.rows
      ensures AlikeRow(b.rows[i], c.rows[i], read)
    {
      assert AlikeRow(a.rows[i], b.rows[i], read) && AlikeRow(a.rows[i], c.rows[i], read);
    }
  }

  // ---------------------------------------------------------------- ending the unbound open, dropping the old key

  /** A settled row opens the same with the unbound open allowed or not. */
  lemma SettledNeedsNoUnbound(row: Row, kr: Keyring)
    requires Settled(row, kr, true)
    ensures Value(row, kr, true) == Value(row, kr, false)
  {
    if HoldsValue(row) {
      if UnderCurrent(row, kr) {
        CurrentOpens(row, kr, true);
        CurrentOpens(row, kr, false);
      } else {
        ValueMonotone(row, kr, false, true);
      }
    }
  }

  /** The policy a state reads by gives every value the run's first policy gave it. */
  lemma SwitchIsInvisible(s: Sys, kr: Keyring, allow: bool, id: Id)
    requires SysOk(s, kr, allow) && id in s.db.rows
    ensures Value(s.db.rows[id], kr, Allows(s.db)) == Value(s.db.rows[id], kr, allow)
  {
    if Allows(s.db) != allow {
      assert Settled(s.db.rows[id], kr, allow);
      SettledNeedsNoUnbound(s.db.rows[id], kr);
    }
  }

  /**
   * No read tells that re-seals ran or that the unbound open was ended: each row opens, under the
   * policy now, to what it would open to had only the other transactions run under the first policy.
   */
  lemma ResealLosesNothing(s: Sys, steps: seq<Step>, kr: Keyring, id: Id)
    requires Begins(s)
    ensures
      var after := Steps(s, steps, kr).db;
      var alone := Run(s.db, Transactions(steps), kr);
      && (id in after.rows <==> id in alone.rows)
      && (id in after.rows ==>
            && Value(after.rows[id], kr, Allows(after)) == Value(alone.rows[id], kr, Allows(s.db))
            && SameRecord(after.rows[id], alone.rows[id]))
  {
    ResealIsInvisible(s, steps, kr, Allows(s.db));
    var after := Steps(s, steps, kr);
    if id in after.db.rows {
      SwitchIsInvisible(after, kr, Allows(s.db), id);
      assert AlikeRow(after.db.rows[id], Run(s.db, Transactions(steps), kr).rows[id], ReaderOf(kr, Allows(s.db)));
    }
  }

  /**
   * Once a re-seal of the whole table has ended, ending the unbound open changes what no row opens to, then or later.
   */
  lemma EndingUnboundIsSafe(s: Sys, steps: seq<Step>, later: seq<Step>, kr: Keyring, id: Id)
    requires Begins(s) && SomeReached(Steps(s, steps, kr)) && Allows(s.db)
    requires id in Steps(Steps(s, steps, kr), later, kr).db.rows
    ensures
      var row := Steps(Steps(s, steps, kr), later, kr).db.rows[id];
      Value(row, kr, true) == Value(row, kr, false)
  {
    ResealIsComplete(s, steps, later, kr);
    SettledNeedsNoUnbound(Steps(Steps(s, steps, kr), later, kr).db.rows[id], kr);
  }

  function WithoutPrevious(kr: Keyring): Keyring {
    kr.(previous := None)
  }

  /** Dropping the previous key changes what a row opens to exactly when only that key opens it. */
  lemma DroppingAKeyExactly(row: Row, kr: Keyring, allow: bool)
    ensures
      Value(row, WithoutPrevious(kr), allow) == Value(row, kr, allow)
      <==>
      !(HoldsValue(row) && Value(row, kr, allow).Some? && row.ciphertext.value.key != kr.current)
  {
    if HoldsValue(row) {
      OpensExactly(row.ciphertext.value, row.iv.value, row.userId, row.keyId, kr, allow);
      OpensExactly(row.ciphertext.value, row.iv.value, row.userId, row.keyId, WithoutPrevious(kr), allow);
    }
  }

  lemma SettledNeedsNoPreviousKey(row: Row, kr: Keyring, allow: bool)
    requires Settled(row, kr, allow)
    ensures Value(row, WithoutPrevious(kr), allow) == Value(row, kr, allow)
  {
    DroppingAKeyExactly(row, kr, allow);
  }

  /** What is settled under a policy is settled under a stricter one. */
  lemma SettledUnderLess(row: Row, kr: Keyring, less: bool, more: bool)
    requires Settled(row, kr, more) && (less ==> more)
    ensures Settled(row, kr, less)
  {
    ValueMonotone(row, kr, less, more);
  }

  /**
   * Once every row is settled, dropping the previous key changes what no row opens to, then or after any later steps,
   * under the policy of that moment or any stricter one than the run began with.
   */
  lemma SettledDropsSafely(s: Sys, later: seq<Step>, kr: Keyring, allow: bool, now: bool, id: Id)
    requires SysOk(s, kr, allow) && AllSettled(s.db, kr, allow) && (now ==> allow)
    requires id in Steps(s, later, kr).db.rows
    ensures
      var row := Steps(s, later, kr).db.rows[id];
      Value(row, WithoutPrevious(kr), now) == Value(row, kr, now)
  {
    SettledForGood(s, later, kr, allow);
    var row := Steps(s, later, kr).db.rows[id];
    SettledUnderLess(row, kr, now, allow);
    SettledNeedsNoPreviousKey(row, kr, now);
  }

  /** So dropping it is safe at every moment after a re-seal of the whole table has ended. */
  lemma DroppingAfterResealIsSafe(s: Sys, steps: seq<Step>, later: seq<Step>, kr: Keyring, now: bool, id: Id)
    requires Begins(s) && SomeReached(Steps(s, steps, kr)) && (now ==> Allows(s.db))
    requires id in Steps(Steps(s, steps, kr), later, kr).db.rows
    ensures
      var row := Steps(Steps(s, steps, kr), later, kr).db.rows[id];
      Value(row, WithoutPrevious(kr), now) == Value(row, kr, now)
  {
    ResealIsComplete(s, steps, [], kr);
    StepsKeepSysOk(s, steps, kr, Allows(s.db));
    SettledDropsSafely(Steps(s, steps, kr), later, kr, Allows(s.db), now, id);
  }
}
