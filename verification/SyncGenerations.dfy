/** The fence around a sync (src/docs/sync-generation.ts): exactly when, over a run, it may write. */
module SyncGenerations {
  import opened Prelude
  import opened Sealing
  import opened Credentials
  import opened CredentialInvariants

  /** What ends a sync's writes: its end, a newer sync of its source, or the source unlinked. */
  predicate Ends(tx: Tx, sourceId: SourceId, run: RunId) {
    match tx
    case DoEndRun(ended, state) => ended == run && state != Running
    case DoBeginRun(begun, _) => begun == sourceId
    case DoUnlink(unlinked) => unlinked == sourceId
    case _ => false
  }

  /** What a source names as its running sync is one of its own. */
  ghost predicate OwnSyncs(db: Db) {
    forall s <- db.sources | db.sources[s].activeSyncId.Some? ::
      db.sources[s].activeSyncId.value < |db.runs| && db.runs[db.sources[s].activeSyncId.value].sourceId == s
  }

  /** The run is a sync of the source, which names it or a newer one as its own. */
  ghost predicate Known(db: Db, sourceId: SourceId, run: RunId) {
    && OwnSyncs(db) && sourceId in db.sources && run < |db.runs| && db.runs[run].sourceId == sourceId
    && db.sources[sourceId].activeSyncId.Some? && run <= db.sources[sourceId].activeSyncId.value < |db.runs|
  }

  ghost predicate MayStillWrite(db: Db, sourceId: SourceId, run: RunId) {
    && Known(db, sourceId, run)
    && db.sources[sourceId].linked && db.sources[sourceId].activeSyncId == Some(run) && db.runs[run].state == Running
  }

  lemma CarryKeepsStates(db: Db, sourceId: SourceId, fromRef: string, ref: string)
    ensures
      var after := CarryRefIntoOpenRun(db, sourceId, fromRef, ref);
      && after.sources == db.sources && |after.runs| == |db.runs|
      && forall i :: 0 <= i < |db.runs| ==>
          after.runs[i].sourceId == db.runs[i].sourceId && after.runs[i].state == db.runs[i].state
  {
  }

  /** Two tables with the same sources and the same syncs, their carried refs apart. */
  ghost predicate SameSyncs(db: Db, after: Db) {
    && after.sources == db.sources && |after.runs| == |db.runs|
    && forall i :: 0 <= i < |db.runs| ==>
        after.runs[i].sourceId == db.runs[i].sourceId && after.runs[i].state == db.runs[i].state
  }

  lemma {:induction false} MovesKeepSyncs(db: Db, moves: seq<RefMove>)
    ensures SameSyncs(db, ApplyValueRefs(db, moves))
  {
    if moves != [] {
      MovesKeepSyncs(db, moves[..|moves| - 1]);
      OneMoveKeepsSyncs(ApplyValueRefs(db, moves[..|moves| - 1]), moves[|moves| - 1]);
    }
  }

  lemma OneMoveKeepsSyncs(db: Db, m: RefMove)
    ensures SameSyncs(db, ApplyOneValueRef(db, m))
  {
    if OutcomeOf(db, m) == Moved {
      var row := db.rows[m.id];
      var sourceId := row.source.sourceId;
      CarryKeepsStates(
        db.(rows := db.rows[m.id := row.(source := Page(sourceId, m.ref))]), sourceId, m.fromRef, m.ref);
    }
  }

  lemma RowsKeepSyncs(db: Db, tx: Tx, kr: Keyring)
    requires tx.DoPersist? || tx.DoUpdateMetadata? || tx.DoMoveToRef? || tx.DoChange? || tx.DoPrune?
    ensures SameSyncs(db, ApplyTx(db, tx, kr))
  {
  }

  lemma SameSyncsTell(db: Db, after: Db, sourceId: SourceId, run: RunId)
    requires SameSyncs(db, after) && Known(db, sourceId, run)
    ensures Known(after, sourceId, run)
    ensures MayStillWrite(after, sourceId, run) <==> MayStillWrite(db, sourceId, run)
  {
  }

  predicate WritesRows(tx: Tx) {
    tx.DoPersist? || tx.DoUpdateMetadata? || tx.DoMoveToRef? || tx.DoChange? || tx.DoPrune? || tx.DoApplyValueRefs?
  }

  lemma SourceStep(db: Db, tx: Tx, kr: Keyring, sourceId: SourceId, run: RunId)
    requires Known(db, sourceId, run) && (tx.DoLink? || tx.DoUnlink? || tx.DoBeginRun?)
    ensures Known(ApplyTx(db, tx, kr), sourceId, run)
    ensures
      MayStillWrite(ApplyTx(db, tx, kr), sourceId, run) <==>
      MayStillWrite(db, sourceId, run) && !Ends(tx, sourceId, run)
  {
  }

  lemma SyncStep(db: Db, tx: Tx, kr: Keyring, sourceId: SourceId, run: RunId)
    requires Known(db, sourceId, run) && (tx.DoRecordRefs? || tx.DoEndRun?)
    ensures Known(ApplyTx(db, tx, kr), sourceId, run)
    ensures
      MayStillWrite(ApplyTx(db, tx, kr), sourceId, run) <==>
      MayStillWrite(db, sourceId, run) && !Ends(tx, sourceId, run)
  {
  }

  lemma OneStep(db: Db, tx: Tx, kr: Keyring, sourceId: SourceId, run: RunId)
    requires Known(db, sourceId, run)
    ensures Known(ApplyTx(db, tx, kr), sourceId, run)
    ensures
      MayStillWrite(ApplyTx(db, tx, kr), sourceId, run) <==>
      MayStillWrite(db, sourceId, run) && !Ends(tx, sourceId, run)
  {
    if WritesRows(tx) {
      if tx.DoApplyValueRefs? {
        MovesKeepSyncs(db, tx.moves);
      } else {
        RowsKeepSyncs(db, tx, kr);
      }
      SameSyncsTell(db, ApplyTx(db, tx, kr), sourceId, run);
    } else if tx.DoRecordRefs? || tx.DoEndRun? {
      SyncStep(db, tx, kr, sourceId, run);
    } else {
      SourceStep(db, tx, kr, sourceId, run);
    }
    hide Known, MayStillWrite;
  }

  lemma {:induction false} RunTells(db: Db, txs: seq<Tx>, kr: Keyring, sourceId: SourceId, run: RunId)
    requires Known(db, sourceId, run)
    ensures Known(Run(db, txs, kr), sourceId, run)
    ensures
      MayStillWrite(Run(db, txs, kr), sourceId, run) <==>
      MayStillWrite(db, sourceId, run) && forall tx <- txs :: !Ends(tx, sourceId, run)
  {
    if txs != [] {
      var front, last := txs[..|txs| - 1], txs[|txs| - 1];
      assert txs == front + [last];
      RunTells(db, front, kr, sourceId, run);
      OneStep(Run(db, front, kr), last, kr, sourceId, run);
    }
  }

  /**
   * A sync begun on a linked source may write that source's rows, and no others, at exactly the moments before it ends,
   * a newer sync of the source begins or the source is unlinked; once one of them happened nothing lets it write again.
   */
  lemma SyncWritesWhileItRuns(
      db: Db, sourceId: SourceId, refs: seq<string>, txs: seq<Tx>, kr: Keyring, source: Source)
    requires OwnSyncs(db) && sourceId in db.sources && db.sources[sourceId].linked
    ensures
      var after := Run(ApplyTx(db, DoBeginRun(sourceId, refs), kr), txs, kr);
      FenceRefusal(after, source, Some(|db.runs|)).None? <==>
      && source.Page? && source.sourceId == sourceId
      && forall tx <- txs :: !Ends(tx, sourceId, |db.runs|)
  {
    var begun := ApplyTx(db, DoBeginRun(sourceId, refs), kr);
    RunTells(begun, txs, kr, sourceId, |db.runs|);
  }

  /** A superseded sync changes no row, however it writes: not by a persist, new metadata, or a move. */
  lemma StaleSyncChangesNothing(
      db: Db, sourceId: SourceId, refs: seq<string>, txs: seq<Tx>, kr: Keyring, late: Tx)
    requires OwnSyncs(db) && sourceId in db.sources && db.sources[sourceId].linked
    requires exists tx <- txs :: Ends(tx, sourceId, |db.runs|)
    requires
      match late
      case DoPersist(a, _, _, _) => a.syncRun == Some(|db.runs|)
      case DoUpdateMetadata(_, _, syncRun) => syncRun == Some(|db.runs|)
      case DoMoveToRef(a) => a.syncRun == Some(|db.runs|)
      case _ => false
    ensures
      var after := Run(ApplyTx(db, DoBeginRun(sourceId, refs), kr), txs, kr);
      ApplyTx(after, late, kr) == after
  {
    var after := Run(ApplyTx(db, DoBeginRun(sourceId, refs), kr), txs, kr);
    match late
    case DoPersist(a, _, _, _) => SyncWritesWhileItRuns(db, sourceId, refs, txs, kr, a.source);
    case DoUpdateMetadata(id, _, _) =>
      SyncWritesWhileItRuns(
        db, sourceId, refs, txs, kr, if id in after.rows then after.rows[id].source else Entered);
    case DoMoveToRef(a) => SyncWritesWhileItRuns(db, sourceId, refs, txs, kr, Page(a.sourceId, a.ref));
  }

  /** A newer sync of a source is the end of the one that ran: it never runs again. */
  lemma {:induction false} OlderSyncIsOver(db: Db, sourceId: SourceId, refs: seq<string>, txs: seq<Tx>, kr: Keyring)
    requires OwnSyncs(db) && sourceId in db.sources && db.sources[sourceId].activeSyncId.Some?
    ensures
      var run := db.sources[sourceId].activeSyncId.value;
      var after := Run(ApplyTx(db, DoBeginRun(sourceId, refs), kr), txs, kr);
      run < |after.runs| && after.runs[run].state != Running
  {
    if txs != [] {
      OlderSyncIsOver(db, sourceId, refs, txs[..|txs| - 1], kr);
      var before := Run(ApplyTx(db, DoBeginRun(sourceId, refs), kr), txs[..|txs| - 1], kr);
      NotAgain(before, txs[|txs| - 1], kr, db.sources[sourceId].activeSyncId.value);
    }
  }

  lemma NotAgain(db: Db, tx: Tx, kr: Keyring, run: RunId)
    requires run < |db.runs| && db.runs[run].state != Running
    ensures run < |ApplyTx(db, tx, kr).runs| && ApplyTx(db, tx, kr).runs[run].state != Running
  {
    if tx.DoApplyValueRefs? {
      MovesKeepSyncs(db, tx.moves);
    } else if WritesRows(tx) {
      RowsKeepSyncs(db, tx, kr);
    }
  }

  /** A running sync adds the refs it found behind those it had; one that does not run adds none. */
  lemma RecordedRefsGrow(db: Db, run: RunId, refs: seq<string>, kr: Keyring)
    requires run < |db.runs|
    ensures
      var after := ApplyTx(db, DoRecordRefs(run, refs), kr);
      && (db.runs[run].state != Running ==> after == db)
      && (db.runs[run].state == Running ==>
            && after == db.(runs := db.runs[run := after.runs[run]])
            && after.runs[run] == db.runs[run].(credentialRefs := after.runs[run].credentialRefs)
            && db.runs[run].credentialRefs <= after.runs[run].credentialRefs
            && after.runs[run].credentialRefs[|db.runs[run].credentialRefs|..] == refs)
  {
  }
}
