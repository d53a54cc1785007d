/** The rewrite of page refs to their value-keyed form, and the sync generation it must not lose a row of. */
module ValueRefs {
  import opened Prelude
  import opened Sealing
  import opened Credentials
  import opened CredentialInvariants
  import CredentialRef

  /** The newest run of the row's source carries its ref and is not completed. */
  predicate InOpenRun(db: Db, id: Id) {
    && id in db.rows && db.rows[id].source.Page?
    && var latest := NewestRun(db.runs, db.rows[id].source.sourceId);
    && latest.Some? && db.runs[latest.value].state != Completed
    && db.rows[id].source.ref in db.runs[latest.value].credentialRefs
  }

  lemma {:induction false} NewestRunOfAlike(a: seq<SyncRun>, b: seq<SyncRun>, sourceId: SourceId)
    requires |a| == |b| && forall i :: 0 <= i < |a| ==> a[i].sourceId == b[i].sourceId
    ensures NewestRun(a, sourceId) == NewestRun(b, sourceId)
  {
    if a != [] {
      NewestRunOfAlike(a[..|a| - 1], b[..|b| - 1], sourceId);
    }
  }

  /** Carrying one ref replaces it and no other: every other carried ref stays. */
  lemma CarriedExactly(refs: seq<string>, fromRef: string, ref: string)
    ensures
      forall r :: r in Carried(refs, fromRef, ref) <==> (r in refs && r != fromRef) || (r == ref && fromRef in refs)
  {
    var f := carried => if carried == fromRef then ref else carried;
    var mapped := Map(refs, f);
    forall r
      ensures r in mapped <==> (r in refs && r != fromRef) || (r == ref && fromRef in refs)
    {
      if r in refs && r != fromRef {
        var i :| 0 <= i < |refs| && refs[i] == r;
        assert mapped[i] == r;
      }
      if r == ref && fromRef in refs {
        var i :| 0 <= i < |refs| && refs[i] == fromRef;
        assert mapped[i] == r;
      }
      if r in mapped {
        var i :| 0 <= i < |mapped| && mapped[i] == r;
        assert refs[i] in refs;
      }
    }
  }

  /** One move drops no row from its generation: the moved row is carried, and no other row stood at its old ref. */
  lemma OneMoveKeepsGenerations(db: Db, m: RefMove, id: Id)
    requires Inv(db) && InOpenRun(db, id)
    ensures InOpenRun(ApplyOneValueRef(db, m), id)
  {
    if OutcomeOf(db, m) == Moved {
      var after := ApplyOneValueRef(db, m);
      var sourceId := db.rows[m.id].source.sourceId;
      var mine := db.rows[id].source.sourceId;
      NewestRunOfAlike(db.runs, after.runs, mine);
      NewestRunOfAlike(db.runs, after.runs, sourceId);
      var latest := NewestRun(db.runs, sourceId);
      if latest.Some? { CarriedExactly(db.runs[latest.value].credentialRefs, m.fromRef, m.ref); }
      assert SameKey(db.rows[id], db.rows[m.id]) ==> id == m.id;
    }
  }

  /**
   * For a whole page of moves: every row a sync generation held before, it holds after, wherever the row now stands.
   */
  lemma {:induction false} RewriteKeepsGenerations(db: Db, moves: seq<RefMove>, id: Id)
    requires Inv(db) && InOpenRun(db, id)
    ensures InOpenRun(ApplyValueRefs(db, moves), id)
  {
    if moves != [] {
      RewriteKeepsGenerations(db, moves[..|moves| - 1], id);
      ValueRefsKeepInv(db, moves[..|moves| - 1]);
      OneMoveKeepsGenerations(ApplyValueRefs(db, moves[..|moves| - 1]), moves[|moves| - 1], id);
    }
  }

  /** A run's refs as a set, whatever a rewrite does: none is invented and no finished run is touched. */
  lemma OneMoveTouchesOneOpenRun(db: Db, m: RefMove, run: RunId)
    requires run < |db.runs|
    ensures |ApplyOneValueRef(db, m).runs| == |db.runs|
    ensures db.runs[run].state == Completed ==> ApplyOneValueRef(db, m).runs[run] == db.runs[run]
    ensures
      forall r <- ApplyOneValueRef(db, m).runs[run].credentialRefs :: r in db.runs[run].credentialRefs || r == m.ref
  {
    if OutcomeOf(db, m) == Moved {
      var latest := NewestRun(db.runs, db.rows[m.id].source.sourceId);
      if latest.Some? {
        CarriedExactly(db.runs[latest.value].credentialRefs, m.fromRef, m.ref);
      }
    }
  }

  // ---------------------------------------------------------------- the page the action rewrites

  /** A page row with a value, its ref not yet keyed by it. */
  predicate HoldsLegacyRef(row: Row) {
    HoldsValue(row) && row.source.Page? && !CredentialRef.IsValueKeyed(row.source.ref)
  }

  /** The ref a row's value keys it by: its page, and the value's fingerprint for its owner. */
  function KeyedRef(row: Row, value: string, fingerprint: (string, string) -> string): string
    requires row.source.Page?
  {
    CredentialRef.SourceRef(CredentialRef.PageRef(row.source.ref), fingerprint(value, row.userId))
  }

  function MovesOf(
      id: Id, row: Row, kr: Keyring, allowUnbound: bool, fingerprint: (string, string) -> string): seq<RefMove> {
    if !HoldsLegacyRef(row) || Value(row, kr, allowUnbound).None? then []
    else [RefMove(id, row.source.ref, KeyedRef(row, Value(row, kr, allowUnbound).value, fingerprint))]
  }

  function PageMoves(
      db: Db, from: Id, upTo: Id, kr: Keyring, allowUnbound: bool, fingerprint: (string, string) -> string)
    : seq<RefMove>
    decreases upTo - from
  {
    if from >= upTo then []
    else
      PageMoves(db, from, upTo - 1, kr, allowUnbound, fingerprint)
      + if upTo - 1 in db.rows then MovesOf(upTo - 1, db.rows[upTo - 1], kr, allowUnbound, fingerprint) else []
  }

  /** The row at `id` has its value-keyed ref, or another row of its page holds that ref. */
  ghost predicate Rewritten(db: Db, id: Id, keyed: string) {
    && id in db.rows && db.rows[id].source.Page?
    && (|| db.rows[id].source.ref == keyed
        || exists other <- db.rows :: other != id
             && StandsAt(db.rows[other], db.rows[id].userId, db.rows[id].source.sourceId, keyed))
  }

  /** The moves of later rows leave a rewritten row rewritten: a value-keyed ref is never moved from. */
  lemma MoveKeepsRewritten(db: Db, m: RefMove, id: Id, keyed: string)
    requires Rewritten(db, id, keyed) && m.fromRef != keyed && m.id != id
    ensures Rewritten(ApplyOneValueRef(db, m), id, keyed)
  {
    var after := ApplyOneValueRef(db, m);
    OneValueRefOnlyMoves(db, m);
    MoveLeavesKeyed(db, m, id);
    if db.rows[id].source.ref != keyed {
      var other :| other in db.rows && other != id
        && StandsAt(db.rows[other], db.rows[id].userId, db.rows[id].source.sourceId, keyed);
      MoveLeavesKeyed(db, m, other);
      assert StandsAt(after.rows[other], after.rows[id].userId, after.rows[id].source.sourceId, keyed);
    }
  }

  /** A move leaves every row that is not its own, or does not stand where it moves from. */
  lemma MoveLeavesKeyed(db: Db, m: RefMove, id: Id)
    requires id in db.rows && (m.id != id || !db.rows[id].source.Page? || db.rows[id].source.ref != m.fromRef)
    ensures id in ApplyOneValueRef(db, m).rows && ApplyOneValueRef(db, m).rows[id] == db.rows[id]
  {
  }

  lemma MoveRewrites(db: Db, m: RefMove)
    requires m.id in db.rows && db.rows[m.id].source.Page? && db.rows[m.id].source.ref == m.fromRef
    requires m.fromRef != m.ref
    requires IdsGiven(db)
    ensures Rewritten(ApplyOneValueRef(db, m), m.id, m.ref)
  {
    var row := db.rows[m.id];
    var taken := FirstAt(db, row.userId, row.source.sourceId, m.ref, 0);
    if taken.Some? {
      assert StandsAt(db.rows[taken.value], row.userId, row.source.sourceId, m.ref);
      assert taken.value != m.id;
    }
  }

  lemma {:induction false} PageMovesAreTheirRows(
      db: Db, from: Id, upTo: Id, kr: Keyring, allow: bool, fingerprint: (string, string) -> string)
    requires forall v, u :: CredentialRef.IsFingerprint(fingerprint(v, u))
    ensures forall m <- PageMoves(db, from, upTo, kr, allow, fingerprint) ::
      from <= m.id < upTo && !CredentialRef.IsValueKeyed(m.fromRef) && CredentialRef.IsValueKeyed(m.ref)
    decreases upTo - from
  {
    if from < upTo {
      PageMovesAreTheirRows(db, from, upTo - 1, kr, allow, fingerprint);
      if upTo - 1 in db.rows {
        var row := db.rows[upTo - 1];
        if HoldsLegacyRef(row) && Value(row, kr, allow).Some? {
          CredentialRef.SourceRefRoundTrip(
            CredentialRef.PageRef(row.source.ref), fingerprint(Value(row, kr, allow).value, row.userId));
        }
      }
    }
  }

  lemma {:induction false} OtherMovesLeaveARow(db: Db, moves: seq<RefMove>, id: Id)
    requires id in db.rows && forall m <- moves :: m.id != id
    ensures id in ApplyValueRefs(db, moves).rows && ApplyValueRefs(db, moves).rows[id] == db.rows[id]
  {
    if moves != [] {
      OtherMovesLeaveARow(db, moves[..|moves| - 1], id);
    }
  }

  /** The moves of a page's rows before its last, then the last's own, if it has one. */
  lemma LastMoveOfPage(db: Db, from: Id, upTo: Id, kr: Keyring, allow: bool, fingerprint: (string, string) -> string)
    requires from < upTo
    ensures
      var moves := PageMoves(db, from, upTo, kr, allow, fingerprint);
      var earlier := PageMoves(db, from, upTo - 1, kr, allow, fingerprint);
      moves == earlier || (moves != [] && moves[..|moves| - 1] == earlier)
  {
  }

  lemma PageRewritesItsLast(
      read: Db, db: Db, from: Id, id: Id, kr: Keyring, allow: bool, fingerprint: (string, string) -> string)
    requires
      IdsGiven(db) && from <= id && id in read.rows && id in db.rows && db.rows[id].source == read.rows[id].source
    requires forall v, u :: CredentialRef.IsFingerprint(fingerprint(v, u))
    requires HoldsLegacyRef(read.rows[id]) && Value(read.rows[id], kr, allow).Some?
    ensures
      var keyed := KeyedRef(read.rows[id], Value(read.rows[id], kr, allow).value, fingerprint);
      Rewritten(ApplyValueRefs(db, PageMoves(read, from, id + 1, kr, allow, fingerprint)), id, keyed)
  {
    var row := read.rows[id];
    var value := Value(row, kr, allow).value;
    var earlier := PageMoves(read, from, id, kr, allow, fingerprint);
    var last := RefMove(id, row.source.ref, KeyedRef(row, value, fingerprint));
    var moves := PageMoves(read, from, id + 1, kr, allow, fingerprint);
    assert moves == earlier + [last] && moves[..|moves| - 1] == earlier;
    PageMovesAreTheirRows(read, from, id, kr, allow, fingerprint);
    OtherMovesLeaveARow(db, earlier, id);
    ValueRefsOnlyMove(db, earlier);
    CredentialRef.SourceRefRoundTrip(CredentialRef.PageRef(row.source.ref), fingerprint(value, row.userId));
    MoveRewrites(ApplyValueRefs(db, earlier), last);
  }

  /**
   * One page of the rewrite, read in one table and applied to any other: each row the read could open, and which still
   * stands where it was read, ends at its value-keyed ref, or another row of its page holds that ref.
   */
  lemma {:induction false} PageRewrites(
      read: Db, db: Db, from: Id, upTo: Id, kr: Keyring, allow: bool, fingerprint: (string, string) -> string, id: Id)
    requires IdsGiven(db) && from <= id < upTo
    requires id in read.rows && id in db.rows && db.rows[id].source == read.rows[id].source
    requires forall v, u :: CredentialRef.IsFingerprint(fingerprint(v, u))
    requires HoldsLegacyRef(read.rows[id]) && Value(read.rows[id], kr, allow).Some?
    ensures
      var keyed := KeyedRef(read.rows[id], Value(read.rows[id], kr, allow).value, fingerprint);
      Rewritten(ApplyValueRefs(db, PageMoves(read, from, upTo, kr, allow, fingerprint)), id, keyed)
    decreases upTo
  {
    if id == upTo - 1 {
      PageRewritesItsLast(read, db, from, id, kr, allow, fingerprint);
    } else {
      PageRewrites(read, db, from, upTo - 1, kr, allow, fingerprint, id);
      var row := read.rows[id];
      var value := Value(row, kr, allow).value;
      CredentialRef.SourceRefRoundTrip(CredentialRef.PageRef(row.source.ref), fingerprint(value, row.userId));
      LastMoveKeepsRewritten(read, db, from, upTo, kr, allow, fingerprint, id, KeyedRef(row, value, fingerprint));
    }
  }

  lemma LastMoveKeepsRewritten(
      read: Db, db: Db, from: Id, upTo: Id, kr: Keyring, allow: bool, fingerprint: (string, string) -> string, id: Id,
      keyed: string)
    requires from <= id < upTo - 1 && CredentialRef.IsValueKeyed(keyed)
    requires forall v, u :: CredentialRef.IsFingerprint(fingerprint(v, u))
    requires Rewritten(ApplyValueRefs(db, PageMoves(read, from, upTo - 1, kr, allow, fingerprint)), id, keyed)
    ensures Rewritten(ApplyValueRefs(db, PageMoves(read, from, upTo, kr, allow, fingerprint)), id, keyed)
  {
    var moves := PageMoves(read, from, upTo, kr, allow, fingerprint);
    LastMoveOfPage(read, from, upTo, kr, allow, fingerprint);
    PageMovesAreTheirRows(read, from, upTo, kr, allow, fingerprint);
    if moves != PageMoves(read, from, upTo - 1, kr, allow, fingerprint) {
      assert moves[|moves| - 1] in moves;
      LastMoveIsTheLastRow(read, from, upTo, kr, allow, fingerprint);
      MoveKeepsRewritten(ApplyValueRefs(db, moves[..|moves| - 1]), moves[|moves| - 1], id, keyed);
    }
  }

  lemma LastMoveIsTheLastRow(
      db: Db, from: Id, upTo: Id, kr: Keyring, allow: bool, fingerprint: (string, string) -> string)
    requires from < upTo
    requires PageMoves(db, from, upTo, kr, allow, fingerprint) != PageMoves(db, from, upTo - 1, kr, allow, fingerprint)
    ensures
      var moves := PageMoves(db, from, upTo, kr, allow, fingerprint);
      moves != [] && moves[|moves| - 1].id == upTo - 1
  {
  }
}
