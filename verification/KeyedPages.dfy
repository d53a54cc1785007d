/**
 * Where the ref rewrite leaves a row, and that the next store of its value looks for it there
 * (convex/credentialCryptoActions.ts, convex/credentials.ts).
 */
module KeyedPages {
  import opened Prelude
  import opened Sealing
  import opened Credentials
  import opened CredentialInvariants
  import opened CredentialRef
  import opened CredentialWrites
  import opened HeldCredentials
  import opened Reseal
  import opened RefRewrite
  import opened StoreAction
  import opened ValueRefs

  type Fingerprint = (string, string) -> string

  // ---------------------------------------------------------------- where one page moves a row

  /** A move of a row as the page's read found it: to its page, and the fingerprint of its value for its owner. */
  predicate MadeFrom(page: Db, m: RefMove, read: Reader, fingerprint: Fingerprint) {
    && m.id in page.rows && HoldsLegacyRef(page.rows[m.id]) && page.rows[m.id].source.ref == m.fromRef
    && ReadBy(page.rows[m.id], read).Some?
    && m.ref ==
         SourceRef(PageRef(m.fromRef), fingerprint(ReadBy(page.rows[m.id], read).value, page.rows[m.id].userId))
  }

  lemma RowMoveIsMade(page: Db, id: Id, kr: Keyring, now: bool, fingerprint: Fingerprint, read: Reader)
    requires id in page.rows && ReadsAlike(page, kr, now, read)
    ensures forall m <- MovesOf(id, page.rows[id], kr, now, fingerprint) :: MadeFrom(page, m, read, fingerprint)
  {
    assert Value(page.rows[id], kr, now) == ReadBy(page.rows[id], read);
    hide Value, ReadBy, HoldsLegacyRef;
  }

  lemma {:induction false} PageMovesAreMade(
      page: Db, from: Id, upTo: Id, kr: Keyring, now: bool, fingerprint: Fingerprint, read: Reader)
    requires ReadsAlike(page, kr, now, read)
    ensures forall m <- PageMoves(page, from, upTo, kr, now, fingerprint) :: MadeFrom(page, m, read, fingerprint)
    decreases upTo
  {
    if from < upTo {
      PageMovesAreMade(page, from, upTo - 1, kr, now, fingerprint, read);
      if upTo - 1 in page.rows {
        RowMoveIsMade(page, upTo - 1, kr, now, fingerprint, read);
      }
      hide MovesOf, MadeFrom, ReadsAlike;
    }
  }

  /** The moves of a page: each from a legacy ref to a value-keyed one. */
  predicate Keying(moves: seq<RefMove>) {
    forall m <- moves :: !IsValueKeyed(m.fromRef) && IsValueKeyed(m.ref)
  }

  predicate MovedBy(row: Row, after: Row, id: Id, m: RefMove) {
    && m.id == id && row.source.Page? && row.source.ref == m.fromRef
    && after == row.(source := Page(row.source.sourceId, m.ref))
  }

  /** Such moves leave a row, or make one move of it. */
  lemma {:induction false} MovedAtMostOnce(db: Db, moves: seq<RefMove>, id: Id)
    requires Keying(moves) && id in db.rows
    ensures
      var after := ApplyValueRefs(db, moves);
      && id in after.rows
      && (after.rows[id] == db.rows[id] || exists m <- moves :: MovedBy(db.rows[id], after.rows[id], id, m))
  {
    if moves != [] {
      var front, last := moves[..|moves| - 1], moves[|moves| - 1];
      assert moves == front + [last];
      MovedAtMostOnce(db, front, id);
      var before := ApplyValueRefs(db, front);
      OneMoveIs(before, last, id);
    }
  }

  lemma OneMoveIs(db: Db, m: RefMove, id: Id)
    requires id in db.rows
    ensures
      var after := ApplyOneValueRef(db, m);
      && id in after.rows
      && (after.rows[id] == db.rows[id] || MovedBy(db.rows[id], after.rows[id], id, m))
  {
  }

  /** A row the page moved: from a legacy ref, to its page and the fingerprint of the value it was read to hold. */
  predicate MovedToItsKey(was: Row, held: Row, after: Row, read: Reader, fingerprint: Fingerprint) {
    && held.source.Page? && !IsValueKeyed(held.source.ref)
    && ReadBy(was, read).Some? && (HoldsValue(held) ==> ReadBy(held, read) == ReadBy(was, read))
    && after == held.(source := Page(
         held.source.sourceId,
         SourceRef(PageRef(held.source.ref), fingerprint(ReadBy(was, read).value, held.userId))))
    && PageRef(after.source.ref) == PageRef(held.source.ref)
  }

  /**
   * A page of the rewrite, with any keyed steps between its read and its apply, leaves each row as it finds it or moves
   * it to the ref of its own page and value: the value read, which is still the one it holds unless it was deleted.
   */
  lemma PageMovesByValue(
      s: Sys, between: seq<Step>, from: Id, kr: Keyring, allow: bool, fingerprint: Fingerprint, id: Id)
    requires SysOk(s, kr, allow) && KeyedSteps(between) && Fingerprints(fingerprint)
    requires id in Steps(s, between, kr).db.rows
    ensures
      var held := Steps(s, between, kr).db;
      var after := ApplyValueRefs(held, MovesRead(s, from, kr, fingerprint));
      && id in after.rows
      && (after.rows[id] == held.rows[id] ||
          (&& id in s.db.rows
           && MovedToItsKey(s.db.rows[id], held.rows[id], after.rows[id], ReaderOf(kr, allow), fingerprint)))
  {
    var held, moves, read := Steps(s, between, kr).db, MovesRead(s, from, kr, fingerprint), ReaderOf(kr, allow);
    var upTo := PageEnd(s.db, from, RESEAL_PAGE);
    var after := ApplyValueRefs(held, moves);
    PageMovesAreTheirRows(s.db, from, upTo, kr, !s.db.resealDone, fingerprint);
    MovedAtMostOnce(held, moves, id);
    PolicyReadsAlike(s, kr, allow);
    PageMovesAreMade(s.db, from, upTo, kr, !s.db.resealDone, fingerprint, read);
    if after.rows[id] != held.rows[id] {
      var m :| m in moves && MovedBy(held.rows[id], after.rows[id], id, m);
      StepsLegacy(s, between, kr, allow);
      StepsEvolve(s, between, kr, allow);
      MovedIsMade(s.db, held, after, m, kr, read, fingerprint);
    }
  }

  lemma MovedIsMade(
      page: Db, held: Db, after: Db, m: RefMove, kr: Keyring, read: Reader, fingerprint: Fingerprint)
    requires MadeFrom(page, m, read, fingerprint) && LegacyEvolves(page, held, read) && Evolves(page, held, kr)
    requires m.id in held.rows && m.id in after.rows && MovedBy(held.rows[m.id], after.rows[m.id], m.id, m)
    requires !IsValueKeyed(m.fromRef) && Fingerprints(fingerprint)
    ensures MovedToItsKey(page.rows[m.id], held.rows[m.id], after.rows[m.id], read, fingerprint)
  {
    var row := held.rows[m.id];
    assert SealEvolves(page.rows[m.id], row, kr);
    if HoldsValue(row) {
      assert HoldsLegacyRef(row) && WasLegacy(page, m.id, row, read);
    }
    SourceRefRoundTrip(PageRef(m.fromRef), fingerprint(ReadBy(page.rows[m.id], read).value, row.userId));
  }

  /**
   * A move is made exactly while its row stands where it was read and no row of its owner and source stands at the
   * target; it is blocked exactly while one does.
   */
  lemma MovedExactlyWhenFree(db: Db, m: RefMove)
    requires IdsGiven(db)
    ensures
      var stands := m.id in db.rows && db.rows[m.id].source.Page? && db.rows[m.id].source.ref == m.fromRef;
      && (OutcomeOf(db, m) == Skipped <==> !stands)
      && (OutcomeOf(db, m) == Moved <==>
            && stands
            && forall other <- db.rows ::
                !StandsAt(db.rows[other], db.rows[m.id].userId, db.rows[m.id].source.sourceId, m.ref))
  {
  }

  // ---------------------------------------------------------------- every value-keyed ref keys its row's value

  /** A ref a row may stand at: its value's, for as long as the reader opens one. */
  predicate KeyedTo(row: Row, ref: string, read: Reader, fingerprint: Fingerprint) {
    ReadBy(row, read).Some? ==> ref == SourceRef(PageRef(ref), fingerprint(ReadBy(row, read).value, row.userId))
  }

  predicate KeyedByItsValue(row: Row, read: Reader, fingerprint: Fingerprint) {
    row.source.Page? && IsValueKeyed(row.source.ref) ==> KeyedTo(row, row.source.ref, read, fingerprint)
  }

  ghost predicate AllKeyed(db: Db, read: Reader, fingerprint: Fingerprint) {
    forall id <- db.rows :: KeyedByItsValue(db.rows[id], read, fingerprint)
  }

  /** A move keys the value its row holds when it is made. */
  predicate MoveKeys(db: Db, m: RefMove, read: Reader, fingerprint: Fingerprint) {
    m.id in db.rows && db.rows[m.id].source.Page? && db.rows[m.id].source.ref == m.fromRef ==>
      KeyedTo(db.rows[m.id], m.ref, read, fingerprint)
  }

  /** A page ref is written beside a value it keys: by a store, a store's move, and each move of a page in turn. */
  ghost predicate KeyingTx(db: Db, tx: Tx, read: Reader, fingerprint: Fingerprint) {
    match tx
    case DoPersist(a, plaintext, _, _) =>
      a.source.Page? ==> a.source.ref == SourceRef(PageRef(a.source.ref), fingerprint(plaintext, a.userId))
    case DoMoveToRef(m) =>
      m.id in db.rows && StandsAt(db.rows[m.id], m.userId, m.sourceId, m.fromRef) ==>
        KeyedTo(db.rows[m.id], m.ref, read, fingerprint)
    case DoApplyValueRefs(moves) => KeyingMoves(db, moves, read, fingerprint)
    case _ => true
  }

  ghost predicate KeyingMoves(db: Db, moves: seq<RefMove>, read: Reader, fingerprint: Fingerprint) {
    forall i | 0 <= i < |moves| :: MoveKeys(ApplyValueRefs(db, moves[..i]), moves[i], read, fingerprint)
  }

  ghost predicate KeyingAt(s: Sys, steps: seq<Step>, i: nat, kr: Keyring, read: Reader, fingerprint: Fingerprint)
    requires i < |steps|
  {
    steps[i].Transact? ==> KeyingTx(Steps(s, steps[..i], kr).db, steps[i].tx, read, fingerprint)
  }

  ghost predicate KeyingSteps(s: Sys, steps: seq<Step>, kr: Keyring, read: Reader, fingerprint: Fingerprint) {
    forall i | 0 <= i < |steps| :: KeyingAt(s, steps, i, kr, read, fingerprint)
  }

  lemma OneMoveKeepsKeyed(db: Db, m: RefMove, read: Reader, fingerprint: Fingerprint)
    requires AllKeyed(db, read, fingerprint) && MoveKeys(db, m, read, fingerprint)
    ensures AllKeyed(ApplyOneValueRef(db, m), read, fingerprint)
  {
    var after := ApplyOneValueRef(db, m);
    forall id | id in after.rows
      ensures KeyedByItsValue(after.rows[id], read, fingerprint)
    {
      OneMoveIs(db, m, id);
      assert KeyedByItsValue(db.rows[id], read, fingerprint);
    }
  }

  lemma {:induction false} MovesKeepKeyed(db: Db, moves: seq<RefMove>, read: Reader, fingerprint: Fingerprint)
    requires AllKeyed(db, read, fingerprint) && KeyingMoves(db, moves, read, fingerprint)
    ensures AllKeyed(ApplyValueRefs(db, moves), read, fingerprint)
  {
    if moves != [] {
      var n := |moves| - 1;
      forall i | 0 <= i < n
        ensures MoveKeys(ApplyValueRefs(db, moves[..n][..i]), moves[..n][i], read, fingerprint)
      {
        assert moves[..n][..i] == moves[..i];
      }
      MovesKeepKeyed(db, moves[..n], read, fingerprint);
      OneMoveKeepsKeyed(ApplyValueRefs(db, moves[..n]), moves[n], read, fingerprint);
    }
  }

  lemma PersistWrites(db: Db, a: PersistArgs, sealed: Sealed, now: Time)
    requires Persist(db, a, sealed, now).Ok?
    ensures
      var (after, id) := Persist(db, a, sealed, now).value;
      && after.rows.Keys == db.rows.Keys + {id}
      && (forall other <- db.rows | other != id :: after.rows[other] == db.rows[other])
      && after.rows[id].userId == a.userId && after.rows[id].source == a.source
      && after.rows[id].ciphertext == Some(sealed.cipher) && after.rows[id].iv == Some(sealed.iv)
      && after.rows[id].keyId == Some(sealed.keyId)
  {
  }

  lemma PersistKeepsKeyed(
      db: Db, a: PersistArgs, plaintext: string, iv: Iv, now: Time, kr: Keyring, allow: bool, fingerprint: Fingerprint)
    requires AllKeyed(db, ReaderOf(kr, allow), fingerprint)
    requires KeyingTx(db, DoPersist(a, plaintext, iv, now), ReaderOf(kr, allow), fingerprint)
    ensures AllKeyed(ApplyTx(db, DoPersist(a, plaintext, iv, now), kr), ReaderOf(kr, allow), fingerprint)
  {
    var sealed := SealFor(plaintext, kr, a.userId, iv);
    if Persist(db, a, sealed, now).Ok? {
      var (after, id) := Persist(db, a, sealed, now).value;
      PersistWrites(db, a, sealed, now);
      SealOpensForItsOwnerOnly(plaintext, kr, a.userId, iv, a.userId, allow);
      hide Persist;
      assert KeyedByItsValue(after.rows[id], ReaderOf(kr, allow), fingerprint);
    }
  }

  lemma SameSealKeyed(row: Row, after: Row, read: Reader, fingerprint: Fingerprint)
    requires KeyedByItsValue(row, read, fingerprint) && after.source == row.source && after.userId == row.userId
    requires HoldsValue(after) ==> HoldsValue(row) && SameSeal(row, after)
    ensures KeyedByItsValue(after, read, fingerprint)
  {
  }

  lemma TxKeepsKeyed(db: Db, tx: Tx, kr: Keyring, allow: bool, fingerprint: Fingerprint)
    requires AllKeyed(db, ReaderOf(kr, allow), fingerprint) && KeyingTx(db, tx, ReaderOf(kr, allow), fingerprint)
    ensures AllKeyed(ApplyTx(db, tx, kr), ReaderOf(kr, allow), fingerprint)
  {
    var read := ReaderOf(kr, allow);
    match tx
    case DoPersist(a, plaintext, iv, now) => PersistKeepsKeyed(db, a, plaintext, iv, now, kr, allow, fingerprint);
    case DoApplyValueRefs(moves) => MovesKeepKeyed(db, moves, read, fingerprint);
    case DoChange(id, change) =>
      if id in db.rows {
        ChangeLegacy(db.rows[id], change);
        SameSealKeyed(db.rows[id], Changed(db.rows[id], change), read, fingerprint);
      }
    case DoUpdateMetadata(id, metadata, syncRun) =>
      if UpdateMetadata(db, id, metadata, syncRun).Ok? {
        SameSealKeyed(
          db.rows[id], UpdateMetadata(db, id, metadata, syncRun).value.rows[id], read, fingerprint);
      }
    case DoMoveToRef(m) =>
      if MoveToRef(db, m).Ok? && MoveToRef(db, m).value.1 {
        assert SameSeal(db.rows[m.id], MoveToRef(db, m).value.0.rows[m.id]);
      }
    case _ =>
  }

  lemma NextKeepsKeyed(s: Sys, step: Step, kr: Keyring, allow: bool, fingerprint: Fingerprint)
    requires SysOk(s, kr, allow) && AllKeyed(s.db, ReaderOf(kr, allow), fingerprint)
    requires step.Transact? ==> KeyingTx(s.db, step.tx, ReaderOf(kr, allow), fingerprint)
    ensures AllKeyed(Next(s, step, kr).db, ReaderOf(kr, allow), fingerprint)
  {
    match step
    case Transact(tx) => TxKeepsKeyed(s.db, tx, kr, allow, fingerprint);
    case ApplyPage(i) =>
      var after := Next(s, step, kr).db;
      forall id | id in after.rows
        ensures KeyedByItsValue(after.rows[id], ReaderOf(kr, allow), fingerprint)
      {
        if id in s.db.rows {
          PageIsInvisible(s, i, kr, allow, id);
          assert KeyedByItsValue(s.db.rows[id], ReaderOf(kr, allow), fingerprint);
        } else {
          PageAddsNoRow(s, i, kr, allow, id);
        }
      }
    case _ =>
  }

  lemma PageAddsNoRow(s: Sys, i: nat, kr: Keyring, allow: bool, id: Id)
    requires SysOk(s, kr, allow) && id !in s.db.rows
    ensures id !in Next(s, ApplyPage(i), kr).db.rows
  {
    if i < |s.drivers| && s.drivers[i].phase.Loaded? {
      assert s.drivers[i] in s.drivers;
      ApplyIsInvisible(s.db, s.drivers[i].phase.items, kr, allow);
    }
  }

  lemma {:induction false} StepsKeepKeyed(s: Sys, steps: seq<Step>, kr: Keyring, allow: bool, fingerprint: Fingerprint)
    requires SysOk(s, kr, allow) && AllKeyed(s.db, ReaderOf(kr, allow), fingerprint)
    requires KeyingSteps(s, steps, kr, ReaderOf(kr, allow), fingerprint)
    ensures SysOk(Steps(s, steps, kr), kr, allow)
    ensures AllKeyed(Steps(s, steps, kr).db, ReaderOf(kr, allow), fingerprint)
  {
    if steps != [] {
      var n := |steps| - 1;
      forall i | 0 <= i < n
        ensures KeyingAt(s, steps[..n], i, kr, ReaderOf(kr, allow), fingerprint)
      {
        assert steps[..n][..i] == steps[..i];
        assert KeyingAt(s, steps, i, kr, ReaderOf(kr, allow), fingerprint);
      }
      StepsKeepKeyed(s, steps[..n], kr, allow, fingerprint);
      assert KeyingAt(s, steps, n, kr, ReaderOf(kr, allow), fingerprint);
      NextKeepsKeyed(Steps(s, steps[..n], kr), steps[n], kr, allow, fingerprint);
      NextKeepsSysOk(Steps(s, steps[..n], kr), steps[n], kr, allow);
    }
  }

  /** The rewrite's own moves are such moves, whatever ran since the page was read. */
  lemma OwnMovesKey(s: Sys, between: seq<Step>, from: Id, kr: Keyring, allow: bool, fingerprint: Fingerprint)
    requires SysOk(s, kr, allow) && KeyedSteps(between) && Fingerprints(fingerprint)
    ensures
      KeyingMoves(Steps(s, between, kr).db, MovesRead(s, from, kr, fingerprint), ReaderOf(kr, allow), fingerprint)
  {
    var held, moves, read := Steps(s, between, kr).db, MovesRead(s, from, kr, fingerprint), ReaderOf(kr, allow);
    var upTo := PageEnd(s.db, from, RESEAL_PAGE);
    PageMovesAreTheirRows(s.db, from, upTo, kr, !s.db.resealDone, fingerprint);
    PolicyReadsAlike(s, kr, allow);
    PageMovesAreMade(s.db, from, upTo, kr, !s.db.resealDone, fingerprint, read);
    StepsLegacy(s, between, kr, allow);
    StepsEvolve(s, between, kr, allow);
    forall i | 0 <= i < |moves|
      ensures MoveKeys(ApplyValueRefs(held, moves[..i]), moves[i], read, fingerprint)
    {
      var before := ApplyValueRefs(held, moves[..i]);
      MovesLegacy(held, moves[..i], read);
      LegacyTransitive(s.db, held, before, read);
      ValueRefsOnlyMove(held, moves[..i]);
      assert moves[i] in moves;
      OwnMoveKeys(s.db, held, before, moves[i], kr, read, fingerprint);
    }
  }

  lemma OwnMoveKeys(
      page: Db, held: Db, before: Db, m: RefMove, kr: Keyring, read: Reader, fingerprint: Fingerprint)
    requires MadeFrom(page, m, read, fingerprint) && !IsValueKeyed(m.fromRef) && Fingerprints(fingerprint)
    requires Evolves(page, held, kr) && OnlyRefsMoved(held, before) && LegacyEvolves(page, before, read)
    ensures MoveKeys(before, m, read, fingerprint)
  {
    if m.id in before.rows && before.rows[m.id].source.Page? && before.rows[m.id].source.ref == m.fromRef {
      var row := before.rows[m.id];
      assert RefMovedAtMost(held.rows[m.id], row) && SealEvolves(page.rows[m.id], held.rows[m.id], kr);
      SourceRefRoundTrip(PageRef(m.fromRef), fingerprint(ReadBy(page.rows[m.id], read).value, row.userId));
      if ReadBy(row, read).Some? {
        assert HoldsLegacyRef(row) && WasLegacy(page, m.id, row, read);
      }
    }
  }

  // ---------------------------------------------------------------- the whole rewrite

  ghost predicate KeyingTurn(r: Rewrite, turn: Turn, kr: Keyring, read: Reader, fingerprint: Fingerprint) {
    && KeyingSteps(r.s, turn.before, kr, read, fingerprint)
    && KeyingSteps(PageRead(r, turn, kr), turn.between, kr, read, fingerprint)
  }

  ghost predicate KeyingTurns(s: Sys, turns: seq<Turn>, kr: Keyring, read: Reader, fingerprint: Fingerprint) {
    forall k | 0 <= k < |turns| :: KeyingTurn(Pages(s, turns[..k], kr, fingerprint), turns[k], kr, read, fingerprint)
  }

  lemma OnePageKeepsKeyed(r: Rewrite, turn: Turn, kr: Keyring, allow: bool, fingerprint: Fingerprint)
    requires SysOk(r.s, kr, allow) && AllKeyed(r.s.db, ReaderOf(kr, allow), fingerprint)
    requires KeyingTurn(r, turn, kr, ReaderOf(kr, allow), fingerprint)
    requires KeyedSteps(turn.between) && Fingerprints(fingerprint)
    ensures AllKeyed(OnePage(r, turn, kr, fingerprint).s.db, ReaderOf(kr, allow), fingerprint)
  {
    var page := PageRead(r, turn, kr);
    StepsKeepKeyed(r.s, turn.before, kr, allow, fingerprint);
    StepsKeepKeyed(page, turn.between, kr, allow, fingerprint);
    OwnMovesKey(page, turn.between, r.cursor, kr, allow, fingerprint);
    MovesKeepKeyed(
      PageHeld(r, turn, kr).db, MovesRead(page, r.cursor, kr, fingerprint), ReaderOf(kr, allow), fingerprint);
  }

  lemma {:induction false} RewriteKeepsKeyed(
      s: Sys, turns: seq<Turn>, n: nat, kr: Keyring, allow: bool, fingerprint: Fingerprint)
    requires SysOk(s, kr, allow) && AllKeyed(s.db, ReaderOf(kr, allow), fingerprint)
    requires KeyedTurns(turns) && Fingerprints(fingerprint)
    requires KeyingTurns(s, turns, kr, ReaderOf(kr, allow), fingerprint)
    requires n <= |turns| && Unfinished(s, turns, n, kr, fingerprint)
    ensures AllKeyed(Pages(s, turns[..n], kr, fingerprint).s.db, ReaderOf(kr, allow), fingerprint)
  {
    if n > 0 {
      var r := Pages(s, turns[..n - 1], kr, fingerprint);
      RewriteKeepsKeyed(s, turns, n - 1, kr, allow, fingerprint);
      RewriteIsComplete(s, turns, n - 1, kr, allow, fingerprint);
      NextPage(s, turns, n - 1, kr, fingerprint);
      hide OnePage, KeyingTurn, AllKeyed;
      assert KeyingTurn(r, turns[n - 1], kr, ReaderOf(kr, allow), fingerprint);
      OnePageKeepsKeyed(r, turns[n - 1], kr, allow, fingerprint);
    }
  }

  /** A page row that opens, at the ref of its own page and value. */
  predicate AtItsKey(row: Row, value: string, fingerprint: Fingerprint) {
    row.source.Page? && row.source.ref == SourceRef(PageRef(row.source.ref), fingerprint(value, row.userId))
  }

  /** A rewrite that has ended after so many pages, begun on a table whose value-keyed refs key their rows' values. */
  ghost predicate Ended(s: Sys, turns: seq<Turn>, n: nat, kr: Keyring, allow: bool, fingerprint: Fingerprint) {
    && Good(s, kr, allow) && AllKeyed(s.db, ReaderOf(kr, allow), fingerprint)
    && Fingerprints(fingerprint) && KeyedTurns(turns)
    && KeyingTurns(s, turns, kr, ReaderOf(kr, allow), fingerprint)
    && n <= |turns| && Unfinished(s, turns, n, kr, fingerprint) && Pages(s, turns[..n], kr, fingerprint).isDone
  }

  /**
   * Once the rewrite has ended, whatever ran beside it: every page row that opens is at the ref its value keys, or is
   * named blocked.
   */
  lemma RewriteKeysEveryValue(
      s: Sys, turns: seq<Turn>, n: nat, kr: Keyring, allow: bool, fingerprint: Fingerprint, id: Id)
    requires Ended(s, turns, n, kr, allow, fingerprint)
    ensures
      var r := Pages(s, turns[..n], kr, fingerprint);
      && Good(r.s, kr, allow)
      && (id in r.s.db.rows && r.s.db.rows[id].source.Page? ==>
            var value := ReadBy(r.s.db.rows[id], ReaderOf(kr, allow));
            value.Some? ==> AtItsKey(r.s.db.rows[id], value.value, fingerprint) || id in r.blocked)
  {
    var r, read := Pages(s, turns[..n], kr, fingerprint), ReaderOf(kr, allow);
    RewriteKeepsKeyed(s, turns, n, kr, allow, fingerprint);
    RewriteIsComplete(s, turns, n, kr, allow, fingerprint);
    RewriteIsARun(s, turns[..n], kr, fingerprint);
    StepsKeepGood(s, RewriteSteps(s, turns[..n], kr, fingerprint), kr, allow);
    if id in r.s.db.rows {
      assert KeyedByItsValue(r.s.db.rows[id], read, fingerprint);
      if HoldsLegacyRef(r.s.db.rows[id]) {
        assert NamedAs(r.s.db.rows[id], id, r.unreadable, r.blocked, read);
      }
    }
  }

  // ---------------------------------------------------------------- what the next sync's store finds

  /**
   * The next sync's store of a value finds the row at its key: it answers that row, inserts none, keeps the row's usage
   * and history, and changes nothing else.
   */
  lemma AtItsKeyIsFound(
      s: Sys, id: Id, a: StoreArgs, kr: Keyring, allow: bool, iv: Iv, now: Time, fingerprint: Fingerprint)
    requires Good(s, kr, allow) && id in s.db.rows && AtItsKey(s.db.rows[id], a.plaintext, fingerprint)
    requires ReadBy(s.db.rows[id], ReaderOf(kr, allow)) == Some(a.plaintext)
    requires a.userId == s.db.rows[id].userId
    requires KeyedStore(a, s.db.rows[id].source.sourceId, PageRef(s.db.rows[id].source.ref), fingerprint)
    requires Store(s.db, a, kr, iv, now).Ok?
    ensures
      var (after, stored) := Store(s.db, a, kr, iv, now).value;
      && stored == id && after.rows.Keys == s.db.rows.Keys && StoredOn(s.db, after, id, a, kr)
      && KeepsHistory(s.db.rows[id], after.rows[id]) && after.rows[id].lastUsedAt == s.db.rows[id].lastUsedAt
  {
    UniqueReadNeverFails(s.db, a.userId, a.source.sourceId, a.source.ref);
    assert StandsAt(s.db.rows[id], a.userId, a.source.sourceId, a.source.ref);
    StoreAtAStandingRef(s.db, a, kr, iv, now, id);
    PolicyReadsAlike(s, kr, allow);
    assert StoredValue(s.db, id, kr) == Some(a.plaintext);
  }

  /** So no value the rewrite could read, and did not find blocked, mints a second row when it is next stored. */
  lemma RewrittenValueMintsNoRow(
      s: Sys, turns: seq<Turn>, n: nat, kr: Keyring, allow: bool, fingerprint: Fingerprint, id: Id, a: StoreArgs,
      iv: Iv, now: Time)
    requires Ended(s, turns, n, kr, allow, fingerprint)
    requires
      var r := Pages(s, turns[..n], kr, fingerprint);
      && id in r.s.db.rows && r.s.db.rows[id].source.Page? && id !in r.blocked
      && ReadBy(r.s.db.rows[id], ReaderOf(kr, allow)) == Some(a.plaintext)
      && a.userId == r.s.db.rows[id].userId
      && KeyedStore(a, r.s.db.rows[id].source.sourceId, PageRef(r.s.db.rows[id].source.ref), fingerprint)
      && Store(r.s.db, a, kr, iv, now).Ok?
    ensures
      var db := Pages(s, turns[..n], kr, fingerprint).s.db;
      var (after, stored) := Store(db, a, kr, iv, now).value;
      stored == id && after.rows.Keys == db.rows.Keys && StoredOn(db, after, id, a, kr)
  {
    assert n <= |turns|;
    hide *;
    RewriteKeysEveryValue(s, turns, n, kr, allow, fingerprint, id);
    AtItsKeyIsFound(Pages(s, turns[..n], kr, fingerprint).s, id, a, kr, allow, iv, now, fingerprint);
  }

  /** A page of such a table whose rows all open is one a sync's stores keep distinct. */
  lemma KeyedPageIsGood(
      s: Sys, userId: string, sourceId: SourceId, pageRef: string, kr: Keyring, allow: bool, fingerprint: Fingerprint,
      values: set<string>)
    requires Good(s, kr, allow) && PlainRefs(s.db) && AllKeyed(s.db, ReaderOf(kr, allow), fingerprint)
    requires forall id <- s.db.rows | OnPage(s.db.rows[id], userId, sourceId, pageRef) ::
        exists v <- values :: ReadBy(s.db.rows[id], ReaderOf(kr, allow)) == Some(v)
    ensures PageGood(s.db, userId, sourceId, pageRef, kr, fingerprint, values)
  {
    PolicyReadsAlike(s, kr, allow);
    forall id | id in s.db.rows && OnPage(s.db.rows[id], userId, sourceId, pageRef)
      ensures StoredValue(s.db, id, kr).Some? && StoredValue(s.db, id, kr).value in values
      ensures IsValueKeyed(s.db.rows[id].source.ref) ==>
        s.db.rows[id].source.ref == SourceRef(pageRef, fingerprint(StoredValue(s.db, id, kr).value, userId))
    {
      assert KeyedByItsValue(s.db.rows[id], ReaderOf(kr, allow), fingerprint);
      assert Value(s.db.rows[id], kr, !s.db.resealDone) == ReadBy(s.db.rows[id], ReaderOf(kr, allow));
    }
  }
}
