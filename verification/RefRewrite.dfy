/**
 * The rewrite of every page ref to its value-keyed form, page by page (convex/credentialCryptoActions.ts), against any
 * other transactions and re-seals.
 */
module RefRewrite {
  import opened Prelude
  import opened Sealing
  import opened Credentials
  import opened CredentialInvariants
  import opened Reseal
  import opened ResealTheorems
  import opened ValueRefs
  import CredentialRef

  // ---------------------------------------------------------------- legacy refs only go

  /** Every ref the deployment writes now is value-keyed. */
  predicate KeyedTx(tx: Tx) {
    match tx
    case DoPersist(p, _, _, _) => p.source.Page? ==> CredentialRef.IsValueKeyed(p.source.ref)
    case DoMoveToRef(m) => CredentialRef.IsValueKeyed(m.ref)
    case DoApplyValueRefs(moves) => KeyedMoves(moves)
    case _ => true
  }

  predicate KeyedMoves(moves: seq<RefMove>) {
    forall m <- moves :: CredentialRef.IsValueKeyed(m.ref)
  }

  ghost predicate KeyedSteps(steps: seq<Step>) {
    forall step <- steps | step.Transact? :: KeyedTx(step.tx)
  }

  /** A row on a legacy ref stood there before, and opened to what it opens to now. */
  predicate WasLegacy(db: Db, id: Id, row: Row, read: Reader) {
    && id in db.rows && HoldsLegacyRef(db.rows[id]) && db.rows[id].source == row.source
    && ReadBy(db.rows[id], read) == ReadBy(row, read)
  }

  ghost predicate LegacyEvolves(db: Db, after: Db, read: Reader) {
    forall i <- after.rows | HoldsLegacyRef(after.rows[i]) :: WasLegacy(db, i, after.rows[i], read)
  }

  lemma LegacyTransitive(a: Db, b: Db, c: Db, read: Reader)
    requires LegacyEvolves(a, b, read) && LegacyEvolves(b, c, read)
    ensures LegacyEvolves(a, c, read)
  {
    forall i | i in c.rows && HoldsLegacyRef(c.rows[i])
      ensures WasLegacy(a, i, c.rows[i], read)
    {
      assert WasLegacy(b, i, c.rows[i], read);
      assert WasLegacy(a, i, b.rows[i], read);
    }
  }

  /** A patch of one row that gives no legacy ref gives none to the table. */
  lemma PatchLegacy(db: Db, id: Id, row: Row, read: Reader)
    requires HoldsLegacyRef(row) ==> WasLegacy(db, id, row, read)
    ensures LegacyEvolves(db, db.(rows := db.rows[id := row]), read)
  {
  }

  lemma PersistLegacy(db: Db, a: PersistArgs, plaintext: string, iv: Iv, now: Time, kr: Keyring, read: Reader)
    requires a.source.Page? ==> CredentialRef.IsValueKeyed(a.source.ref)
    ensures LegacyEvolves(db, ApplyTx(db, DoPersist(a, plaintext, iv, now), kr), read)
  {
    var sealed := SealFor(plaintext, kr, a.userId, iv);
    if Persist(db, a, sealed, now).Ok? {
      var (after, id) := Persist(db, a, sealed, now).value;
      assert !HoldsLegacyRef(after.rows[id]);
      PatchLegacy(db, id, after.rows[id], read);
    }
  }

  lemma ChangeLegacy(row: Row, change: RowChange)
    ensures Changed(row, change).source == row.source && Changed(row, change).userId == row.userId
    ensures HoldsValue(Changed(row, change)) ==> HoldsValue(row) && SameSeal(row, Changed(row, change))
  {
  }

  lemma OneMoveLegacy(db: Db, m: RefMove, read: Reader)
    requires CredentialRef.IsValueKeyed(m.ref)
    ensures LegacyEvolves(db, ApplyOneValueRef(db, m), read)
  {
    if OutcomeOf(db, m) == Moved {
      PatchLegacy(db, m.id, db.rows[m.id].(source := Page(db.rows[m.id].source.sourceId, m.ref)), read);
    }
  }

  lemma {:induction false} MovesLegacy(db: Db, moves: seq<RefMove>, read: Reader)
    requires KeyedMoves(moves)
    ensures LegacyEvolves(db, ApplyValueRefs(db, moves), read)
  {
    if moves != [] {
      var before := ApplyValueRefs(db, moves[..|moves| - 1]);
      MovesLegacy(db, moves[..|moves| - 1], read);
      OneMoveLegacy(before, moves[|moves| - 1], read);
      LegacyTransitive(db, before, ApplyValueRefs(db, moves), read);
    }
  }

  lemma TxLegacy(db: Db, tx: Tx, kr: Keyring, read: Reader)
    requires KeyedTx(tx)
    ensures LegacyEvolves(db, ApplyTx(db, tx, kr), read)
  {
    match tx
    case DoPersist(a, plaintext, iv, now) => PersistLegacy(db, a, plaintext, iv, now, kr, read);
    case DoApplyValueRefs(moves) => MovesLegacy(db, moves, read);
    case DoChange(id, change) =>
      if id in db.rows {
        ChangeLegacy(db.rows[id], change);
        PatchLegacy(db, id, Changed(db.rows[id], change), read);
      }
    case _ =>
  }

  lemma NextLegacy(s: Sys, step: Step, kr: Keyring, allow: bool)
    requires SysOk(s, kr, allow) && (step.Transact? ==> KeyedTx(step.tx))
    ensures LegacyEvolves(s.db, Next(s, step, kr).db, ReaderOf(kr, allow))
  {
    match step
    case Transact(tx) => TxLegacy(s.db, tx, kr, ReaderOf(kr, allow));
    case ApplyPage(i) =>
      if i < |s.drivers| && s.drivers[i].phase.Loaded? {
        assert s.drivers[i] in s.drivers;
        ApplyIsInvisible(s.db, s.drivers[i].phase.items, kr, allow);
        AlikeLegacy(s.db, ApplyReseal(s.db, s.drivers[i].phase.items).0, ReaderOf(kr, allow));
      }
    case _ =>
  }

  lemma AlikeLegacy(db: Db, after: Db, read: Reader)
    requires Alike(db, after, read)
    ensures LegacyEvolves(db, after, read)
  {
    assert forall id <- after.rows :: AlikeRow(db.rows[id], after.rows[id], read);
  }

  /**
   * Over every run of keyed steps and re-seals no row comes to stand on a legacy ref, and one that does stands where it
   * stood and opens to what it opened to.
   */
  lemma {:induction false} StepsLegacy(s: Sys, steps: seq<Step>, kr: Keyring, allow: bool)
    requires SysOk(s, kr, allow) && KeyedSteps(steps)
    ensures SysOk(Steps(s, steps, kr), kr, allow) && LegacyEvolves(s.db, Steps(s, steps, kr).db, ReaderOf(kr, allow))
  {
    if steps != [] {
      var before := Steps(s, steps[..|steps| - 1], kr);
      StepsLegacy(s, steps[..|steps| - 1], kr, allow);
      NextLegacy(before, steps[|steps| - 1], kr, allow);
      NextKeepsSysOk(before, steps[|steps| - 1], kr, allow);
      LegacyTransitive(s.db, before.db, Steps(s, steps, kr).db, ReaderOf(kr, allow));
    }
  }

  // ---------------------------------------------------------------- what a page names

  predicate UnreadableRow(row: Row, kr: Keyring, allow: bool) {
    HoldsLegacyRef(row) && Value(row, kr, allow).None?
  }

  /** The rows of a page on a legacy ref whose value the keyring cannot open. */
  function Unreadable(db: Db, from: Id, upTo: Id, kr: Keyring, allow: bool): (r: seq<Id>)
    ensures
      forall id: nat ::
        id in r <==>
        && from <= id < upTo && id in db.rows && HoldsValue(db.rows[id]) && Value(db.rows[id], kr, allow).None?
        && db.rows[id].source.Page? && !CredentialRef.IsValueKeyed(db.rows[id].source.ref)
    decreases upTo - from
  {
    if from >= upTo then []
    else
      Unreadable(db, from, upTo - 1, kr, allow)
      + if upTo - 1 in db.rows && UnreadableRow(db.rows[upTo - 1], kr, allow) then [upTo - 1] else []
  }

  lemma NextMove(db: Db, moves: seq<RefMove>, i: nat)
    requires i < |moves|
    ensures
      var before, (changed, blocked) := ApplyValueRefs(db, moves[..i]), MovesReport(db, moves[..i]);
      && ApplyValueRefs(db, moves[..i + 1]) == ApplyOneValueRef(before, moves[i])
      && MovesReport(db, moves[..i + 1]) ==
        match OutcomeOf(before, moves[i])
        case Moved => (changed + 1, blocked)
        case Blocked => (changed, blocked + [moves[i].id])
        case Skipped => (changed, blocked)
  {
    assert moves[..i + 1][..i] == moves[..i];
  }

  /** A blocked row still stands after the page, page-derived. */
  lemma {:induction false} BlockedStand(db: Db, moves: seq<RefMove>)
    ensures
      forall id <- MovesReport(db, moves).1 ::
        id in ApplyValueRefs(db, moves).rows && ApplyValueRefs(db, moves).rows[id].source.Page?
  {
    if moves != [] {
      var before := ApplyValueRefs(db, moves[..|moves| - 1]);
      BlockedStand(db, moves[..|moves| - 1]);
      OneValueRefOnlyMoves(before, moves[|moves| - 1]);
      forall id | id in before.rows && before.rows[id].source.Page?
        ensures ApplyValueRefs(db, moves).rows[id].source.Page?
      {
        assert RefMovedAtMost(before.rows[id], ApplyValueRefs(db, moves).rows[id]);
      }
    }
  }

  /** The move at a place of a page found another row at its target. */
  predicate BlockedAt(db: Db, moves: seq<RefMove>, i: nat) {
    i < |moves| && OutcomeOf(ApplyValueRefs(db, moves[..i]), moves[i]) == Blocked
  }

  lemma BlockedEarlier(db: Db, moves: seq<RefMove>, n: nat, i: nat)
    requires i < n <= |moves|
    ensures BlockedAt(db, moves, i) <==> BlockedAt(db, moves[..n], i)
  {
    assert moves[..n][..i] == moves[..i];
  }

  lemma BlockedLast(db: Db, moves: seq<RefMove>, id: Id)
    requires moves != []
    ensures
      var n := |moves| - 1;
      id in MovesReport(db, moves).1 <==>
        id in MovesReport(db, moves[..n]).1 || (BlockedAt(db, moves, n) && moves[n].id == id)
  {
  }

  /** The ids a page reports blocked are exactly those of moves that found another row at their target. */
  lemma {:induction false} BlockedExactly(db: Db, moves: seq<RefMove>, id: Id)
    ensures id in MovesReport(db, moves).1 <==> exists i: nat :: BlockedAt(db, moves, i) && moves[i].id == id
  {
    if moves != [] {
      var n := |moves| - 1;
      var front := moves[..n];
      BlockedLast(db, moves, id);
      BlockedExactly(db, front, id);
      hide BlockedAt, MovesReport;
      if i: nat :| BlockedAt(db, front, i) && front[i].id == id {
        BlockedBelow(db, front, i);
        BlockedEarlier(db, moves, n, i);
        assert BlockedAt(db, moves, i) && moves[i].id == id;
      }
      if i: nat :| BlockedAt(db, moves, i) && moves[i].id == id {
        BlockedBelow(db, moves, i);
        if i < n {
          BlockedEarlier(db, moves, n, i);
          assert BlockedAt(db, front, i) && front[i].id == id;
        }
      }
    }
  }

  lemma BlockedBelow(db: Db, moves: seq<RefMove>, i: nat)
    requires BlockedAt(db, moves, i)
    ensures i < |moves|
  {
  }

  // ---------------------------------------------------------------- each legacy row is moved or reported

  /**
   * Every row before `below` that holds a value on a legacy ref was named: as blocked when the reader opens it, else as
   * unreadable.
   */
  ghost predicate Reported(db: Db, below: Id, unreadable: seq<Id>, blocked: seq<Id>, read: Reader) {
    forall i <- db.rows | i < below && HoldsLegacyRef(db.rows[i]) :: NamedAs(db.rows[i], i, unreadable, blocked, read)
  }

  predicate NamedAs(row: Row, id: Id, unreadable: seq<Id>, blocked: seq<Id>, read: Reader) {
    if ReadBy(row, read).Some? then id in blocked else id in unreadable
  }

  lemma ReportedEvolves(db: Db, after: Db, below: Id, unreadable: seq<Id>, blocked: seq<Id>, read: Reader)
    requires Reported(db, below, unreadable, blocked, read) && LegacyEvolves(db, after, read)
    ensures Reported(after, below, unreadable, blocked, read)
  {
    forall i | i in after.rows && i < below && HoldsLegacyRef(after.rows[i])
      ensures NamedAs(after.rows[i], i, unreadable, blocked, read)
    {
      assert WasLegacy(db, i, after.rows[i], read);
      assert NamedAs(db.rows[i], i, unreadable, blocked, read);
    }
  }

  lemma {:induction false} MoveOfReadable(
      db: Db, from: Id, upTo: Id, kr: Keyring, allow: bool, fingerprint: (string, string) -> string, id: Id)
    requires from <= id < upTo && id in db.rows && HoldsLegacyRef(db.rows[id]) && Value(db.rows[id], kr, allow).Some?
    ensures
      var keyed := KeyedRef(db.rows[id], Value(db.rows[id], kr, allow).value, fingerprint);
      RefMove(id, db.rows[id].source.ref, keyed) in PageMoves(db, from, upTo, kr, allow, fingerprint)
    decreases upTo
  {
    if id < upTo - 1 {
      MoveOfReadable(db, from, upTo - 1, kr, allow, fingerprint, id);
    }
  }

  /** A row still where a move found it after the whole page was blocked. */
  lemma {:induction false} LeftIsBlocked(db: Db, moves: seq<RefMove>, m: RefMove, read: Reader)
    requires KeyedMoves(moves) && m in moves
    requires
      var after := ApplyValueRefs(db, moves);
      m.id in after.rows && HoldsLegacyRef(after.rows[m.id]) && after.rows[m.id].source.ref == m.fromRef
    ensures m.id in MovesReport(db, moves).1
  {
    var front, last := moves[..|moves| - 1], moves[|moves| - 1];
    assert moves == front + [last];
    var before := ApplyValueRefs(db, front);
    OneMoveLegacy(before, last, read);
    assert WasLegacy(before, m.id, ApplyValueRefs(db, moves).rows[m.id], read);
    if m != last {
      LeftIsBlocked(db, front, m, read);
    } else if OutcomeOf(before, last) == Moved {
      MovedIsKeyed(before, last);
    }
  }

  lemma MovedIsKeyed(db: Db, m: RefMove)
    requires OutcomeOf(db, m) == Moved
    ensures ApplyOneValueRef(db, m).rows[m.id].source.ref == m.ref
  {
  }

  ghost predicate Fingerprints(fingerprint: (string, string) -> string) {
    forall value, userId :: CredentialRef.IsFingerprint(fingerprint(value, userId))
  }

  /** The policy a page is read under opens each of its rows as the run's reader does. */
  ghost predicate ReadsAlike(db: Db, kr: Keyring, now: bool, read: Reader) {
    forall id <- db.rows :: Value(db.rows[id], kr, now) == ReadBy(db.rows[id], read)
  }

  lemma PolicyReadsAlike(s: Sys, kr: Keyring, allow: bool)
    requires SysOk(s, kr, allow)
    ensures ReadsAlike(s.db, kr, !s.db.resealDone, ReaderOf(kr, allow))
  {
    forall id | id in s.db.rows
      ensures Value(s.db.rows[id], kr, !s.db.resealDone) == ReadBy(s.db.rows[id], ReaderOf(kr, allow))
    {
      SwitchIsInvisible(s, kr, allow, id);
    }
  }

  /**
   * A page read in one table and applied to a later one: of its rows, each still holding a value on a legacy ref is
   * named blocked when it opens, and unreadable when it does not.
   */
  lemma PageNames(
      page: Db, db: Db, from: Id, upTo: Id, kr: Keyring, now: bool, fingerprint: (string, string) -> string,
      read: Reader, id: Id)
    requires LegacyEvolves(page, db, read) && from <= id < upTo && Fingerprints(fingerprint)
    requires ReadsAlike(page, kr, now, read)
    requires
      var after := ApplyValueRefs(db, PageMoves(page, from, upTo, kr, now, fingerprint));
      id in after.rows && HoldsLegacyRef(after.rows[id])
    ensures
      var moves := PageMoves(page, from, upTo, kr, now, fingerprint);
      var row := ApplyValueRefs(db, moves).rows[id];
      WasLegacy(page, id, row, read)
      && NamedAs(row, id, Unreadable(page, from, upTo, kr, now), MovesReport(db, moves).1, read)
  {
    var moves := PageMoves(page, from, upTo, kr, now, fingerprint);
    var after := ApplyValueRefs(db, moves);
    PageMovesAreTheirRows(page, from, upTo, kr, now, fingerprint);
    MovesLegacy(db, moves, read);
    LegacyTransitive(page, db, after, read);
    assert WasLegacy(page, id, after.rows[id], read);
    var row := page.rows[id];
    if Value(row, kr, now).Some? {
      MoveOfReadable(page, from, upTo, kr, now, fingerprint, id);
      var keyed := KeyedRef(row, Value(row, kr, now).value, fingerprint);
      LeftIsBlocked(db, moves, RefMove(id, row.source.ref, keyed), read);
    }
  }

  lemma PageIsReported(
      page: Db, db: Db, from: Id, upTo: Id, kr: Keyring, now: bool, fingerprint: (string, string) -> string,
      read: Reader, unreadable: seq<Id>, blocked: seq<Id>)
    requires LegacyEvolves(page, db, read) && from <= upTo && Fingerprints(fingerprint)
    requires ReadsAlike(page, kr, now, read) && Reported(page, from, unreadable, blocked, read)
    ensures
      var moves := PageMoves(page, from, upTo, kr, now, fingerprint);
      var after := ApplyValueRefs(db, moves);
      LegacyEvolves(page, after, read)
      && Reported(
        after, upTo, unreadable + Unreadable(page, from, upTo, kr, now), blocked + MovesReport(db, moves).1, read)
  {
    var moves := PageMoves(page, from, upTo, kr, now, fingerprint);
    var after := ApplyValueRefs(db, moves);
    PageMovesAreTheirRows(page, from, upTo, kr, now, fingerprint);
    MovesLegacy(db, moves, read);
    LegacyTransitive(page, db, after, read);
    ReportedEvolves(page, after, from, unreadable, blocked, read);
    var more, others := unreadable + Unreadable(page, from, upTo, kr, now), blocked + MovesReport(db, moves).1;
    forall i | i in after.rows && i < upTo && HoldsLegacyRef(after.rows[i])
      ensures NamedAs(after.rows[i], i, more, others, read)
    {
      if i < from {
        assert NamedAs(after.rows[i], i, unreadable, blocked, read);
      } else {
        PageNames(page, db, from, upTo, kr, now, fingerprint, read, i);
      }
    }
  }

  /** No legacy ref is new: all of a later table's stand within the ids given when it was read. */
  lemma NoLegacyRefIsNew(page: Db, after: Db, read: Reader)
    requires IdsGiven(page) && LegacyEvolves(page, after, read)
    ensures forall i <- after.rows | HoldsLegacyRef(after.rows[i]) :: i < page.next
  {
    forall i | i in after.rows && HoldsLegacyRef(after.rows[i])
      ensures i < page.next
    {
      assert WasLegacy(page, i, after.rows[i], read);
    }
  }

  /** Other steps, then a page of moves: no legacy ref is new, and every re-seal under way stands. */
  lemma RewriteGoesOn(s: Sys, between: seq<Step>, moves: seq<RefMove>, kr: Keyring, allow: bool)
    requires SysOk(s, kr, allow) && KeyedSteps(between)
    ensures
      var before := Steps(s, between, kr);
      && LegacyEvolves(s.db, before.db, ReaderOf(kr, allow))
      && SysOk(Sys(ApplyValueRefs(before.db, moves), before.drivers), kr, allow)
      && s.db.next <= ApplyValueRefs(before.db, moves).next
  {
    var before := Steps(s, between, kr);
    StepsLegacy(s, between, kr, allow);
    StepsEvolve(s, between, kr, allow);
    MovesKeepSysOk(before, moves, kr, allow);
  }

  lemma MovesKeepSysOk(s: Sys, moves: seq<RefMove>, kr: Keyring, allow: bool)
    requires SysOk(s, kr, allow)
    ensures
      SysOk(Sys(ApplyValueRefs(s.db, moves), s.drivers), kr, allow) && ApplyValueRefs(s.db, moves).next == s.db.next
  {
    NextKeepsSysOk(s, Transact(DoApplyValueRefs(moves)), kr, allow);
    ValueRefsOnlyMove(s.db, moves);
  }

  // ---------------------------------------------------------------- one page, and every page

  /** The moves a page's read makes, and the rows it cannot open. */
  function MovesRead(s: Sys, from: Id, kr: Keyring, fingerprint: (string, string) -> string): seq<RefMove> {
    PageMoves(s.db, from, PageEnd(s.db, from, RESEAL_PAGE), kr, !s.db.resealDone, fingerprint)
  }

  function UnreadableRead(s: Sys, from: Id, kr: Keyring): seq<Id> {
    Unreadable(s.db, from, PageEnd(s.db, from, RESEAL_PAGE), kr, !s.db.resealDone)
  }

  /** How far a page read in one table lets a later one be taken as rewritten. */
  function DoneUpTo(page: Db, after: Db, from: Id): Id {
    if IsLastPage(page, from) then after.next else PageEnd(page, from, RESEAL_PAGE)
  }

  /**
   * A page read, any other steps, and its apply: the rows up to its end that hold a value on a legacy ref were named;
   * and after a page that came back short so were those of the whole table.
   */
  lemma PageOfRewrite(
      s: Sys, between: seq<Step>, from: Id, kr: Keyring, allow: bool, fingerprint: (string, string) -> string,
      unreadable: seq<Id>, blocked: seq<Id>)
    requires SysOk(s, kr, allow) && from <= s.db.next && KeyedSteps(between) && Fingerprints(fingerprint)
    requires Reported(s.db, from, unreadable, blocked, ReaderOf(kr, allow))
    ensures
      var held, moves := Steps(s, between, kr), MovesRead(s, from, kr, fingerprint);
      var after := ApplyValueRefs(held.db, moves);
      Reported(
        after, DoneUpTo(s.db, after, from), unreadable + UnreadableRead(s, from, kr),
        blocked + MovesReport(held.db, moves).1, ReaderOf(kr, allow))
  {
    var upTo, read := PageEnd(s.db, from, RESEAL_PAGE), ReaderOf(kr, allow);
    var held, moves := Steps(s, between, kr), MovesRead(s, from, kr, fingerprint);
    RewriteGoesOn(s, between, moves, kr, allow);
    PolicyReadsAlike(s, kr, allow);
    PageIsReported(s.db, held.db, from, upTo, kr, !s.db.resealDone, fingerprint, read, unreadable, blocked);
    ShortPageIsTheLast(s.db, from, RESEAL_PAGE);
    NoLegacyRefIsNew(s.db, ApplyValueRefs(held.db, moves), read);
  }

  /** A rewrite under way: the system, its cursor, and what its pages have answered so far. */
  datatype Rewrite = Rewrite(
    s: Sys, cursor: Id, changed: nat, unreadable: seq<Id>, blocked: seq<Id>, isDone: bool)

  /** What one page reads, after the steps before it; and what it is applied to, after the steps between. */
  function PageRead(r: Rewrite, turn: Turn, kr: Keyring): Sys {
    Steps(r.s, turn.before, kr)
  }

  function PageHeld(r: Rewrite, turn: Turn, kr: Keyring): Sys {
    Steps(PageRead(r, turn, kr), turn.between, kr)
  }

  function OnePage(r: Rewrite, turn: Turn, kr: Keyring, fingerprint: (string, string) -> string): Rewrite {
    var page, held := PageRead(r, turn, kr), PageHeld(r, turn, kr);
    var moves := MovesRead(page, r.cursor, kr, fingerprint);
    var (changed, blocked) := MovesReport(held.db, moves);
    Rewrite(
      Sys(ApplyValueRefs(held.db, moves), held.drivers), PageEnd(page.db, r.cursor, RESEAL_PAGE),
      r.changed + changed, r.unreadable + UnreadableRead(page, r.cursor, kr), r.blocked + blocked,
      IsLastPage(page.db, r.cursor))
  }

  /** A rewrite from the first row, after one page for each turn. */
  function Pages(s: Sys, turns: seq<Turn>, kr: Keyring, fingerprint: (string, string) -> string): Rewrite {
    if turns == [] then Rewrite(s, 0, 0, [], [], false)
    else
      var n := |turns| - 1;
      OnePage(Pages(s, turns[..n], kr, fingerprint), turns[n], kr, fingerprint)
  }

  ghost predicate KeyedTurns(turns: seq<Turn>) {
    forall i :: 0 <= i < |turns| ==> KeyedSteps(turns[i].before) && KeyedSteps(turns[i].between)
  }

  /** The rows a rewrite has been over: the whole table's, once it is done. */
  function Over(r: Rewrite): Id {
    if r.isDone then r.s.db.next else r.cursor
  }

  ghost predicate RewriteOk(r: Rewrite, kr: Keyring, allow: bool) {
    && SysOk(r.s, kr, allow) && r.cursor <= r.s.db.next
    && Reported(r.s.db, Over(r), r.unreadable, r.blocked, ReaderOf(kr, allow))
  }

  lemma NextPage(s: Sys, turns: seq<Turn>, n: nat, kr: Keyring, fingerprint: (string, string) -> string)
    requires n < |turns|
    ensures
      Pages(s, turns[..n + 1], kr, fingerprint) ==
      OnePage(Pages(s, turns[..n], kr, fingerprint), turns[n], kr, fingerprint)
  {
    assert turns[..n + 1][..n] == turns[..n];
  }

  /** None of so many pages ended the rewrite. */
  ghost predicate Unfinished(s: Sys, turns: seq<Turn>, n: nat, kr: Keyring, fingerprint: (string, string) -> string) {
    forall k: nat | k < n && k <= |turns| :: !Pages(s, turns[..k], kr, fingerprint).isDone
  }

  lemma NextUnfinished(s: Sys, turns: seq<Turn>, n: nat, kr: Keyring, fingerprint: (string, string) -> string)
    requires n < |turns| && Unfinished(s, turns, n, kr, fingerprint) && !Pages(s, turns[..n], kr, fingerprint).isDone
    ensures Unfinished(s, turns, n + 1, kr, fingerprint)
  {
  }

  lemma OkIsWithin(r: Rewrite, kr: Keyring, allow: bool)
    requires RewriteOk(r, kr, allow)
    ensures r.cursor <= r.s.db.next
  {
  }

  lemma OnePageIsOk(r: Rewrite, turn: Turn, kr: Keyring, allow: bool, fingerprint: (string, string) -> string)
    requires RewriteOk(r, kr, allow) && !r.isDone
    requires KeyedSteps(turn.before) && KeyedSteps(turn.between) && Fingerprints(fingerprint)
    ensures
      var after := OnePage(r, turn, kr, fingerprint);
      RewriteOk(after, kr, allow) && (!after.isDone ==> r.cursor + RESEAL_PAGE <= after.cursor)
  {
    var page, read := PageRead(r, turn, kr), ReaderOf(kr, allow);
    StepsLegacy(r.s, turn.before, kr, allow);
    StepsEvolve(r.s, turn.before, kr, allow);
    ReportedEvolves(r.s.db, page.db, r.cursor, r.unreadable, r.blocked, read);
    RewriteGoesOn(page, turn.between, MovesRead(page, r.cursor, kr, fingerprint), kr, allow);
    PageOfRewrite(page, turn.between, r.cursor, kr, allow, fingerprint, r.unreadable, r.blocked);
    RowsAtMost(page.db, r.cursor, PageEnd(page.db, r.cursor, RESEAL_PAGE));
  }

  lemma BegunIsOk(s: Sys, kr: Keyring, allow: bool)
    requires SysOk(s, kr, allow)
    ensures RewriteOk(Rewrite(s, 0, 0, [], [], false), kr, allow)
  {
  }

  /**
   * The rewrite is complete: over every run of its pages and other keyed steps, each row it has been over that still
   * holds a value on a legacy ref is named blocked when the keyring opens it, and unreadable when it does not.
   */
  lemma {:induction false} RewriteIsComplete(
      s: Sys, turns: seq<Turn>, n: nat, kr: Keyring, allow: bool, fingerprint: (string, string) -> string)
    requires SysOk(s, kr, allow) && KeyedTurns(turns) && Fingerprints(fingerprint)
    requires n <= |turns| && Unfinished(s, turns, n, kr, fingerprint)
    ensures
      var r := Pages(s, turns[..n], kr, fingerprint);
      RewriteOk(r, kr, allow) && (!r.isDone ==> RESEAL_PAGE * n <= r.cursor)
  {
    hide RewriteOk, OnePage, SysOk;
    if n == 0 {
      BegunIsOk(s, kr, allow);
    } else {
      RewriteIsComplete(s, turns, n - 1, kr, allow, fingerprint);
      OnePageIsOk(Pages(s, turns[..n - 1], kr, fingerprint), turns[n - 1], kr, allow, fingerprint);
      NextPage(s, turns, n - 1, kr, fingerprint);
    }
  }

  /** And stays so through every later step: no row is on a legacy ref that the rewrite did not name. */
  lemma RewriteStaysComplete(r: Rewrite, later: seq<Step>, kr: Keyring, allow: bool)
    requires RewriteOk(r, kr, allow) && r.isDone && KeyedSteps(later)
    ensures
      var after := Steps(r.s, later, kr).db;
      Reported(after, after.next, r.unreadable, r.blocked, ReaderOf(kr, allow))
  {
    var after, read := Steps(r.s, later, kr).db, ReaderOf(kr, allow);
    StepsLegacy(r.s, later, kr, allow);
    StepsEvolve(r.s, later, kr, allow);
    ReportedEvolves(r.s.db, after, r.s.db.next, r.unreadable, r.blocked, read);
    NoLegacyRefIsNew(r.s.db, after, read);
  }

  // ---------------------------------------------------------------- where each named row was named

  /** The page could not open the row. */
  predicate UnreadBy(r: Rewrite, turn: Turn, kr: Keyring, id: Id) {
    id in UnreadableRead(PageRead(r, turn, kr), r.cursor, kr)
  }

  /** The page found another row at the row's value-keyed ref. */
  predicate BlockedBy(r: Rewrite, turn: Turn, kr: Keyring, fingerprint: (string, string) -> string, id: Id) {
    id in MovesReport(PageHeld(r, turn, kr).db, MovesRead(PageRead(r, turn, kr), r.cursor, kr, fingerprint)).1
  }

  lemma PageAddsNames(r: Rewrite, turn: Turn, kr: Keyring, fingerprint: (string, string) -> string, id: Id)
    ensures
      var after := OnePage(r, turn, kr, fingerprint);
      && (id in after.unreadable <==> id in r.unreadable || UnreadBy(r, turn, kr, id))
      && (id in after.blocked <==> id in r.blocked || BlockedBy(r, turn, kr, fingerprint, id))
  {
  }

  predicate UnreadOn(
      s: Sys, turns: seq<Turn>, k: nat, kr: Keyring, fingerprint: (string, string) -> string, id: Id) {
    k < |turns| && UnreadBy(Pages(s, turns[..k], kr, fingerprint), turns[k], kr, id)
  }

  predicate BlockedOn(
      s: Sys, turns: seq<Turn>, k: nat, kr: Keyring, fingerprint: (string, string) -> string, id: Id) {
    k < |turns| && BlockedBy(Pages(s, turns[..k], kr, fingerprint), turns[k], kr, fingerprint, id)
  }

  /** A row is named exactly when some page could not open it, or found it blocked. */
  lemma {:induction false} NamedExactly(
      s: Sys, turns: seq<Turn>, n: nat, kr: Keyring, fingerprint: (string, string) -> string, id: Id)
    requires n <= |turns|
    ensures
      var r := Pages(s, turns[..n], kr, fingerprint);
      && (id in r.unreadable <==> exists k: nat | k < n :: UnreadOn(s, turns, k, kr, fingerprint, id))
      && (id in r.blocked <==> exists k: nat | k < n :: BlockedOn(s, turns, k, kr, fingerprint, id))
  {
    hide UnreadBy, BlockedBy, OnePage;
    if n > 0 {
      NamedExactly(s, turns, n - 1, kr, fingerprint, id);
      NextPage(s, turns, n - 1, kr, fingerprint);
      PageAddsNames(Pages(s, turns[..n - 1], kr, fingerprint), turns[n - 1], kr, fingerprint, id);
      assert UnreadOn(s, turns, n - 1, kr, fingerprint, id) || !UnreadOn(s, turns, n - 1, kr, fingerprint, id);
      assert BlockedOn(s, turns, n - 1, kr, fingerprint, id) || !BlockedOn(s, turns, n - 1, kr, fingerprint, id);
    }
  }

  /** One page as steps: the others before it and between, and its moves where it applies them. */
  function PageSteps(r: Rewrite, turn: Turn, kr: Keyring, fingerprint: (string, string) -> string): seq<Step> {
    turn.before + turn.between
    + [Transact(DoApplyValueRefs(MovesRead(PageRead(r, turn, kr), r.cursor, kr, fingerprint)))]
  }

  /** A rewrite as one run of steps. */
  function RewriteSteps(
      s: Sys, turns: seq<Turn>, kr: Keyring, fingerprint: (string, string) -> string): seq<Step> {
    if turns == [] then []
    else
      var n := |turns| - 1;
      RewriteSteps(s, turns[..n], kr, fingerprint)
      + PageSteps(Pages(s, turns[..n], kr, fingerprint), turns[n], kr, fingerprint)
  }

  lemma PageIsARun(r: Rewrite, turn: Turn, kr: Keyring, fingerprint: (string, string) -> string)
    ensures OnePage(r, turn, kr, fingerprint).s == Steps(r.s, PageSteps(r, turn, kr, fingerprint), kr)
  {
    var moves := MovesRead(PageRead(r, turn, kr), r.cursor, kr, fingerprint);
    var others := turn.before + turn.between;
    StepsAppend(r.s, turn.before, turn.between, kr);
    assert (others + [Transact(DoApplyValueRefs(moves))])[..|others|] == others;
  }

  /** The table a rewrite leaves is the one that run leaves, so all that holds over every run holds of a rewrite. */
  lemma {:induction false} RewriteIsARun(
      s: Sys, turns: seq<Turn>, kr: Keyring, fingerprint: (string, string) -> string)
    ensures Pages(s, turns, kr, fingerprint).s == Steps(s, RewriteSteps(s, turns, kr, fingerprint), kr)
  {
    hide OnePage, PageSteps, Next;
    if turns != [] {
      var front, last := turns[..|turns| - 1], turns[|turns| - 1];
      var r := Pages(s, front, kr, fingerprint);
      RewriteIsARun(s, front, kr, fingerprint);
      PageIsARun(r, last, kr, fingerprint);
      StepsAppend(s, RewriteSteps(s, front, kr, fingerprint), PageSteps(r, last, kr, fingerprint), kr);
    }
  }
}
