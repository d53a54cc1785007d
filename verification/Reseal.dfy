/**
 * The page-by-page re-seal (convex/credentialCryptoActions.ts) run against every other transaction:
 * a page is read in one transaction and its re-sealed values are applied in another, and any number
 * of transactions and other re-seals stand between the two.
 */
module Reseal {
  import opened Prelude
  import opened Sealing
  import opened Credentials
  import opened CredentialInvariants

  const RESEAL_PAGE: nat := 50

  // ---------------------------------------------------------------- one page

  /** Where a read of `n` rows from `from` on stops. */
  function PageEnd(db: Db, from: Id, n: nat): (r: Id)
    ensures from <= r
    ensures from <= db.next ==> r <= db.next
    ensures n > 0 && from < db.next ==> from < r
    decreases db.next - from
  {
    if n == 0 || from >= db.next then from
    else PageEnd(db, from + 1, if from in db.rows then n - 1 else n)
  }

  /** How many rows stand in a range of ids. */
  function RowsIn(db: Db, from: Id, upTo: Id): nat
    decreases upTo - from
  {
    if from >= upTo then 0 else RowsIn(db, from, upTo - 1) + if upTo - 1 in db.rows then 1 else 0
  }

  /** A page that comes back short is the table's last. */
  predicate IsLastPage(db: Db, from: Id) {
    RowsIn(db, from, PageEnd(db, from, RESEAL_PAGE)) < RESEAL_PAGE
  }

  /** What the page loop pushes for one row: its value sealed again, unless it is current or cannot be opened. */
  function ItemsOf(id: Id, row: Row, iv: Iv, kr: Keyring, allowUnbound: bool): seq<Resealed> {
    if !HoldsValue(row) || row.keyId == Some(kr.current) || Value(row, kr, allowUnbound).None? then []
    else [Resealed(id, row.ciphertext.value, SealFor(Value(row, kr, allowUnbound).value, kr, row.userId, iv))]
  }

  function ResealItems(db: Db, from: Id, upTo: Id, ivs: Id -> Iv, kr: Keyring, allowUnbound: bool): seq<Resealed>
    decreases upTo - from
  {
    if from >= upTo then []
    else
      ResealItems(db, from, upTo - 1, ivs, kr, allowUnbound)
      + if upTo - 1 in db.rows then ItemsOf(upTo - 1, db.rows[upTo - 1], ivs(upTo - 1), kr, allowUnbound) else []
  }

  // ---------------------------------------------------------------- the system

  /** Where one re-seal action stands: before a page's read, or holding a page it has still to apply. */
  datatype Phase = Ready | Loaded(items: seq<Resealed>, upTo: Id, last: bool) | Finished

  /** `whole` says it began at the table's first row. */
  datatype Driver = Driver(cursor: Id, phase: Phase, whole: bool)

  datatype Sys = Sys(db: Db, drivers: seq<Driver>)

  datatype Step =
    | Transact(tx: Tx)
    | StartReseal(cursor: Id)
    | ReadPage(driver: nat, ivs: Id -> Iv)
    | ApplyPage(driver: nat)
    | CompleteMigration

  /**
   * What happens beside one page: other steps before its read, others between its read and its apply, and the clock
   * then.
   */
  datatype Turn = Turn(before: seq<Step>, between: seq<Step>, elapsedMs: int)

  function DriverAfterRead(db: Db, d: Driver, ivs: Id -> Iv, kr: Keyring): Driver {
    var upTo := PageEnd(db, d.cursor, RESEAL_PAGE);
    d.(phase := Loaded(ResealItems(db, d.cursor, upTo, ivs, kr, !db.resealDone), upTo, IsLastPage(db, d.cursor)))
  }

  function DriverAfterApply(d: Driver): Driver
    requires d.phase.Loaded?
  {
    Driver(d.phase.upTo, if d.phase.last then Finished else Ready, d.whole)
  }

  /** The migration's switch is set once a re-seal of the whole table reached its end. */
  predicate MayComplete(s: Sys) {
    exists d <- s.drivers :: d.whole && d.phase.Finished?
  }

  function Next(s: Sys, step: Step, kr: Keyring): Sys {
    match step
    case Transact(tx) => s.(db := ApplyTx(s.db, tx, kr))
    case StartReseal(cursor) =>
      if cursor <= s.db.next then s.(drivers := s.drivers + [Driver(cursor, Ready, cursor == 0)]) else s
    case ReadPage(i, ivs) =>
      if i < |s.drivers| && s.drivers[i].phase.Ready? then
        s.(drivers := s.drivers[i := DriverAfterRead(s.db, s.drivers[i], ivs, kr)])
      else s
    case ApplyPage(i) =>
      if i < |s.drivers| && s.drivers[i].phase.Loaded? then
        Sys(ApplyReseal(s.db, s.drivers[i].phase.items).0, s.drivers[i := DriverAfterApply(s.drivers[i])])
      else s
    case CompleteMigration => if MayComplete(s) then s.(db := s.db.(resealDone := true)) else s
  }

  function Steps(s: Sys, steps: seq<Step>, kr: Keyring): Sys {
    if steps == [] then s else Next(Steps(s, steps[..|steps| - 1], kr), steps[|steps| - 1], kr)
  }

  lemma {:induction false} StepsAppend(s: Sys, xs: seq<Step>, ys: seq<Step>, kr: Keyring)
    ensures Steps(s, xs + ys, kr) == Steps(Steps(s, xs, kr), ys, kr)
  {
    if ys == [] {
      assert xs + ys == xs;
    } else {
      StepsAppend(s, xs, ys[..|ys| - 1], kr);
      assert (xs + ys)[..|xs + ys| - 1] == xs + ys[..|ys| - 1];
    }
  }

  // ---------------------------------------------------------------- what a re-seal leaves behind it

  /** Sealed under the current key, bound to its owner, and named so. */
  predicate UnderCurrent(row: Row, kr: Keyring) {
    && HoldsValue(row)
    && row.keyId == Some(kr.current)
    && row.ciphertext.value.key == kr.current
    && row.ciphertext.value.binding == BindingOf(row.userId)
    && row.ciphertext.value.iv == row.iv.value
  }

  /** Under the current key, or one the keyring cannot open, or holding no value. */
  predicate Settled(row: Row, kr: Keyring, allow: bool) {
    HoldsValue(row) ==> UnderCurrent(row, kr) || Value(row, kr, allow).None?
  }

  lemma CurrentOpens(row: Row, kr: Keyring, allow: bool)
    requires UnderCurrent(row, kr)
    ensures Value(row, kr, allow) == Some(row.ciphertext.value.plaintext)
  {
    OpensExactly(row.ciphertext.value, row.iv.value, row.userId, row.keyId, kr, allow);
  }

  /** A row that opens where less is allowed opens to the same value where more is. */
  lemma ValueMonotone(row: Row, kr: Keyring, less: bool, more: bool)
    requires less ==> more
    ensures Value(row, kr, less).Some? ==> Value(row, kr, more) == Value(row, kr, less)
  {
    if HoldsValue(row) {
      OpensExactly(row.ciphertext.value, row.iv.value, row.userId, row.keyId, kr, less);
      OpensExactly(row.ciphertext.value, row.iv.value, row.userId, row.keyId, kr, more);
    }
  }

  predicate SameSeal(a: Row, b: Row) {
    a.ciphertext == b.ciphertext && a.iv == b.iv && a.keyId == b.keyId
  }

  predicate IsEmpty(row: Row) {
    row.ciphertext.None? && row.iv.None?
  }

  /** All one step does to a row's sealed value: leave it, delete it, or seal under the current key. */
  predicate SealEvolves(row: Row, after: Row, kr: Keyring) {
    && after.userId == row.userId
    && (|| SameSeal(row, after)
        || IsEmpty(after)
        || UnderCurrent(after, kr))
  }

  ghost predicate Evolves(db: Db, after: Db, kr: Keyring) {
    && db.next <= after.next
    && (forall i <- after.rows :: i < after.next)
    && (forall i <- after.rows ::
          if i in db.rows then SealEvolves(db.rows[i], after.rows[i], kr)
          else db.next <= i && (UnderCurrent(after.rows[i], kr) || IsEmpty(after.rows[i])))
  }

  lemma ChangeEvolves(row: Row, change: RowChange, kr: Keyring)
    ensures SealEvolves(row, Changed(row, change), kr)
  {
  }

  lemma PatchEvolves(db: Db, id: Id, row: Row, kr: Keyring)
    requires IdsGiven(db) && id in db.rows && SealEvolves(db.rows[id], row, kr)
    ensures Evolves(db, db.(rows := db.rows[id := row]), kr)
  {
  }

  lemma InsertEvolves(db: Db, row: Row, kr: Keyring)
    requires IdsGiven(db) && UnderCurrent(row, kr)
    ensures Evolves(db, db.(rows := db.rows[db.next := row], next := db.next + 1), kr)
  {
  }

  lemma PersistEvolves(db: Db, a: PersistArgs, plaintext: string, iv: Iv, now: Time, kr: Keyring)
    requires IdsGiven(db)
    ensures Evolves(db, ApplyTx(db, DoPersist(a, plaintext, iv, now), kr), kr)
  {
    var sealed := SealFor(plaintext, kr, a.userId, iv);
    var persisted := Persist(db, a, sealed, now);
    if persisted.Ok? {
      var id := persisted.value.1;
      if id in db.rows {
        PatchEvolves(db, id, Rotated(db.rows[id], a, sealed), kr);
      } else {
        InsertEvolves(db, NewRow(a, sealed, now), kr);
      }
    }
  }

  lemma MetadataEvolves(db: Db, id: Id, metadata: Metadata, syncRun: Option<RunId>, kr: Keyring)
    requires IdsGiven(db) && UpdateMetadata(db, id, metadata, syncRun).Ok?
    ensures Evolves(db, UpdateMetadata(db, id, metadata, syncRun).value, kr)
  {
    PatchEvolves(db, id, UpdateMetadata(db, id, metadata, syncRun).value.rows[id], kr);
  }

  lemma MoveEvolves(db: Db, a: MoveArgs, kr: Keyring)
    requires IdsGiven(db) && MoveToRef(db, a).Ok?
    ensures Evolves(db, MoveToRef(db, a).value.0, kr)
  {
    if MoveToRef(db, a).value.1 {
      PatchEvolves(db, a.id, MoveToRef(db, a).value.0.rows[a.id], kr);
    }
  }

  lemma ValueRefsEvolve(db: Db, moves: seq<RefMove>, kr: Keyring)
    requires IdsGiven(db)
    ensures Evolves(db, ApplyValueRefs(db, moves), kr)
  {
    ValueRefsOnlyMove(db, moves);
    forall i | i in db.rows
      ensures SealEvolves(db.rows[i], ApplyValueRefs(db, moves).rows[i], kr)
    {
      assert RefMovedAtMost(db.rows[i], ApplyValueRefs(db, moves).rows[i]);
    }
  }

  /** A transaction that writes no row, or takes one away. */
  lemma FewerRowsEvolve(db: Db, after: Db, kr: Keyring)
    requires IdsGiven(db) && after.next == db.next
    requires forall i <- after.rows :: i in db.rows && after.rows[i] == db.rows[i]
    ensures Evolves(db, after, kr)
  {
  }

  lemma TxEvolves(db: Db, tx: Tx, kr: Keyring)
    requires IdsGiven(db)
    ensures Evolves(db, ApplyTx(db, tx, kr), kr)
    ensures ApplyTx(db, tx, kr).resealDone == db.resealDone
  {
    match tx
    case DoPersist(a, plaintext, iv, now) => PersistEvolves(db, a, plaintext, iv, now, kr);
    case DoUpdateMetadata(id, metadata, syncRun) =>
      if UpdateMetadata(db, id, metadata, syncRun).Ok? {
        MetadataEvolves(db, id, metadata, syncRun, kr);
      } else {
        FewerRowsEvolve(db, db, kr);
      }
    case DoMoveToRef(a) => if MoveToRef(db, a).Ok? { MoveEvolves(db, a, kr); } else { FewerRowsEvolve(db, db, kr); }
    case DoApplyValueRefs(moves) =>
      ValueRefsOnlyMove(db, moves);
      ValueRefsEvolve(db, moves, kr);
    case DoChange(id, change) =>
      if id in db.rows {
        ChangeEvolves(db.rows[id], change, kr);
        PatchEvolves(db, id, Changed(db.rows[id], change), kr);
      }
    case _ => FewerRowsEvolve(db, ApplyTx(db, tx, kr), kr);
  }

  /** A pending re-seal: a fresh seal of what its row held when it was read, and holds while the ciphertext stands. */
  ghost predicate ItemOk(db: Db, r: Resealed, kr: Keyring, allow: bool) {
    && r.id < db.next
    && (r.id in db.rows ==>
          && r.sealed == SealFor(r.from.plaintext, kr, db.rows[r.id].userId, r.sealed.iv)
          && (db.rows[r.id].ciphertext == Some(r.from) ==> Value(db.rows[r.id], kr, allow) == Some(r.from.plaintext)))
  }

  ghost predicate Settles(db: Db, id: Id, items: seq<Resealed>, kr: Keyring, allow: bool)
    requires id in db.rows
  {
    || Settled(db.rows[id], kr, allow)
    || (exists r <- items :: r.id == id && db.rows[id].ciphertext == Some(r.from))
  }

  ghost predicate DriverOk(db: Db, d: Driver, kr: Keyring, allow: bool) {
    && d.cursor <= db.next
    && (d.phase.Loaded? ==>
          && d.cursor <= d.phase.upTo <= db.next
          && (forall r <- d.phase.items :: ItemOk(db, r, kr, allow)))
    && (d.whole ==>
          match d.phase
          case Ready => forall i <- db.rows | i < d.cursor :: Settled(db.rows[i], kr, allow)
          case Loaded(items, upTo, last) =>
            && (forall i <- db.rows | i < d.cursor :: Settled(db.rows[i], kr, allow))
            && (forall i <- db.rows | d.cursor <= i < upTo :: Settles(db, i, items, kr, allow))
            && (last ==> forall i <- db.rows | upTo <= i :: Settled(db.rows[i], kr, allow))
          case Finished => AllSettled(db, kr, allow))
  }

  ghost predicate AllSettled(db: Db, kr: Keyring, allow: bool) {
    forall i <- db.rows :: Settled(db.rows[i], kr, allow)
  }

  /**
   * `allow` is the policy the run began under. The switch may have been set during the run, but
   * then every row was settled first.
   */
  ghost predicate SysOk(s: Sys, kr: Keyring, allow: bool) {
    && IdsGiven(s.db)
    && (forall d <- s.drivers :: DriverOk(s.db, d, kr, allow))
    && (s.db.resealDone ==> allow ==> AllSettled(s.db, kr, allow))
    && (!allow ==> s.db.resealDone)
  }

  lemma SettledEvolves(row: Row, after: Row, kr: Keyring, allow: bool)
    requires Settled(row, kr, allow) && SealEvolves(row, after, kr)
    ensures Settled(after, kr, allow)
  {
  }

  lemma ItemEvolves(db: Db, after: Db, r: Resealed, kr: Keyring, allow: bool)
    requires IdsGiven(db) && Evolves(db, after, kr) && ItemOk(db, r, kr, allow)
    ensures ItemOk(after, r, kr, allow)
  {
    if r.id in after.rows && after.rows[r.id].ciphertext == Some(r.from) {
      assert SealEvolves(db.rows[r.id], after.rows[r.id], kr);
      if UnderCurrent(after.rows[r.id], kr) {
        CurrentOpens(after.rows[r.id], kr, allow);
      }
    }
  }

  lemma SettlesEvolves(db: Db, after: Db, id: Id, items: seq<Resealed>, kr: Keyring, allow: bool)
    requires Evolves(db, after, kr) && id in db.rows && id in after.rows
    requires Settles(db, id, items, kr, allow)
    ensures Settles(after, id, items, kr, allow)
  {
    assert SealEvolves(db.rows[id], after.rows[id], kr);
  }

  /** What a driver has settled stays settled through every step of anyone else's. */
  lemma DriverEvolves(db: Db, after: Db, d: Driver, kr: Keyring, allow: bool)
    requires IdsGiven(db) && Evolves(db, after, kr) && DriverOk(db, d, kr, allow)
    ensures DriverOk(after, d, kr, allow)
  {
    forall i | i in after.rows && i in db.rows && Settled(db.rows[i], kr, allow)
      ensures Settled(after.rows[i], kr, allow)
    {
      SettledEvolves(db.rows[i], after.rows[i], kr, allow);
    }
    if d.phase.Loaded? {
      forall r | r in d.phase.items ensures ItemOk(after, r, kr, allow) { ItemEvolves(db, after, r, kr, allow); }
      if d.whole {
        forall i | i in after.rows && d.cursor <= i < d.phase.upTo
          ensures Settles(after, i, d.phase.items, kr, allow)
        {
          SettlesEvolves(db, after, i, d.phase.items, kr, allow);
        }
      }
    }
  }

  // ---------------------------------------------------------------- every step keeps it

  lemma ItemOfRead(db: Db, id: Id, iv: Iv, kr: Keyring, allow: bool)
    requires IdsGiven(db) && id in db.rows
    requires db.resealDone ==> allow ==> AllSettled(db, kr, allow)
    requires !allow ==> db.resealDone
    ensures forall r <- ItemsOf(id, db.rows[id], iv, kr, !db.resealDone) :: ItemOk(db, r, kr, allow) && r.id == id
    ensures
      || Settled(db.rows[id], kr, allow)
      || exists r <- ItemsOf(id, db.rows[id], iv, kr, !db.resealDone) ::
          r.id == id && db.rows[id].ciphertext == Some(r.from)
  {
    var row := db.rows[id];
    if HoldsValue(row) {
      OpensExactly(row.ciphertext.value, row.iv.value, row.userId, row.keyId, kr, !db.resealDone);
      OpensExactly(row.ciphertext.value, row.iv.value, row.userId, row.keyId, kr, allow);
      var items := ItemsOf(id, row, iv, kr, !db.resealDone);
      if items != [] { assert items[0] in items; }
    }
  }

  lemma {:induction false} ItemsOfReadOk(db: Db, from: Id, upTo: Id, ivs: Id -> Iv, kr: Keyring, allow: bool)
    requires IdsGiven(db) && from <= upTo
    requires db.resealDone ==> allow ==> AllSettled(db, kr, allow)
    requires !allow ==> db.resealDone
    ensures forall r <- ResealItems(db, from, upTo, ivs, kr, !db.resealDone) :: ItemOk(db, r, kr, allow)
    decreases upTo - from
  {
    if from < upTo {
      ItemsOfReadOk(db, from, upTo - 1, ivs, kr, allow);
      if upTo - 1 in db.rows {
        ItemOfRead(db, upTo - 1, ivs(upTo - 1), kr, allow);
      }
    }
  }

  lemma {:induction false} ItemsOfReadSettle(
      db: Db, from: Id, upTo: Id, ivs: Id -> Iv, kr: Keyring, allow: bool, id: Id)
    requires IdsGiven(db) && from <= id < upTo && id in db.rows
    requires db.resealDone ==> allow ==> AllSettled(db, kr, allow)
    requires !allow ==> db.resealDone
    ensures Settles(db, id, ResealItems(db, from, upTo, ivs, kr, !db.resealDone), kr, allow)
    decreases upTo
  {
    if id == upTo - 1 {
      ItemOfRead(db, id, ivs(id), kr, allow);
    } else {
      ItemsOfReadSettle(db, from, upTo - 1, ivs, kr, allow, id);
    }
  }

  lemma ReadKeepsDriver(db: Db, d: Driver, ivs: Id -> Iv, kr: Keyring, allow: bool)
    requires IdsGiven(db) && DriverOk(db, d, kr, allow) && d.phase.Ready?
    requires db.resealDone ==> allow ==> AllSettled(db, kr, allow)
    requires !allow ==> db.resealDone
    ensures DriverOk(db, DriverAfterRead(db, d, ivs, kr), kr, allow)
  {
    var upTo := PageEnd(db, d.cursor, RESEAL_PAGE);
    ItemsOfReadOk(db, d.cursor, upTo, ivs, kr, allow);
    forall i | i in db.rows && d.cursor <= i < upTo
      ensures Settles(db, i, DriverAfterRead(db, d, ivs, kr).phase.items, kr, allow)
    {
      ItemsOfReadSettle(db, d.cursor, upTo, ivs, kr, allow, i);
    }
    ShortPageIsTheLast(db, d.cursor, RESEAL_PAGE);
  }

  /** A page that holds fewer rows than it may ends at the end of the table. */
  lemma {:induction false} ShortPageIsTheLast(db: Db, from: Id, n: nat)
    requires from <= db.next
    ensures RowsIn(db, from, PageEnd(db, from, n)) < n ==> PageEnd(db, from, n) == db.next
    ensures RowsIn(db, from, PageEnd(db, from, n)) <= n
    decreases db.next - from
  {
    if n > 0 && from < db.next {
      var left := if from in db.rows then n - 1 else n;
      ShortPageIsTheLast(db, from + 1, left);
      RowsFromTheFront(db, from, PageEnd(db, from, n));
    }
  }

  lemma {:induction false} RowsAtMost(db: Db, from: Id, upTo: Id)
    requires from <= upTo
    ensures RowsIn(db, from, upTo) <= upTo - from
    decreases upTo
  {
    if from < upTo {
      RowsAtMost(db, from, upTo - 1);
    }
  }

  lemma {:induction false} RowsFromTheFront(db: Db, from: Id, upTo: Id)
    requires from < upTo
    ensures RowsIn(db, from, upTo) == (if from in db.rows then 1 else 0) + RowsIn(db, from + 1, upTo)
    decreases upTo - from
  {
    if from + 1 < upTo {
      RowsFromTheFront(db, from, upTo - 1);
    }
  }

  lemma OneResealEvolves(db: Db, r: Resealed, kr: Keyring, allow: bool)
    requires IdsGiven(db) && ItemOk(db, r, kr, allow)
    ensures Evolves(db, ApplyOneReseal(db, r), kr)
    ensures ApplyOneReseal(db, r).rows.Keys == db.rows.Keys && ApplyOneReseal(db, r).next == db.next
    ensures forall i <- db.rows :: Value(ApplyOneReseal(db, r).rows[i], kr, allow) == Value(db.rows[i], kr, allow)
    ensures
      r.id in db.rows && db.rows[r.id].ciphertext == Some(r.from) ==> UnderCurrent(ApplyOneReseal(db, r).rows[r.id], kr)
  {
    if StillHolds(db, r) {
      CurrentOpens(ApplyOneReseal(db, r).rows[r.id], kr, allow);
    }
  }

  lemma EvolvesTransitive(a: Db, b: Db, c: Db, kr: Keyring)
    requires IdsGiven(a) && Evolves(a, b, kr) && Evolves(b, c, kr)
    ensures Evolves(a, c, kr)
  {
    forall i | i in c.rows && i in a.rows
      ensures SealEvolves(a.rows[i], c.rows[i], kr)
    {
      assert SealEvolves(a.rows[i], b.rows[i], kr) && SealEvolves(b.rows[i], c.rows[i], kr);
    }
    forall i | i in c.rows && i !in a.rows
      ensures a.next <= i && (UnderCurrent(c.rows[i], kr) || IsEmpty(c.rows[i]))
    {
      if i in b.rows { assert SealEvolves(b.rows[i], c.rows[i], kr); }
    }
  }

  /** Two rows equal in everything but their sealed values. */
  predicate SameRecord(a: Row, b: Row) {
    && a.userId == b.userId && a.organisation == b.organisation && a.metadata == b.metadata
    && a.source == b.source && a.issuedBy == b.issuedBy && a.createdAt == b.createdAt
    && a.lastUsedAt == b.lastUsedAt && a.status == b.status && a.statusReason == b.statusReason
    && a.supersededAt == b.supersededAt && a.revokedAt == b.revokedAt
    && a.sourceRevocation == b.sourceRevocation && a.refreshCredentialId == b.refreshCredentialId
  }

  /** How a reader opens what a row holds: by the row's owner, ciphertext, IV and key id. */
  type Reader = (string, Cipher, Iv, Option<Key>) -> Option<string>

  function ReaderOf(kr: Keyring, allow: bool): Reader {
    (userId: string, c: Cipher, iv: Iv, keyId: Option<Key>) => OpenOwned(c, iv, userId, keyId, kr, allow)
  }

  function ReadBy(row: Row, read: Reader): Option<string> {
    if HoldsValue(row) then read(row.userId, row.ciphertext.value, row.iv.value, row.keyId) else None
  }

  /** Two rows a reader cannot tell apart: equal but for their ciphertexts, which open alike. */
  predicate AlikeRow(a: Row, b: Row, read: Reader) {
    && SameRecord(a, b)
    && (a.ciphertext.Some? <==> b.ciphertext.Some?)
    && (a.iv.Some? <==> b.iv.Some?)
    && ReadBy(a, read) == ReadBy(b, read)
  }

  ghost predicate Alike(a: Db, b: Db, read: Reader) {
    && a.next == b.next && a.sources == b.sources && a.runs == b.runs
    && a.rows.Keys == b.rows.Keys
    && (forall i <- a.rows :: AlikeRow(a.rows[i], b.rows[i], read))
  }

  lemma OneResealAlike(db: Db, r: Resealed, kr: Keyring, allow: bool)
    requires IdsGiven(db) && ItemOk(db, r, kr, allow)
    ensures Alike(db, ApplyOneReseal(db, r), ReaderOf(kr, allow))
    ensures Evolves(db, ApplyOneReseal(db, r), kr)
  {
    OneResealEvolves(db, r, kr, allow);
    forall i | i in db.rows
      ensures AlikeRow(db.rows[i], ApplyOneReseal(db, r).rows[i], ReaderOf(kr, allow))
    {
      assert Value(ApplyOneReseal(db, r).rows[i], kr, allow) == Value(db.rows[i], kr, allow);
    }
  }

  lemma AlikeTransitive(a: Db, b: Db, c: Db, read: Reader)
    requires Alike(a, b, read) && Alike(b, c, read)
    ensures Alike(a, c, read)
  {
    forall i | i in a.rows
      ensures AlikeRow(a.rows[i], c.rows[i], read)
    {
      assert AlikeRow(a.rows[i], b.rows[i], read) && AlikeRow(b.rows[i], c.rows[i], read);
    }
  }

  /** Applying a page changes no value a reader sees, and leaves the policy and the table's ids alone. */
  lemma {:induction false} ApplyIsInvisible(db: Db, items: seq<Resealed>, kr: Keyring, allow: bool)
    requires IdsGiven(db) && forall r <- items :: ItemOk(db, r, kr, allow)
    ensures Alike(db, ApplyReseal(db, items).0, ReaderOf(kr, allow))
    ensures Evolves(db, ApplyReseal(db, items).0, kr)
    ensures ApplyReseal(db, items).0.resealDone == db.resealDone
  {
    if items != [] {
      var last := items[|items| - 1];
      var before := ApplyReseal(db, items[..|items| - 1]).0;
      ApplyIsInvisible(db, items[..|items| - 1], kr, allow);
      ItemEvolves(db, before, last, kr, allow);
      OneResealAlike(before, last, kr, allow);
      AlikeTransitive(db, before, ApplyOneReseal(before, last), ReaderOf(kr, allow));
      EvolvesTransitive(db, before, ApplyOneReseal(before, last), kr);
    }
  }

  /** A row still holding what its pending item was opened from is settled by the page that applies it. */
  lemma {:induction false} ApplySettles(db: Db, items: seq<Resealed>, kr: Keyring, allow: bool, r: Resealed)
    requires IdsGiven(db) && forall r <- items :: ItemOk(db, r, kr, allow)
    requires r in items && r.id in db.rows && db.rows[r.id].ciphertext == Some(r.from)
    ensures r.id in ApplyReseal(db, items).0.rows && Settled(ApplyReseal(db, items).0.rows[r.id], kr, allow)
  {
    hide Settled, Alike, ItemOk;
    var front, last := items[..|items| - 1], items[|items| - 1];
    var before := ApplyReseal(db, front).0;
    assert items == front + [last];
    ApplyIsInvisible(db, front, kr, allow);
    ItemEvolves(db, before, last, kr, allow);
    OneResealEvolves(before, last, kr, allow);
    if r in front {
      ApplySettles(db, front, kr, allow, r);
      SettledEvolves(before.rows[r.id], ApplyOneReseal(before, last).rows[r.id], kr, allow);
    } else {
      LastSettles(db, before, r, kr, allow);
    }
  }

  /** An item applied where its row's ciphertext stands settles it; and where it does not, a newer one does. */
  lemma LastSettles(db: Db, before: Db, r: Resealed, kr: Keyring, allow: bool)
    requires IdsGiven(db) && Evolves(db, before, kr) && r.id in db.rows && db.rows[r.id].ciphertext == Some(r.from)
    requires IdsGiven(before) && ItemOk(before, r, kr, allow) && r.id in before.rows
    ensures Settled(ApplyOneReseal(before, r).rows[r.id], kr, allow)
  {
    OneResealEvolves(before, r, kr, allow);
    assert SealEvolves(db.rows[r.id], before.rows[r.id], kr);
  }

  lemma ApplyKeepsDriver(db: Db, d: Driver, kr: Keyring, allow: bool)
    requires IdsGiven(db) && DriverOk(db, d, kr, allow) && d.phase.Loaded?
    ensures DriverOk(ApplyReseal(db, d.phase.items).0, DriverAfterApply(d), kr, allow)
  {
    var items := d.phase.items;
    var after := ApplyReseal(db, items).0;
    ApplyIsInvisible(db, items, kr, allow);
    DriverEvolves(db, after, d, kr, allow);
    if d.whole {
      forall i | i in after.rows && d.cursor <= i < d.phase.upTo
        ensures Settled(after.rows[i], kr, allow)
      {
        if Settled(db.rows[i], kr, allow) {
          SettledEvolves(db.rows[i], after.rows[i], kr, allow);
        } else {
          var r :| r in items && r.id == i && db.rows[i].ciphertext == Some(r.from);
          ApplySettles(db, items, kr, allow, r);
        }
      }
    }
  }

  lemma EvolvedSysOk(s: Sys, after: Db, kr: Keyring, allow: bool)
    requires SysOk(s, kr, allow) && Evolves(s.db, after, kr) && after.resealDone == s.db.resealDone
    ensures SysOk(Sys(after, s.drivers), kr, allow)
  {
    forall d | d in s.drivers ensures DriverOk(after, d, kr, allow) { DriverEvolves(s.db, after, d, kr, allow); }
    if allow && after.resealDone {
      forall i | i in after.rows ensures Settled(after.rows[i], kr, allow) {
        if i in s.db.rows { SettledEvolves(s.db.rows[i], after.rows[i], kr, allow); }
      }
    }
  }

  lemma NextKeepsSysOk(s: Sys, step: Step, kr: Keyring, allow: bool)
    requires SysOk(s, kr, allow)
    ensures SysOk(Next(s, step, kr), kr, allow)
  {
    match step
    case Transact(tx) =>
      TxEvolves(s.db, tx, kr);
      EvolvedSysOk(s, ApplyTx(s.db, tx, kr), kr, allow);
    case StartReseal(cursor) =>
    case ReadPage(i, ivs) =>
      if i < |s.drivers| && s.drivers[i].phase.Ready? {
        assert s.drivers[i] in s.drivers;
        ReadKeepsDriver(s.db, s.drivers[i], ivs, kr, allow);
      }
    case ApplyPage(i) =>
      if i < |s.drivers| && s.drivers[i].phase.Loaded? {
        assert s.drivers[i] in s.drivers;
        ApplyIsInvisible(s.db, s.drivers[i].phase.items, kr, allow);
        EvolvedSysOk(s, ApplyReseal(s.db, s.drivers[i].phase.items).0, kr, allow);
        ApplyKeepsDriver(s.db, s.drivers[i], kr, allow);
      }
    case CompleteMigration =>
      if MayComplete(s) {
        forall d | d in s.drivers ensures DriverOk(Next(s, step, kr).db, d, kr, allow) {
          assert Evolves(s.db, Next(s, step, kr).db, kr);
          DriverEvolves(s.db, Next(s, step, kr).db, d, kr, allow);
        }
      }
  }

  lemma {:induction false} StepsKeepSysOk(s: Sys, steps: seq<Step>, kr: Keyring, allow: bool)
    requires SysOk(s, kr, allow)
    ensures SysOk(Steps(s, steps, kr), kr, allow)
  {
    if steps != [] {
      StepsKeepSysOk(s, steps[..|steps| - 1], kr, allow);
      NextKeepsSysOk(Steps(s, steps[..|steps| - 1], kr), steps[|steps| - 1], kr, allow);
    }
  }

  lemma NextEvolves(s: Sys, step: Step, kr: Keyring, allow: bool)
    requires SysOk(s, kr, allow)
    ensures Evolves(s.db, Next(s, step, kr).db, kr)
  {
    match step
    case Transact(tx) => TxEvolves(s.db, tx, kr);
    case ApplyPage(i) =>
      if i < |s.drivers| && s.drivers[i].phase.Loaded? {
        assert s.drivers[i] in s.drivers;
        ApplyIsInvisible(s.db, s.drivers[i].phase.items, kr, allow);
      }
    case _ =>
  }

  lemma {:induction false} StepsEvolve(s: Sys, steps: seq<Step>, kr: Keyring, allow: bool)
    requires SysOk(s, kr, allow)
    ensures Evolves(s.db, Steps(s, steps, kr).db, kr)
  {
    if steps != [] {
      var before := Steps(s, steps[..|steps| - 1], kr);
      StepsEvolve(s, steps[..|steps| - 1], kr, allow);
      StepsKeepSysOk(s, steps[..|steps| - 1], kr, allow);
      NextEvolves(before, steps[|steps| - 1], kr, allow);
      EvolvesTransitive(s.db, before.db, Steps(s, steps, kr).db, kr);
    }
  }
}
