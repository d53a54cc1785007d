/** The `store` action run with nothing between its reads and its write, and why no known value gets a second row. */
module StoreAction {
  import opened Prelude
  import opened Sealing
  import opened Credentials
  import opened CredentialInvariants
  import opened CredentialWrites
  import opened CredentialRef

  const PAGE_ROW_LIMIT: nat := 512

  datatype StoreArgs = StoreArgs(
    userId: string, organisation: bool, metadata: Metadata, plaintext: string,
    source: Source, issuedBy: Option<Issuer>, syncRun: Option<RunId>)

  /** A row whose ref has the given page part, value-keyed or not. */
  predicate OnPage(row: Row, userId: string, sourceId: SourceId, pageRef: string) {
    row.userId == userId && row.source.Page? && row.source.sourceId == sourceId && PageRef(row.source.ref) == pageRef
  }

  /** A row the two index ranges of a page read return. */
  predicate IsRead(row: Row, userId: string, sourceId: SourceId, pageRef: string) {
    row.userId == userId && row.source.Page? && row.source.sourceId == sourceId && ReadForPage(row.source.ref, pageRef)
  }

  /** The rows a page read returns, in table order. */
  function ReadRows(db: Db, userId: string, sourceId: SourceId, pageRef: string, upTo: Id): (r: seq<Id>)
    ensures forall id :: id in r <==> id < upTo && id in db.rows && IsRead(db.rows[id], userId, sourceId, pageRef)
    ensures |r| <= upTo && forall i :: 0 <= i < |r| ==> r[i] < upTo
    ensures forall i, j :: 0 <= i < j < |r| ==> r[i] < r[j]
  {
    if upTo == 0 then []
    else
      ReadRows(db, userId, sourceId, pageRef, upTo - 1)
      + if upTo - 1 in db.rows && IsRead(db.rows[upTo - 1], userId, sourceId, pageRef) then [upTo - 1] else []
  }

  function PageRows(db: Db, userId: string, sourceId: SourceId, pageRef: string): Result<seq<Id>, Error> {
    var rows := ReadRows(db, userId, sourceId, pageRef, db.next);
    if |rows| > PAGE_ROW_LIMIT then Err(PageTooLarge) else Ok(rows)
  }

  function StoredValue(db: Db, id: Id, kr: Keyring): Option<string>
    requires id in db.rows
  {
    Value(db.rows[id], kr, !db.resealDone)
  }

  predicate AllOfPage(db: Db, rows: seq<Id>, a: StoreArgs) {
    && a.source.Page?
    && forall i :: 0 <= i < |rows| ==>
         rows[i] in db.rows && IsRead(db.rows[rows[i]], a.userId, a.source.sourceId, PageRef(a.source.ref))
  }

  /** The move of the first row of a page that holds the value and can still be moved. */
  function MoveHolder(db: Db, rows: seq<Id>, a: StoreArgs, kr: Keyring): Result<Option<(Db, Id)>, Error>
    requires AllOfPage(db, rows, a)
  {
    if rows == [] then Ok(None)
    else if StoredValue(db, rows[0], kr) != Some(a.plaintext) then MoveHolder(db, rows[1..], a, kr)
    else
      var moved := MoveToRef(db, MoveArgs(
        rows[0], a.userId, db.rows[rows[0]].source.ref, a.source.sourceId, a.source.ref, a.metadata, a.syncRun));
      if moved.Err? then Err(moved.error)
      else if moved.value.1 then Ok(Some((moved.value.0, rows[0])))
      else MoveHolder(db, rows[1..], a, kr)
  }

  function SealAndPersist(
      db: Db, a: StoreArgs, rotated: bool, kr: Keyring, iv: Iv, now: Time): Result<(Db, Id), Error> {
    Persist(
      db, PersistArgs(a.userId, a.organisation, a.metadata, a.source, a.issuedBy, rotated, a.syncRun),
      SealFor(a.plaintext, kr, a.userId, iv), now)
  }

  function StoreRefusal(db: Db, a: StoreArgs): Option<Error> {
    var holder := HolderRefusal(a.userId, a.organisation, a.source);
    var issued := IssuedRefusal(a.issuedBy, a.source);
    if holder.Some? then holder
    else if issued.Some? then issued
    else if a.plaintext == "" && !a.metadata.kind.LocationKind? then Some(PlaintextRequired)
    else if a.source.Page? && !LinkedTo(db, a.source.sourceId, a.userId) then Some(NotTheOwnersSource)
    else None
  }

  function Store(db: Db, a: StoreArgs, kr: Keyring, iv: Iv, now: Time): Result<(Db, Id), Error> {
    var refusal := StoreRefusal(db, a);
    if refusal.Some? then Err(refusal.value)
    else if !a.source.Page? then SealAndPersist(db, a, false, kr, iv, now)
    else
      var existing := UniqueAt(db, a.userId, a.source.sourceId, a.source.ref);
      if existing.Err? then Err(existing.error)
      else if existing.value.Some? && StoredValue(db, existing.value.value, kr) == Some(a.plaintext) then
        var updated := UpdateMetadata(db, existing.value.value, a.metadata, a.syncRun);
        if updated.Err? then Err(updated.error) else Ok((updated.value, existing.value.value))
      else if existing.value.Some? || a.plaintext == "" then
        SealAndPersist(db, a, existing.value.Some?, kr, iv, now)
      else
        var rows := PageRows(db, a.userId, a.source.sourceId, PageRef(a.source.ref));
        if rows.Err? then Err(rows.error)
        else
          var moved := MoveHolder(db, rows.value, a, kr);
          if moved.Err? then Err(moved.error)
          else if moved.value.Some? then Ok(moved.value.value)
          else SealAndPersist(db, a, false, kr, iv, now)
  }

  // ---------------------------------------------------------------- no known value mints a second row

  /** Every page ref's suffix starts below the end of the index range, as a fingerprint and a position do. */
  ghost predicate PlainRefs(db: Db) {
    forall id <- db.rows | db.rows[id].source.Page? :: PlainSuffix(db.rows[id].source.ref)
  }

  ghost predicate KnownOnPage(db: Db, a: StoreArgs, kr: Keyring)
    requires a.source.Page?
  {
    exists id <- db.rows ::
      && OnPage(db.rows[id], a.userId, a.source.sourceId, PageRef(a.source.ref))
      && StoredValue(db, id, kr) == Some(a.plaintext)
  }

  lemma {:induction false} MoveHolderFinds(db: Db, rows: seq<Id>, a: StoreArgs, kr: Keyring)
    requires AllOfPage(db, rows, a)
    requires FirstAt(db, a.userId, a.source.sourceId, a.source.ref, 0).None?
    requires MoveHolder(db, rows, a, kr).Ok?
    ensures
      var moved := MoveHolder(db, rows, a, kr).value;
      && (moved.Some? <==> exists id <- rows :: StoredValue(db, id, kr) == Some(a.plaintext))
      && (moved.Some? ==>
            var id := moved.value.1;
            && id in rows && id in db.rows && StoredValue(db, id, kr) == Some(a.plaintext)
            && id in moved.value.0.rows
            && moved.value.0 == db.(rows := db.rows[id := db.rows[id].(
                 source := a.source, metadata := a.metadata,
                 status := None, supersededAt := None, statusReason := None)]))
  {
    if rows != [] {
      assert rows == [rows[0]] + rows[1..];
      if StoredValue(db, rows[0], kr) != Some(a.plaintext) {
        MoveHolderFinds(db, rows[1..], a, kr);
      } else {
        assert StandsAt(db.rows[rows[0]], a.userId, a.source.sourceId, db.rows[rows[0]].source.ref);
      }
    }
  }

  lemma PageRowsAreThePage(db: Db, a: StoreArgs)
    requires a.source.Page? && PlainRefs(db) && IdsGiven(db)
    ensures forall id ::
      id in ReadRows(db, a.userId, a.source.sourceId, PageRef(a.source.ref), db.next)
      <==> id in db.rows && OnPage(db.rows[id], a.userId, a.source.sourceId, PageRef(a.source.ref))
  {
    forall id | id in db.rows && db.rows[id].source.Page?
      ensures
        ReadForPage(db.rows[id].source.ref, PageRef(a.source.ref)) <==>
        PageRef(db.rows[id].source.ref) == PageRef(a.source.ref)
    {
      PageReadIsThePage(db.rows[id].source.ref, PageRef(a.source.ref));
    }
  }

  /** What a store leaves: the value on one row, as it was given, and nothing else changed. */
  ghost predicate StoredOn(db: Db, after: Db, id: Id, a: StoreArgs, kr: Keyring) {
    && id in after.rows && after.rows.Keys == db.rows.Keys + {id}
    && (forall other <- db.rows | other != id :: after.rows[other] == db.rows[other])
    && after == db.(rows := after.rows, next := if id in db.rows then db.next else db.next + 1)
    && GivenAs(after.rows[id], a)
    && StoredValue(after, id, kr) == Some(a.plaintext)
  }

  /** A row with all it was given to be stored with, out of use for nothing but a person's revoke. */
  predicate GivenAs(row: Row, a: StoreArgs) {
    && row.userId == a.userId && row.organisation == a.organisation && row.source == a.source
    && row.metadata == a.metadata && row.issuedBy == a.issuedBy
    && row.status.None? && row.supersededAt.None?
  }

  /** The row a value is stored on: fresh, or with its history, and its usage unless it held another value. */
  ghost predicate GoesOnAs(db: Db, after: Db, id: Id, a: StoreArgs, now: Time, kr: Keyring)
    requires id in after.rows
  {
    if id !in db.rows then IsFresh(after.rows[id], now)
    else
      && KeepsHistory(db.rows[id], after.rows[id])
      && after.rows[id].lastUsedAt ==
           (if StoredValue(db, id, kr) == Some(a.plaintext) then db.rows[id].lastUsedAt else None)
  }

  /** The row stood at the page ref of a store. */
  predicate AtTheRef(db: Db, id: Id, a: StoreArgs)
    requires id in db.rows
  {
    a.source.Page? && StandsAt(db.rows[id], a.userId, a.source.sourceId, a.source.ref)
  }

  lemma SealAndPersistStores(db: Db, a: StoreArgs, rotated: bool, kr: Keyring, iv: Iv, now: Time)
    requires Inv(db) && SealAndPersist(db, a, rotated, kr, iv, now).Ok?
    ensures
      var (after, id) := SealAndPersist(db, a, rotated, kr, iv, now).value;
      && StoredOn(db, after, id, a, kr)
      && (id !in db.rows ==> IsFresh(after.rows[id], now) && forall other <- db.rows :: !AtTheRef(db, other, a))
      && (id in db.rows ==>
            && AtTheRef(db, id, a) && KeepsHistory(db.rows[id], after.rows[id])
            && after.rows[id].lastUsedAt == if rotated then None else db.rows[id].lastUsedAt)
  {
    var p := PersistArgs(a.userId, a.organisation, a.metadata, a.source, a.issuedBy, rotated, a.syncRun);
    PersistReadsBack(db, p, a.plaintext, kr, iv, now, !db.resealDone);
    if a.source.Page? {
      UniqueReadNeverFails(db, a.userId, a.source.sourceId, a.source.ref);
    }
  }

  /** The row stood at the value's ref, or held the value on the same page. */
  predicate WasHolder(db: Db, id: Id, a: StoreArgs, kr: Keyring)
    requires id in db.rows && a.source.Page?
  {
    || StandsAt(db.rows[id], a.userId, a.source.sourceId, a.source.ref)
    || (&& OnPage(db.rows[id], a.userId, a.source.sourceId, PageRef(a.source.ref))
        && StoredValue(db, id, kr) == Some(a.plaintext))
  }

  lemma StoreAtAStandingRef(db: Db, a: StoreArgs, kr: Keyring, iv: Iv, now: Time, standing: Id)
    requires Inv(db) && a.source.Page? && Store(db, a, kr, iv, now).Ok?
    requires UniqueAt(db, a.userId, a.source.sourceId, a.source.ref) == Ok(Some(standing))
    ensures
      var (after, id) := Store(db, a, kr, iv, now).value;
      && StoredOn(db, after, id, a, kr) && id == standing && GoesOnAs(db, after, id, a, now, kr)
      && StandsAt(db.rows[standing], a.userId, a.source.sourceId, a.source.ref)
  {
    if StoredValue(db, standing, kr) == Some(a.plaintext) {
      MetadataExactly(db, standing, a.metadata, a.syncRun, kr, !db.resealDone);
    } else {
      SealAndPersistStores(db, a, true, kr, iv, now);
    }
  }

  lemma StoreAtANewRef(db: Db, a: StoreArgs, kr: Keyring, iv: Iv, now: Time)
    requires Inv(db) && PlainRefs(db) && a.source.Page? && Store(db, a, kr, iv, now).Ok?
    requires UniqueAt(db, a.userId, a.source.sourceId, a.source.ref) == Ok(None)
    requires FirstAt(db, a.userId, a.source.sourceId, a.source.ref, 0).None?
    ensures
      var (after, id) := Store(db, a, kr, iv, now).value;
      && StoredOn(db, after, id, a, kr) && GoesOnAs(db, after, id, a, now, kr)
      && (id !in db.rows <==> a.plaintext == "" || !KnownOnPage(db, a, kr))
      && (id in db.rows ==> WasHolder(db, id, a, kr))
  {
    if a.plaintext == "" {
      SealAndPersistStores(db, a, false, kr, iv, now);
    } else {
      PageRowsAreThePage(db, a);
      var rows := PageRows(db, a.userId, a.source.sourceId, PageRef(a.source.ref)).value;
      MoveHolderFinds(db, rows, a, kr);
      if MoveHolder(db, rows, a, kr).value.None? {
        SealAndPersistStores(db, a, false, kr, iv, now);
      } else {
        MovedHolderStores(db, rows, a, kr, now);
      }
    }
  }

  lemma MovedHolderStores(db: Db, rows: seq<Id>, a: StoreArgs, kr: Keyring, now: Time)
    requires Inv(db) && AllOfPage(db, rows, a) && a.issuedBy.None?
    requires IsOrganisationOwnerKey(a.userId) == a.organisation
    requires FirstAt(db, a.userId, a.source.sourceId, a.source.ref, 0).None?
    requires MoveHolder(db, rows, a, kr).Ok? && MoveHolder(db, rows, a, kr).value.Some?
    ensures
      var (after, id) := MoveHolder(db, rows, a, kr).value.value;
      && StoredOn(db, after, id, a, kr) && GoesOnAs(db, after, id, a, now, kr)
      && id in db.rows && id in rows && StoredValue(db, id, kr) == Some(a.plaintext)
  {
    MoveHolderFinds(db, rows, a, kr);
    var (after, id) := MoveHolder(db, rows, a, kr).value.value;
    assert RowOk(db.rows[id]);
    assert after.rows[id].ciphertext == db.rows[id].ciphertext;
  }

  lemma StoreOffAnyPage(db: Db, a: StoreArgs, kr: Keyring, iv: Iv, now: Time)
    requires Inv(db) && !a.source.Page? && Store(db, a, kr, iv, now).Ok?
    ensures
      var (after, id) := Store(db, a, kr, iv, now).value;
      StoredOn(db, after, id, a, kr) && GoesOnAs(db, after, id, a, now, kr) && id !in db.rows
  {
    SealAndPersistStores(db, a, false, kr, iv, now);
  }

  /** What `decrypt` answers on a row with that history, once a value is stored on it. */
  lemma StoredOpens(db: Db, after: Db, id: Id, a: StoreArgs, now: Time, kr: Keyring)
    requires StoredOn(db, after, id, a, kr) && GoesOnAs(db, after, id, a, now, kr)
    ensures
      DecryptRow(after.rows[id], kr, !db.resealDone) ==
        if (id in db.rows && db.rows[id].revokedAt.Some?) || a.plaintext == "" then None else Some(a.plaintext)
  {
    assert Value(after.rows[id], kr, !db.resealDone) == Some(a.plaintext);
  }

  /**
   * Every store that is not refused, of a page's value or any other: it leaves the value on one row, with the label,
   * source and issuer it was given, where `decrypt` answers it unless a person revoked that row; and nothing else. A
   * value of no page gets a row of its own; a page's value gets one exactly when no row stands at its ref and no
   * readable row of its page holds it.
   */
  lemma StoreReadsBack(db: Db, a: StoreArgs, kr: Keyring, iv: Iv, now: Time)
    requires Inv(db) && PlainRefs(db) && Store(db, a, kr, iv, now).Ok?
    ensures
      var (after, id) := Store(db, a, kr, iv, now).value;
      && StoredOn(db, after, id, a, kr) && GoesOnAs(db, after, id, a, now, kr)
      && DecryptRow(after.rows[id], kr, !db.resealDone) ==
           (if (id in db.rows && db.rows[id].revokedAt.Some?) || a.plaintext == "" then None else Some(a.plaintext))
      && (id !in db.rows <==> a.source.Page? ==>
            && (forall other <- db.rows :: !AtTheRef(db, other, a))
            && (a.plaintext == "" || !KnownOnPage(db, a, kr)))
      && (id in db.rows ==> WasHolder(db, id, a, kr))
  {
    var (after, id) := Store(db, a, kr, iv, now).value;
    if !a.source.Page? {
      StoreOffAnyPage(db, a, kr, iv, now);
    } else {
      UniqueReadNeverFails(db, a.userId, a.source.sourceId, a.source.ref);
      var existing := UniqueAt(db, a.userId, a.source.sourceId, a.source.ref).value;
      if existing.Some? {
        StoreAtAStandingRef(db, a, kr, iv, now, existing.value);
        assert AtTheRef(db, existing.value, a);
      } else {
        StoreAtANewRef(db, a, kr, iv, now);
        assert forall other <- db.rows :: !AtTheRef(db, other, a);
      }
    }
    StoredOpens(db, after, id, a, now, kr);
  }

  /**
   * A store of a page's value inserts a row exactly when no row stands at its ref and no readable row
   * of its page holds the value; either way the value is on one row at the ref, and no other changes.
   */
  lemma KnownValueMintsNoRow(db: Db, a: StoreArgs, kr: Keyring, iv: Iv, now: Time)
    requires Inv(db) && PlainRefs(db) && a.source.Page? && a.plaintext != ""
    requires Store(db, a, kr, iv, now).Ok?
    ensures
      var (after, id) := Store(db, a, kr, iv, now).value;
      && StoredOn(db, after, id, a, kr)
      && (id !in db.rows <==>
            && (forall other <- db.rows :: !StandsAt(db.rows[other], a.userId, a.source.sourceId, a.source.ref))
            && !KnownOnPage(db, a, kr))
      && (id in db.rows ==> WasHolder(db, id, a, kr))
  {
    StoreReadsBack(db, a, kr, iv, now);
    assert forall other <- db.rows ::
      AtTheRef(db, other, a) <==> StandsAt(db.rows[other], a.userId, a.source.sourceId, a.source.ref);
  }

  // ---------------------------------------------------------------- when a store is accepted

  /** The rows of a value's page. */
  function PageIds(db: Db, a: StoreArgs): set<Id>
    requires a.source.Page?
  {
    set id <- db.rows | OnPage(db.rows[id], a.userId, a.source.sourceId, PageRef(a.source.ref))
  }

  lemma PageRowsRefused(db: Db, a: StoreArgs)
    requires a.source.Page? && PlainRefs(db) && IdsGiven(db)
    ensures
      PageRows(db, a.userId, a.source.sourceId, PageRef(a.source.ref)).Ok? <==> |PageIds(db, a)| <= PAGE_ROW_LIMIT
  {
    PageRowsAreThePage(db, a);
    SameSize(ReadRows(db, a.userId, a.source.sourceId, PageRef(a.source.ref), db.next), PageIds(db, a));
  }

  /** A sync's write goes to a source it is the running sync of. */
  predicate MayWrite(db: Db, a: StoreArgs) {
    a.syncRun.Some? ==> a.source.Page? && CurrentGeneration(db, a.source.sourceId, a.syncRun.value)
  }

  lemma {:induction false} MoveHolderRefused(db: Db, rows: seq<Id>, a: StoreArgs, kr: Keyring)
    requires AllOfPage(db, rows, a)
    ensures MayWrite(db, a) ==> MoveHolder(db, rows, a, kr).Ok?
    ensures
      MoveHolder(db, rows, a, kr).Ok? && MoveHolder(db, rows, a, kr).value.Some? ==> MayWrite(db, a)
  {
    if rows != [] && MoveHolder(db, rows, a, kr) == MoveHolder(db, rows[1..], a, kr) {
      MoveHolderRefused(db, rows[1..], a, kr);
    }
  }

  /**
   * A store is accepted exactly when holder and key agree, it has a value or names only where one is, a page's value is
   * the owner's own and not one Day0 obtained, its sync may write there, and the page it is looked for on is not too
   * large to read.
   */
  lemma StoreAcceptedExactly(db: Db, a: StoreArgs, kr: Keyring, iv: Iv, now: Time)
    requires Inv(db) && PlainRefs(db)
    ensures
      Store(db, a, kr, iv, now).Ok? <==>
      && IsOrganisationOwnerKey(a.userId) == a.organisation
      && (a.plaintext != "" || a.metadata.kind.LocationKind?)
      && (a.source.Page? ==> !a.organisation && a.issuedBy.None? && LinkedTo(db, a.source.sourceId, a.userId))
      && MayWrite(db, a)
      && (a.source.Page? && a.plaintext != "" && (forall id <- db.rows :: !AtTheRef(db, id, a)) ==>
            |PageIds(db, a)| <= PAGE_ROW_LIMIT)
  {
    if StoreRefusal(db, a).None? {
      if a.source.Page? {
        PageStoreAcceptedExactly(db, a, kr, iv, now);
      } else {
        PersistAccepted(db, a, false, kr, iv, now);
      }
    }
  }

  lemma PersistAccepted(db: Db, a: StoreArgs, rotated: bool, kr: Keyring, iv: Iv, now: Time)
    requires Inv(db) && StoreRefusal(db, a).None?
    ensures SealAndPersist(db, a, rotated, kr, iv, now).Ok? <==> MayWrite(db, a)
  {
    var p := PersistArgs(a.userId, a.organisation, a.metadata, a.source, a.issuedBy, rotated, a.syncRun);
    PersistRefusedExactly(db, p, SealFor(a.plaintext, kr, a.userId, iv), now);
  }

  lemma PageStoreAcceptedExactly(db: Db, a: StoreArgs, kr: Keyring, iv: Iv, now: Time)
    requires Inv(db) && PlainRefs(db) && a.source.Page? && StoreRefusal(db, a).None?
    ensures
      Store(db, a, kr, iv, now).Ok? <==>
      && MayWrite(db, a)
      && (a.plaintext != "" && (forall id <- db.rows :: !AtTheRef(db, id, a)) ==> |PageIds(db, a)| <= PAGE_ROW_LIMIT)
  {
    UniqueReadNeverFails(db, a.userId, a.source.sourceId, a.source.ref);
    var existing := UniqueAt(db, a.userId, a.source.sourceId, a.source.ref).value;
    PersistAccepted(db, a, existing.Some?, kr, iv, now);
    if existing.Some? {
      assert AtTheRef(db, existing.value, a);
      MetadataExactly(db, existing.value, a.metadata, a.syncRun, kr, !db.resealDone);
    } else {
      assert forall id <- db.rows :: !AtTheRef(db, id, a);
      if a.plaintext != "" { NewRefAcceptedExactly(db, a, kr, iv, now); }
    }
  }

  lemma NewRefAcceptedExactly(db: Db, a: StoreArgs, kr: Keyring, iv: Iv, now: Time)
    requires Inv(db) && PlainRefs(db) && a.source.Page? && StoreRefusal(db, a).None? && a.plaintext != ""
    requires UniqueAt(db, a.userId, a.source.sourceId, a.source.ref) == Ok(None)
    ensures Store(db, a, kr, iv, now).Ok? <==> MayWrite(db, a) && |PageIds(db, a)| <= PAGE_ROW_LIMIT
  {
    hide Persist, MoveToRef, UpdateMetadata;
    PersistAccepted(db, a, false, kr, iv, now);
    PageRowsRefused(db, a);
    var rows := PageRows(db, a.userId, a.source.sourceId, PageRef(a.source.ref));
    if rows.Ok? {
      PageRowsAreThePage(db, a);
      MoveHolderRefused(db, rows.value, a, kr);
    }
  }

  // ---------------------------------------------------------------- a page's values stay distinct

  /** The fingerprint tells the values in `values` apart for this owner. */
  ghost predicate NoCollision(fingerprint: (string, string) -> string, userId: string, values: set<string>) {
    && (forall v, u :: IsFingerprint(fingerprint(v, u)))
    && (forall v, w :: v in values && w in values && fingerprint(v, userId) == fingerprint(w, userId) ==> v == w)
  }

  /** Every row of the page is readable, its value among `values`, and a value-keyed ref keys its own value. */
  ghost predicate PageGood(
    db: Db, userId: string, sourceId: SourceId, pageRef: string, kr: Keyring, fingerprint: (string, string) -> string,
    values: set<string>)
  {
    && Inv(db) && PlainRefs(db)
    && (forall id <- db.rows | OnPage(db.rows[id], userId, sourceId, pageRef) ::
          && StoredValue(db, id, kr).Some? && StoredValue(db, id, kr).value in values
          && (IsValueKeyed(db.rows[id].source.ref) ==>
                db.rows[id].source.ref == SourceRef(pageRef, fingerprint(StoredValue(db, id, kr).value, userId))))
  }

  ghost predicate PageDistinct(db: Db, userId: string, sourceId: SourceId, pageRef: string, kr: Keyring) {
    forall i, j ::
      && i in db.rows && j in db.rows
      && OnPage(db.rows[i], userId, sourceId, pageRef) && OnPage(db.rows[j], userId, sourceId, pageRef)
      && StoredValue(db, i, kr) == StoredValue(db, j, kr)
      ==> i == j
  }

  /** A page value stored as the sync stores it: at the ref its own fingerprint keys. */
  predicate KeyedStore(a: StoreArgs, sourceId: SourceId, pageRef: string, fingerprint: (string, string) -> string) {
    a.plaintext != "" && a.source == Page(sourceId, SourceRef(pageRef, fingerprint(a.plaintext, a.userId)))
  }

  lemma StoreKeepsInv(db: Db, a: StoreArgs, kr: Keyring, iv: Iv, now: Time)
    requires Inv(db) && a.source.Page? && a.plaintext != "" && Store(db, a, kr, iv, now).Ok? && PlainRefs(db)
    ensures Inv(Store(db, a, kr, iv, now).value.0)
  {
    UniqueReadNeverFails(db, a.userId, a.source.sourceId, a.source.ref);
    var existing := UniqueAt(db, a.userId, a.source.sourceId, a.source.ref).value;
    var p := PersistArgs(a.userId, a.organisation, a.metadata, a.source, a.issuedBy, existing.Some?, a.syncRun);
    var sealed := SealFor(a.plaintext, kr, a.userId, iv);
    if existing.Some? {
      if StoredValue(db, existing.value, kr) == Some(a.plaintext) {
        TxKeepsInv(db, DoUpdateMetadata(existing.value, a.metadata, a.syncRun), kr);
      } else {
        PersistKeepsInv(db, p, sealed, now);
      }
    } else {
      PageRowsAreThePage(db, a);
      var rows := PageRows(db, a.userId, a.source.sourceId, PageRef(a.source.ref)).value;
      MoveHolderFinds(db, rows, a, kr);
      if MoveHolder(db, rows, a, kr).value.None? {
        PersistKeepsInv(db, p, sealed, now);
      } else {
        var (after, id) := MoveHolder(db, rows, a, kr).value.value;
        MoveHolderIsAMove(db, rows, a, kr);
      }
    }
  }

  lemma {:induction false} MoveHolderIsAMove(db: Db, rows: seq<Id>, a: StoreArgs, kr: Keyring)
    requires Inv(db) && AllOfPage(db, rows, a)
    requires MoveHolder(db, rows, a, kr).Ok? && MoveHolder(db, rows, a, kr).value.Some?
    ensures Inv(MoveHolder(db, rows, a, kr).value.value.0)
  {
    var m := MoveArgs(
      rows[0], a.userId, db.rows[rows[0]].source.ref, a.source.sourceId, a.source.ref, a.metadata, a.syncRun);
    if StoredValue(db, rows[0], kr) == Some(a.plaintext) && MoveToRef(db, m).Ok? && MoveToRef(db, m).value.1 {
      TxKeepsInv(db, DoMoveToRef(m), kr);
    } else {
      MoveHolderIsAMove(db, rows[1..], a, kr);
    }
  }

  /** One store keeps a page's values distinct, each readable, and each value-keyed ref keying its own value. */
  lemma StoreKeepsPageDistinct(
    db: Db, a: StoreArgs, kr: Keyring, iv: Iv, now: Time, sourceId: SourceId, pageRef: string,
    fingerprint: (string, string) -> string, values: set<string>)
    requires PageGood(db, a.userId, sourceId, pageRef, kr, fingerprint, values)
    requires PageDistinct(db, a.userId, sourceId, pageRef, kr)
    requires NoCollision(fingerprint, a.userId, values) && a.plaintext in values
    requires KeyedStore(a, sourceId, pageRef, fingerprint) && Store(db, a, kr, iv, now).Ok?
    ensures PageGood(Store(db, a, kr, iv, now).value.0, a.userId, sourceId, pageRef, kr, fingerprint, values)
    ensures PageDistinct(Store(db, a, kr, iv, now).value.0, a.userId, sourceId, pageRef, kr)
  {
    var (after, id) := Store(db, a, kr, iv, now).value;
    SourceRefRoundTrip(pageRef, fingerprint(a.plaintext, a.userId));
    KnownValueMintsNoRow(db, a, kr, iv, now);
    StoreKeepsInv(db, a, kr, iv, now);
    StoredPageIsGood(db, after, id, a, kr, sourceId, pageRef, fingerprint, values);
    forall other | other in db.rows && other != id && OnPage(db.rows[other], a.userId, sourceId, pageRef)
      ensures StoredValue(db, other, kr) != Some(a.plaintext)
    {
      NoOtherHolder(db, after, id, other, a, kr, sourceId, pageRef, fingerprint, values);
    }
    StoredPageIsDistinct(db, after, id, a, kr, sourceId, pageRef);
  }

  lemma StoredPageIsGood(
    db: Db, after: Db, id: Id, a: StoreArgs, kr: Keyring, sourceId: SourceId, pageRef: string,
    fingerprint: (string, string) -> string, values: set<string>)
    requires PageGood(db, a.userId, sourceId, pageRef, kr, fingerprint, values) && a.plaintext in values
    requires KeyedStore(a, sourceId, pageRef, fingerprint) && StoredOn(db, after, id, a, kr) && Inv(after)
    requires PlainSuffix(a.source.ref)
    ensures PageGood(after, a.userId, sourceId, pageRef, kr, fingerprint, values)
  {
  }

  lemma StoredPageIsDistinct(db: Db, after: Db, id: Id, a: StoreArgs, kr: Keyring, sourceId: SourceId, pageRef: string)
    requires PageDistinct(db, a.userId, sourceId, pageRef, kr) && StoredOn(db, after, id, a, kr)
    requires forall other <- db.rows | other != id && OnPage(db.rows[other], a.userId, sourceId, pageRef) ::
        StoredValue(db, other, kr) != Some(a.plaintext)
    ensures PageDistinct(after, a.userId, sourceId, pageRef, kr)
  {
    forall other | other in db.rows && other != id
      ensures after.rows[other] == db.rows[other] && StoredValue(after, other, kr) == StoredValue(db, other, kr)
    {
    }
  }

  /** The row a store leaves its value on is the one row of the page that holds it. */
  lemma NoOtherHolder(
    db: Db, after: Db, id: Id, other: Id, a: StoreArgs, kr: Keyring, sourceId: SourceId, pageRef: string,
    fingerprint: (string, string) -> string, values: set<string>)
    requires PageGood(db, a.userId, sourceId, pageRef, kr, fingerprint, values)
    requires PageDistinct(db, a.userId, sourceId, pageRef, kr)
    requires NoCollision(fingerprint, a.userId, values) && a.plaintext in values
    requires KeyedStore(a, sourceId, pageRef, fingerprint)
    requires StoredOn(db, after, id, a, kr) && PageRef(a.source.ref) == pageRef && IsValueKeyed(a.source.ref)
    requires id !in db.rows ==> !KnownOnPage(db, a, kr)
    requires id in db.rows ==> WasHolder(db, id, a, kr)
    requires other in db.rows && other != id && OnPage(db.rows[other], a.userId, sourceId, pageRef)
    ensures StoredValue(db, other, kr) != Some(a.plaintext)
  {
    if id in db.rows && StandsAt(db.rows[id], a.userId, sourceId, a.source.ref) {
      assert OnPage(db.rows[id], a.userId, sourceId, pageRef);
      var held := StoredValue(db, id, kr).value;
      SourceRefInjective(pageRef, fingerprint(held, a.userId), fingerprint(a.plaintext, a.userId));
      assert held == a.plaintext;
    }
  }

  datatype StoreCall = StoreCall(args: StoreArgs, iv: Iv, now: Time)

  /** Stores run one after another; one that throws leaves the table as it was. */
  function Stores(db: Db, calls: seq<StoreCall>, kr: Keyring): Db {
    if calls == [] then db
    else
      var before := Stores(db, calls[..|calls| - 1], kr);
      var last := calls[|calls| - 1];
      var stored := Store(before, last.args, kr, last.iv, last.now);
      if stored.Ok? then stored.value.0 else before
  }

  /** However often a sync stores a page's values, no two rows of the page ever come to hold the same one. */
  lemma {:induction false} StoresKeepPageDistinct(
    db: Db, calls: seq<StoreCall>, kr: Keyring, userId: string, sourceId: SourceId, pageRef: string,
    fingerprint: (string, string) -> string, values: set<string>)
    requires PageGood(db, userId, sourceId, pageRef, kr, fingerprint, values)
    requires PageDistinct(db, userId, sourceId, pageRef, kr)
    requires NoCollision(fingerprint, userId, values)
    requires forall c <- calls ::
      c.args.userId == userId && c.args.plaintext in values && KeyedStore(c.args, sourceId, pageRef, fingerprint)
    ensures PageGood(Stores(db, calls, kr), userId, sourceId, pageRef, kr, fingerprint, values)
    ensures PageDistinct(Stores(db, calls, kr), userId, sourceId, pageRef, kr)
  {
    if calls != [] {
      var before := Stores(db, calls[..|calls| - 1], kr);
      var last := calls[|calls| - 1];
      StoresKeepPageDistinct(db, calls[..|calls| - 1], kr, userId, sourceId, pageRef, fingerprint, values);
      assert last in calls;
      if Store(before, last.args, kr, last.iv, last.now).Ok? {
        StoreKeepsPageDistinct(before, last.args, kr, last.iv, last.now, sourceId, pageRef, fingerprint, values);
      }
    }
  }
}
