/** What a page of a re-seal or of the ref rewrite counts, row by row (convex/credentialCryptoActions.ts). */
module PageCounts {
  import opened Prelude
  import opened Sealing
  import opened Credentials
  import opened CredentialInvariants
  import opened CredentialRef
  import opened Reseal
  import opened ValueRefs

  /** The rows of a range that hold a value not under the current key, which the keyring cannot open. */
  function Unopened(db: Db, from: Id, upTo: Id, kr: Keyring, allow: bool): nat
    decreases upTo - from
  {
    if from >= upTo then 0
    else
      Unopened(db, from, upTo - 1, kr, allow)
      + if upTo - 1 in db.rows && SkippedRow(db.rows[upTo - 1], kr, allow) then 1 else 0
  }

  predicate SkippedRow(row: Row, kr: Keyring, allow: bool) {
    HoldsValue(row) && row.keyId != Some(kr.current) && Value(row, kr, allow).None?
  }

  // ---------------------------------------------------------------- re-sealing a page

  /** A row with a value whose key id is not the current key's, and whether the keyring opens it. */
  predicate IsToSeal(row: Row, kr: Keyring, allow: bool, opens: bool) {
    HoldsValue(row) && row.keyId != Some(kr.current) && Value(row, kr, allow).Some? == opens
  }

  function ToSeal(db: Db, from: Id, upTo: Id, kr: Keyring, allow: bool, opens: bool): set<Id> {
    set id <- db.rows | from <= id < upTo && IsToSeal(db.rows[id], kr, allow, opens)
  }

  lemma NoRange(db: Db, from: Id, upTo: Id, kr: Keyring, allow: bool, opens: bool)
    requires from >= upTo
    ensures ToSeal(db, from, upTo, kr, allow, opens) == {}
  {
  }

  lemma NextToSeal(db: Db, from: Id, upTo: Id, kr: Keyring, allow: bool, opens: bool)
    requires from < upTo
    ensures
      ToSeal(db, from, upTo, kr, allow, opens) ==
      ToSeal(db, from, upTo - 1, kr, allow, opens) + ToSeal(db, upTo - 1, upTo, kr, allow, opens)
    ensures
      |ToSeal(db, from, upTo, kr, allow, opens)| ==
      |ToSeal(db, from, upTo - 1, kr, allow, opens)| + |ToSeal(db, upTo - 1, upTo, kr, allow, opens)|
  {
    hide IsToSeal;
    var before, last := ToSeal(db, from, upTo - 1, kr, allow, opens), ToSeal(db, upTo - 1, upTo, kr, allow, opens);
    assert before !! last;
    assert ToSeal(db, from, upTo, kr, allow, opens) == before + last;
  }

  lemma OneUnopened(db: Db, id: Id, kr: Keyring, allow: bool)
    ensures
      |ToSeal(db, id, id + 1, kr, allow, false)| == if id in db.rows && SkippedRow(db.rows[id], kr, allow) then 1 else 0
  {
    assert
      ToSeal(db, id, id + 1, kr, allow, false) ==
      if id in db.rows && SkippedRow(db.rows[id], kr, allow) then {id} else {};
  }

  lemma {:induction false} UnopenedExactly(db: Db, from: Id, upTo: Id, kr: Keyring, allow: bool)
    ensures Unopened(db, from, upTo, kr, allow) == |ToSeal(db, from, upTo, kr, allow, false)|
    decreases upTo
  {
    hide ToSeal, SkippedRow, Value, HoldsValue;
    if from < upTo {
      UnopenedExactly(db, from, upTo - 1, kr, allow);
      NextToSeal(db, from, upTo, kr, allow, false);
      OneUnopened(db, upTo - 1, kr, allow);
    } else {
      NoRange(db, from, upTo, kr, allow, false);
    }
  }

  predicate Ascending(items: seq<Resealed>) {
    forall i, j :: 0 <= i < j < |items| ==> items[i].id < items[j].id
  }

  /** The item of a row: opened from what the row held, and sealed again as that value for the row's owner. */
  predicate ItemOfRow(db: Db, r: Resealed, kr: Keyring, allow: bool) {
    && r.id in db.rows && HoldsValue(db.rows[r.id]) && db.rows[r.id].ciphertext == Some(r.from)
    && Value(db.rows[r.id], kr, allow).Some?
    && r.sealed == SealFor(Value(db.rows[r.id], kr, allow).value, kr, db.rows[r.id].userId, r.sealed.iv)
  }

  lemma {:induction false} ItemsAscend(db: Db, from: Id, upTo: Id, ivs: Id -> Iv, kr: Keyring, allow: bool)
    ensures
      var items := ResealItems(db, from, upTo, ivs, kr, allow);
      && Ascending(items) && forall i :: 0 <= i < |items| ==> from <= items[i].id < upTo
    decreases upTo
  {
    if from < upTo {
      ItemsAscend(db, from, upTo - 1, ivs, kr, allow);
    }
  }

  predicate HasItem(items: seq<Resealed>, id: Id) {
    exists r <- items :: r.id == id
  }

  /** The items of some rows: one for each, opened from it, and no other. */
  ghost predicate ItemsFor(db: Db, items: seq<Resealed>, ids: set<Id>, kr: Keyring, allow: bool) {
    && (forall r <- items :: ItemOfRow(db, r, kr, allow))
    && forall id :: id in ids <==> HasItem(items, id)
  }

  lemma ItemsTogether(
      db: Db, a: seq<Resealed>, b: seq<Resealed>, some: set<Id>, others: set<Id>, kr: Keyring, allow: bool)
    requires ItemsFor(db, a, some, kr, allow) && ItemsFor(db, b, others, kr, allow)
    ensures ItemsFor(db, a + b, some + others, kr, allow)
  {
    forall id
      ensures HasItem(a + b, id) <==> HasItem(a, id) || HasItem(b, id)
    {
      if r :| r in a && r.id == id { assert r in a + b; }
      if r :| r in b && r.id == id { assert r in a + b; }
    }
  }

  lemma ItemsOfNone(db: Db, kr: Keyring, allow: bool)
    ensures ItemsFor(db, [], {}, kr, allow)
  {
  }

  lemma ItemsOfRow(db: Db, id: Id, iv: Iv, kr: Keyring, allow: bool)
    ensures
      var items := if id in db.rows then ItemsOf(id, db.rows[id], iv, kr, allow) else [];
      ItemsFor(db, items, ToSeal(db, id, id + 1, kr, allow, true), kr, allow)
  {
    var items := if id in db.rows then ItemsOf(id, db.rows[id], iv, kr, allow) else [];
    var ids := ToSeal(db, id, id + 1, kr, allow, true);
    if items == [] {
      assert ids == {};
      ItemsOfNone(db, kr, allow);
    } else {
      assert ids == {id} && items == [items[0]];
      assert forall r :: r in items <==> r == items[0];
    }
  }

  /** The page loop pushes one item for each row to seal that opens, and no other. */
  lemma {:induction false} ItemsExactly(db: Db, from: Id, upTo: Id, ivs: Id -> Iv, kr: Keyring, allow: bool)
    ensures
      ItemsFor(
        db, ResealItems(db, from, upTo, ivs, kr, allow), ToSeal(db, from, upTo, kr, allow, true), kr, allow)
    decreases upTo
  {
    hide ItemsFor, ItemsOf, ToSeal;
    if from < upTo {
      var id := upTo - 1;
      ItemsExactly(db, from, id, ivs, kr, allow);
      NextToSeal(db, from, upTo, kr, allow, true);
      ItemsOfRow(db, id, ivs(id), kr, allow);
      var more := if id in db.rows then ItemsOf(id, db.rows[id], ivs(id), kr, allow) else [];
      ItemsTogether(
        db, ResealItems(db, from, id, ivs, kr, allow), more, ToSeal(db, from, id, kr, allow, true),
        ToSeal(db, id, id + 1, kr, allow, true), kr, allow);
    } else {
      NoRange(db, from, upTo, kr, allow, true);
      ItemsOfNone(db, kr, allow);
    }
  }

  lemma NoneToSeal(db: Db, from: Id, upTo: Id, ivs: Id -> Iv, kr: Keyring, allow: bool)
    ensures ResealItems(db, from, upTo, ivs, kr, allow) == [] <==> ToSeal(db, from, upTo, kr, allow, true) == {}
  {
    var items := ResealItems(db, from, upTo, ivs, kr, allow);
    ItemsExactly(db, from, upTo, ivs, kr, allow);
    assert ItemsFor(db, items, ToSeal(db, from, upTo, kr, allow, true), kr, allow);
    if items != [] { assert HasItem(items, items[0].id); }
  }

  /** The item's row still holds what was read. */
  predicate Stands(db: Db, r: Resealed) {
    r.id in db.rows && db.rows[r.id].ciphertext == Some(r.from)
  }

  /** The rows a page of items still finds as they were read. */
  function Standing(db: Db, items: seq<Resealed>): set<Id> {
    set r <- items | Stands(db, r) :: r.id
  }

  lemma StandingNext(db: Db, front: seq<Resealed>, last: Resealed)
    requires Ascending(front + [last])
    ensures Ascending(front) && last.id !in Standing(db, front)
    ensures Standing(db, front + [last]) == Standing(db, front) + if Stands(db, last) then {last.id} else {}
  {
    var items := front + [last];
    forall r | r in front
      ensures r.id < last.id
    {
      var i :| 0 <= i < |front| && front[i] == r;
      assert items[i] == r && items[|front|] == last;
    }
    assert forall r :: r in items <==> r in front || r == last;
    assert forall i, j :: 0 <= i < j < |front| ==> front[i] == items[i] && front[j] == items[j];
  }

  /** What a page of items leaves: its row seals only, of the rows it finds as they were read, and their number. */
  ghost predicate AppliedTo(db: Db, after: Db, applied: nat, standing: set<Id>) {
    && after == db.(rows := after.rows) && after.rows.Keys == db.rows.Keys && applied == |standing|
    && forall id <- db.rows | id !in standing :: after.rows[id] == db.rows[id]
  }

  lemma NoneApplied(db: Db)
    ensures AppliedTo(db, db, 0, Standing(db, []))
  {
    assert Standing(db, []) == {};
  }

  lemma OneMoreApplied(db: Db, before: Db, applied: nat, standing: set<Id>, last: Resealed)
    requires AppliedTo(db, before, applied, standing) && last.id !in standing
    ensures
      if Stands(db, last) then AppliedTo(db, ApplyOneReseal(before, last), applied + 1, standing + {last.id})
      else ApplyOneReseal(before, last) == before
    ensures StillHolds(before, last) <==> Stands(db, last)
  {
  }

  /** A page writes exactly the seals of the rows that still hold what was read, and counts them. */
  lemma {:induction false} AppliedExactly(db: Db, items: seq<Resealed>)
    requires Ascending(items)
    ensures AppliedTo(db, ApplyReseal(db, items).0, ApplyReseal(db, items).1, Standing(db, items))
  {
    hide Standing, Ascending, AppliedTo, StillHolds, Stands, ApplyOneReseal;
    if items == [] {
      NoneApplied(db);
    } else {
      var front, last := items[..|items| - 1], items[|items| - 1];
      assert items == front + [last];
      StandingNext(db, front, last);
      AppliedExactly(db, front);
      OneMoreApplied(db, ApplyReseal(db, front).0, ApplyReseal(db, front).1, Standing(db, front), last);
      assert Standing(db, front) + {} == Standing(db, front);
    }
  }

  lemma {:induction false} AppliedSeals(db: Db, items: seq<Resealed>, r: Resealed)
    requires Ascending(items) && r in items && Stands(db, r)
    ensures
      var after := ApplyReseal(db, items).0;
      && r.id in after.rows
      && after.rows[r.id] == db.rows[r.id].(
           ciphertext := Some(r.sealed.cipher), iv := Some(r.sealed.iv), keyId := Some(r.sealed.keyId))
  {
    var front, last := items[..|items| - 1], items[|items| - 1];
    assert items == front + [last];
    AppliedExactly(db, front);
    StandingNext(db, front, last);
    if r == last {
      assert last.id !in Standing(db, front);
    } else {
      AppliedSeals(db, front, r);
      assert r.id in Standing(db, front);
    }
  }

  /** The rows of a page's read to be sealed again that still hold what was read when the page is applied. */
  function Untouched(page: Db, held: Db, from: Id, upTo: Id, kr: Keyring, allow: bool): set<Id> {
    set id <- ToSeal(page, from, upTo, kr, allow, true) |
      id in held.rows && held.rows[id].ciphertext == page.rows[id].ciphertext
  }

  /**
   * A page read in one table and applied to another counts as changed exactly the rows it opened that hold what was
   * read then; the new seal of each holds the value read, under the current key, and no other row is written.
   */
  lemma ResealPageExactly(page: Db, held: Db, from: Id, upTo: Id, ivs: Id -> Iv, kr: Keyring, allow: bool)
    ensures
      var (after, changed) := ApplyReseal(held, ResealItems(page, from, upTo, ivs, kr, allow));
      var untouched := Untouched(page, held, from, upTo, kr, allow);
      && changed == |untouched| && after == held.(rows := after.rows) && after.rows.Keys == held.rows.Keys
      && (forall id <- held.rows | id !in untouched :: after.rows[id] == held.rows[id])
      && forall id <- untouched ::
          && after.rows[id].keyId == Some(kr.current) && after.rows[id].ciphertext.Some?
          && Some(after.rows[id].ciphertext.value.plaintext) == Value(page.rows[id], kr, allow)
  {
    var items := ResealItems(page, from, upTo, ivs, kr, allow);
    ItemsAscend(page, from, upTo, ivs, kr, allow);
    ItemsExactly(page, from, upTo, ivs, kr, allow);
    AppliedExactly(held, items);
    var untouched := Untouched(page, held, from, upTo, kr, allow);
    forall id | id in untouched
      ensures id in Standing(held, items)
      ensures
        var after := ApplyReseal(held, items).0;
        && after.rows[id].keyId == Some(kr.current) && after.rows[id].ciphertext.Some?
        && Some(after.rows[id].ciphertext.value.plaintext) == Value(page.rows[id], kr, allow)
    {
      assert HasItem(items, id);
      var r :| r in items && r.id == id;
      assert ItemOfRow(page, r, kr, allow) && Stands(held, r);
      AppliedSeals(held, items, r);
    }
    forall id | id in Standing(held, items)
      ensures id in untouched
    {
      var r :| r in items && Stands(held, r) && r.id == id;
      assert ItemOfRow(page, r, kr, allow) && HasItem(items, id);
    }
    assert untouched == Standing(held, items);
  }

  /** A page run twice with nothing beside it writes nothing the second time, and skips what it skipped. */
  lemma ResealPageTwice(db: Db, from: Id, upTo: Id, ivs: Id -> Iv, again: Id -> Iv, kr: Keyring, allow: bool)
    ensures
      var (after, changed) := ApplyReseal(db, ResealItems(db, from, upTo, ivs, kr, allow));
      && changed == |ToSeal(db, from, upTo, kr, allow, true)|
      && ResealItems(after, from, upTo, again, kr, allow) == []
      && Unopened(after, from, upTo, kr, allow) == Unopened(db, from, upTo, kr, allow)
  {
    var after := ApplyReseal(db, ResealItems(db, from, upTo, ivs, kr, allow)).0;
    ResealPageExactly(db, db, from, upTo, ivs, kr, allow);
    assert Untouched(db, db, from, upTo, kr, allow) == ToSeal(db, from, upTo, kr, allow, true);
    hide ApplyReseal, ResealItems, Unopened;
    assert ToSeal(after, from, upTo, kr, allow, true) == {};
    assert ToSeal(after, from, upTo, kr, allow, false) == ToSeal(db, from, upTo, kr, allow, false);
    UnopenedExactly(db, from, upTo, kr, allow);
    UnopenedExactly(after, from, upTo, kr, allow);
    NoneToSeal(after, from, upTo, again, kr, allow);
  }

  // ---------------------------------------------------------------- moving a page of refs

  predicate InOrder(moves: seq<RefMove>) {
    forall i, j :: 0 <= i < j < |moves| ==> moves[i].id < moves[j].id
  }

  lemma LaterStaysInOrder(moves: seq<RefMove>, last: RefMove, from: Id)
    requires InOrder(moves) && from <= last.id && forall i :: 0 <= i < |moves| ==> from <= moves[i].id < last.id
    ensures
      var all := moves + [last];
      InOrder(all) && forall i :: 0 <= i < |all| ==> from <= all[i].id <= last.id
  {
  }

  lemma {:induction false} MovesAscend(
      db: Db, from: Id, upTo: Id, kr: Keyring, allow: bool, fingerprint: (string, string) -> string)
    ensures
      var moves := PageMoves(db, from, upTo, kr, allow, fingerprint);
      InOrder(moves) && forall i :: 0 <= i < |moves| ==> from <= moves[i].id < upTo
    decreases upTo
  {
    if from < upTo {
      MovesAscend(db, from, upTo - 1, kr, allow, fingerprint);
      LastMoveOfPage(db, from, upTo, kr, allow, fingerprint);
      var moves, earlier :=
        PageMoves(db, from, upTo, kr, allow, fingerprint), PageMoves(db, from, upTo - 1, kr, allow, fingerprint);
      if moves != earlier {
        LastMoveIsTheLastRow(db, from, upTo, kr, allow, fingerprint);
        LaterStaysInOrder(earlier, moves[|moves| - 1], from);
        hide PageMoves, InOrder;
        assert moves == earlier + [moves[|moves| - 1]];
      }
    }
  }

  /** The rows two tables tell differently. */
  function MovedRows(db: Db, after: Db): set<Id> {
    set id <- db.rows | id in after.rows && after.rows[id] != db.rows[id]
  }

  lemma OneMoveCounted(db: Db, before: Db, m: RefMove)
    requires before.rows.Keys == db.rows.Keys && m.fromRef != m.ref
    requires m.id in db.rows ==> before.rows[m.id] == db.rows[m.id]
    ensures m.id !in MovedRows(db, before)
    ensures
      MovedRows(db, ApplyOneValueRef(before, m)) ==
      MovedRows(db, before) + if OutcomeOf(before, m) == Moved then {m.id} else {}
  {
    var after := ApplyOneValueRef(before, m);
    OneValueRefOnlyMoves(before, m);
    forall id | id in db.rows && id != m.id
      ensures after.rows[id] == before.rows[id]
    {
      MoveLeavesKeyed(before, m, id);
    }
    if OutcomeOf(before, m) == Moved {
      assert after.rows[m.id].source.ref == m.ref;
    } else {
      assert after == before;
    }
    hide ApplyOneValueRef, OutcomeOf, OnlyRefsMoved;
  }

  lemma LastIsLater(front: seq<RefMove>, last: RefMove)
    requires InOrder(front + [last])
    ensures InOrder(front) && forall m <- front :: m.id != last.id
  {
    var moves := front + [last];
    forall m | m in front
      ensures m.id != last.id
    {
      var i :| 0 <= i < |front| && front[i] == m;
      assert moves[i] == m && moves[|front|] == last;
    }
    forall i, j | 0 <= i < j < |front|
      ensures front[i].id < front[j].id
    {
      assert moves[i] == front[i] && moves[j] == front[j];
    }
  }

  /** A page of moves in table order counts exactly the rows it moved. */
  lemma {:induction false} MovesCounted(db: Db, moves: seq<RefMove>)
    requires InOrder(moves)
    requires forall m <- moves :: m.fromRef != m.ref
    ensures MovesReport(db, moves).0 == |MovedRows(db, ApplyValueRefs(db, moves))|
  {
    if moves == [] {
      assert MovedRows(db, db) == {};
    } else {
      var front, last := moves[..|moves| - 1], moves[|moves| - 1];
      assert moves == front + [last];
      LastIsLater(front, last);
      MovesCounted(db, front);
      var before := ApplyValueRefs(db, front);
      ValueRefsOnlyMove(db, front);
      if last.id in db.rows { OtherMovesLeaveARow(db, front, last.id); }
      assert last in moves;
      OneMoveCounted(db, before, last);
      hide MovedRows, ApplyOneValueRef, OutcomeOf, OnlyRefsMoved, InOrder;
    }
  }

  /**
   * So a page of the rewrite, read in one table and applied to another, counts as changed exactly the rows it moved.
   */
  lemma RewritePageCounts(
      page: Db, held: Db, from: Id, upTo: Id, kr: Keyring, allow: bool, fingerprint: (string, string) -> string)
    requires forall v, u :: IsFingerprint(fingerprint(v, u))
    ensures
      var moves := PageMoves(page, from, upTo, kr, allow, fingerprint);
      MovesReport(held, moves).0 == |MovedRows(held, ApplyValueRefs(held, moves))|
  {
    MovesAscend(page, from, upTo, kr, allow, fingerprint);
    PageMovesAreTheirRows(page, from, upTo, kr, allow, fingerprint);
    MovesCounted(held, PageMoves(page, from, upTo, kr, allow, fingerprint));
  }
}
