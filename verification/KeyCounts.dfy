/**
 * The counts a rotation drops the previous key by (convex/credentials.ts, scripts/rotate-credential-key.ts): page by
 * page, with any other steps between the pages.
 */
module KeyCounts {
  import opened Prelude
  import opened Sealing
  import opened Credentials
  import opened CredentialInvariants
  import opened Reseal
  import opened ResealTheorems

  const KEY_COUNT_PAGE: nat := 1000

  /** The rows in a range holding a ciphertext whose key id is `keyId`; None for those without one. */
  function Named(db: Db, keyId: Option<Key>, from: Id, upTo: Id): nat
    decreases upTo - from
  {
    if from >= upTo then 0
    else
      Named(db, keyId, from, upTo - 1)
      + if upTo - 1 in db.rows && db.rows[upTo - 1].ciphertext.Some? && db.rows[upTo - 1].keyId == keyId then 1 else 0
  }

  lemma {:induction false} NoneNamed(db: Db, keyId: Option<Key>, from: Id, upTo: Id, id: Id)
    requires Named(db, keyId, from, upTo) == 0 && from <= id < upTo
    requires id in db.rows && db.rows[id].ciphertext.Some?
    ensures db.rows[id].keyId != keyId
    decreases upTo
  {
    if id < upTo - 1 {
      NoneNamed(db, keyId, from, upTo - 1, id);
    }
  }

  lemma {:induction false} NamedSplits(db: Db, keyId: Option<Key>, from: Id, mid: Id, upTo: Id)
    requires from <= mid <= upTo
    ensures Named(db, keyId, from, upTo) == Named(db, keyId, from, mid) + Named(db, keyId, mid, upTo)
    decreases upTo
  {
    if mid < upTo {
      NamedSplits(db, keyId, from, mid, upTo - 1);
    }
  }

  /**
   * Counts that show no row without a key id and none under the old key make dropping that key safe, whatever a re-seal
   * did.
   */
  lemma CountsMakeDroppingSafe(db: Db, kr: Keyring, allow: bool, id: Id)
    requires IdsGiven(db) && id in db.rows
    requires Named(db, None, 0, db.next) == 0
    requires kr.previous.Some? && kr.previous.value != kr.current ==> Named(db, kr.previous, 0, db.next) == 0
    ensures Value(db.rows[id], WithoutPrevious(kr), allow) == Value(db.rows[id], kr, allow)
  {
    var row := db.rows[id];
    DroppingAKeyExactly(row, kr, allow);
    if HoldsValue(row) {
      NoneNamed(db, None, 0, db.next, id);
      if kr.previous.Some? && kr.previous.value != kr.current {
        NoneNamed(db, kr.previous, 0, db.next, id);
      }
      OpensExactly(row.ciphertext.value, row.iv.value, row.userId, row.keyId, kr, allow);
    }
  }

  // ---------------------------------------------------------------- naming an old key only ends

  /** A row that names another key than the current one, or none, named it before. */
  lemma NamedBefore(row: Row, after: Row, keyId: Option<Key>, kr: Keyring)
    requires SealEvolves(row, after, kr) && keyId != Some(kr.current)
    requires after.ciphertext.Some? && after.keyId == keyId
    ensures row.ciphertext.Some? && row.keyId == keyId
  {
  }

  lemma {:induction false} NamedShrinks(db: Db, after: Db, kr: Keyring, keyId: Option<Key>, from: Id, upTo: Id)
    requires IdsGiven(db) && Evolves(db, after, kr) && keyId != Some(kr.current)
    ensures Named(after, keyId, from, upTo) <= Named(db, keyId, from, upTo)
    decreases upTo
  {
    if from < upTo {
      NamedShrinks(db, after, kr, keyId, from, upTo - 1);
      var id := upTo - 1;
      if id in after.rows && after.rows[id].ciphertext.Some? && after.rows[id].keyId == keyId {
        assert id in db.rows;
        NamedBefore(db.rows[id], after.rows[id], keyId, kr);
      }
    }
  }

  /** Past the ids given no row names a key. */
  lemma {:induction false} NoneNamedPast(db: Db, keyId: Option<Key>, upTo: Id)
    requires IdsGiven(db)
    ensures Named(db, keyId, db.next, upTo) == 0
    decreases upTo
  {
    if db.next < upTo {
      NoneNamedPast(db, keyId, upTo - 1);
    }
  }

  /** Over the whole of two tables, the later one never names an old key more often. */
  lemma NamedEvolves(db: Db, after: Db, kr: Keyring, keyId: Option<Key>)
    requires IdsGiven(db) && Evolves(db, after, kr) && keyId != Some(kr.current)
    ensures Named(after, keyId, 0, after.next) <= Named(db, keyId, 0, db.next)
  {
    NamedShrinks(db, after, kr, keyId, 0, after.next);
    NamedSplits(db, keyId, 0, db.next, after.next);
    NoneNamedPast(db, keyId, after.next);
  }

  /** Counts of none in one table make dropping the previous key safe in every later one, whatever runs after them. */
  lemma DroppingStaysSafe(s: Sys, later: seq<Step>, kr: Keyring, allow: bool, now: bool, id: Id)
    requires SysOk(s, kr, allow) && id in Steps(s, later, kr).db.rows
    requires Named(s.db, None, 0, s.db.next) == 0
    requires kr.previous.Some? && kr.previous.value != kr.current ==> Named(s.db, kr.previous, 0, s.db.next) == 0
    ensures
      var row := Steps(s, later, kr).db.rows[id];
      Value(row, WithoutPrevious(kr), now) == Value(row, kr, now)
  {
    var after := Steps(s, later, kr).db;
    StepsEvolve(s, later, kr, allow);
    StepsKeepSysOk(s, later, kr, allow);
    NamedEvolves(s.db, after, kr, None);
    if kr.previous.Some? && kr.previous.value != kr.current {
      NamedEvolves(s.db, after, kr, kr.previous);
    }
    CountsMakeDroppingSafe(after, kr, now, id);
  }

  // ---------------------------------------------------------------- the pages, with steps between them

  /** One page of the counts: by key id, and the rows without one. */
  method CountPage(db: Db, cursor: Id) returns (byKeyId: map<Key, nat>, unkeyed: nat, upTo: Id, isDone: bool)
    requires cursor <= db.next
    ensures upTo == PageEnd(db, cursor, KEY_COUNT_PAGE) && cursor <= upTo <= db.next
    ensures isDone == (RowsIn(db, cursor, upTo) < KEY_COUNT_PAGE) && (isDone ==> upTo == db.next)
    ensures !isDone ==> cursor + KEY_COUNT_PAGE <= upTo
    ensures unkeyed == Named(db, None, cursor, upTo)
    ensures forall k :: (if k in byKeyId then byKeyId[k] else 0) == Named(db, Some(k), cursor, upTo)
  {
    upTo := PageEnd(db, cursor, KEY_COUNT_PAGE);
    isDone := RowsIn(db, cursor, upTo) < KEY_COUNT_PAGE;
    ShortPageIsTheLast(db, cursor, KEY_COUNT_PAGE);
    RowsAtMost(db, cursor, upTo);
    byKeyId, unkeyed := map[], 0;
    for id := cursor to upTo
      invariant unkeyed == Named(db, None, cursor, id)
      invariant forall k :: (if k in byKeyId then byKeyId[k] else 0) == Named(db, Some(k), cursor, id)
    {
      if id in db.rows && db.rows[id].ciphertext.Some? {
        var keyId := db.rows[id].keyId;
        if keyId.None? {
          unkeyed := unkeyed + 1;
        } else {
          byKeyId := byKeyId[keyId.value := (if keyId.value in byKeyId then byKeyId[keyId.value] else 0) + 1];
        }
      }
    }
  }

  /** A count under way: the system, its cursor, the rows counted under one key id, and whether the table ended. */
  datatype Count = Count(s: Sys, cursor: Id, named: nat, isDone: bool)

  function OneCount(c: Count, between: seq<Step>, keyId: Option<Key>, kr: Keyring): Count {
    var page := Steps(c.s, between, kr);
    var upTo := PageEnd(page.db, c.cursor, KEY_COUNT_PAGE);
    Count(page, upTo, c.named + Named(page.db, keyId, c.cursor, upTo), RowsIn(page.db, c.cursor, upTo) < KEY_COUNT_PAGE)
  }

  /** The sum over the first pages, each read after some other steps. */
  function CountPages(s: Sys, between: seq<seq<Step>>, keyId: Option<Key>, kr: Keyring): Count {
    if between == [] then Count(s, 0, 0, false)
    else
      var n := |between| - 1;
      OneCount(CountPages(s, between[..n], keyId, kr), between[n], keyId, kr)
  }

  /** What a count under way has reached: the rows counted lie between those that name the key now and at the start. */
  ghost predicate CountOk(s: Sys, c: Count, keyId: Option<Key>, kr: Keyring, allow: bool) {
    && SysOk(c.s, kr, allow) && Evolves(s.db, c.s.db, kr) && c.cursor <= c.s.db.next
    && (c.isDone ==> c.cursor == c.s.db.next)
    && Named(c.s.db, keyId, 0, c.cursor) <= c.named <= Named(s.db, keyId, 0, c.cursor)
  }

  lemma EvolvesReflexive(db: Db, kr: Keyring)
    requires IdsGiven(db)
    ensures Evolves(db, db, kr)
  {
  }

  lemma OneCountIsOk(s: Sys, c: Count, between: seq<Step>, keyId: Option<Key>, kr: Keyring, allow: bool)
    requires SysOk(s, kr, allow) && CountOk(s, c, keyId, kr, allow) && keyId != Some(kr.current)
    ensures CountOk(s, OneCount(c, between, keyId, kr), keyId, kr, allow)
  {
    var page := Steps(c.s, between, kr);
    var upTo := PageEnd(page.db, c.cursor, KEY_COUNT_PAGE);
    StepsKeepSysOk(c.s, between, kr, allow);
    StepsEvolve(c.s, between, kr, allow);
    EvolvesTransitive(s.db, c.s.db, page.db, kr);
    NamedShrinks(c.s.db, page.db, kr, keyId, 0, c.cursor);
    NamedShrinks(s.db, page.db, kr, keyId, c.cursor, upTo);
    NamedSplits(page.db, keyId, 0, c.cursor, upTo);
    NamedSplits(s.db, keyId, 0, c.cursor, upTo);
    ShortPageIsTheLast(page.db, c.cursor, KEY_COUNT_PAGE);
  }

  lemma {:induction false} CountsAreOk(
      s: Sys, between: seq<seq<Step>>, keyId: Option<Key>, kr: Keyring, allow: bool)
    requires SysOk(s, kr, allow) && keyId != Some(kr.current)
    ensures CountOk(s, CountPages(s, between, keyId, kr), keyId, kr, allow)
  {
    if between == [] {
      EvolvesReflexive(s.db, kr);
    } else {
      CountsAreOk(s, between[..|between| - 1], keyId, kr, allow);
      OneCountIsOk(
        s, CountPages(s, between[..|between| - 1], keyId, kr), between[|between| - 1], keyId, kr, allow);
    }
  }

  /**
   * The sum of a count that reached the table's end, with any steps between its pages, is no less than the rows that
   * name the old key at its end and no more than those that named it at its start.
   */
  lemma CountIsBetween(s: Sys, between: seq<seq<Step>>, keyId: Option<Key>, kr: Keyring, allow: bool)
    requires SysOk(s, kr, allow) && keyId != Some(kr.current) && CountPages(s, between, keyId, kr).isDone
    ensures
      var c := CountPages(s, between, keyId, kr);
      Named(c.s.db, keyId, 0, c.s.db.next) <= c.named <= Named(s.db, keyId, 0, s.db.next)
  {
    var c := CountPages(s, between, keyId, kr);
    CountsAreOk(s, between, keyId, kr, allow);
    NamedSplits(s.db, keyId, 0, s.db.next, c.cursor);
    NoneNamedPast(s.db, keyId, c.cursor);
  }

  ghost predicate Quiet(between: seq<seq<Step>>) {
    forall i :: 0 <= i < |between| ==> between[i] == []
  }

  /** With nothing between its pages a count is exact as far as it came, for every key and for none. */
  lemma {:induction false} QuietCountIsExact(s: Sys, between: seq<seq<Step>>, keyId: Option<Key>, kr: Keyring)
    requires IdsGiven(s.db) && Quiet(between)
    ensures
      var c := CountPages(s, between, keyId, kr);
      && c.s == s && c.cursor <= s.db.next && c.named == Named(s.db, keyId, 0, c.cursor)
      && (c.isDone ==> c.named == Named(s.db, keyId, 0, s.db.next))
  {
    if between != [] {
      var c := CountPages(s, between[..|between| - 1], keyId, kr);
      QuietCountIsExact(s, between[..|between| - 1], keyId, kr);
      assert between[|between| - 1] == [];
      var upTo := PageEnd(s.db, c.cursor, KEY_COUNT_PAGE);
      NamedSplits(s.db, keyId, 0, c.cursor, upTo);
      ShortPageIsTheLast(s.db, c.cursor, KEY_COUNT_PAGE);
    }
  }

  /** So a sum of none, for the old key and for none, makes dropping that key safe then and ever after. */
  lemma CountOfNoneMakesDroppingSafe(
      s: Sys, between: seq<seq<Step>>, later: seq<Step>, kr: Keyring, allow: bool, now: bool, id: Id)
    requires SysOk(s, kr, allow) && kr.previous.Some? && kr.previous.value != kr.current
    requires CountPages(s, between, None, kr).isDone && CountPages(s, between, None, kr).named == 0
    requires CountPages(s, between, kr.previous, kr).isDone && CountPages(s, between, kr.previous, kr).named == 0
    requires id in Steps(CountPages(s, between, None, kr).s, later, kr).db.rows
    ensures
      var row := Steps(CountPages(s, between, None, kr).s, later, kr).db.rows[id];
      Value(row, WithoutPrevious(kr), now) == Value(row, kr, now)
  {
    CountIsBetween(s, between, None, kr, allow);
    CountIsBetween(s, between, kr.previous, kr, allow);
    CountsAreOk(s, between, None, kr, allow);
    SamePages(s, between, None, kr.previous, kr);
    DroppingStaysSafe(CountPages(s, between, None, kr).s, later, kr, allow, now, id);
  }

  /** The pages read do not depend on the key counted. */
  lemma {:induction false} SamePages(
      s: Sys, between: seq<seq<Step>>, a: Option<Key>, b: Option<Key>, kr: Keyring)
    ensures
      var x, y := CountPages(s, between, a, kr), CountPages(s, between, b, kr);
      x.s == y.s && x.cursor == y.cursor && x.isDone == y.isDone
  {
    if between != [] {
      SamePages(s, between[..|between| - 1], a, b, kr);
    }
  }

  // ---------------------------------------------------------------- a count as one run of the others' steps

  function Flattened(between: seq<seq<Step>>): seq<Step> {
    if between == [] then [] else Flattened(between[..|between| - 1]) + between[|between| - 1]
  }

  /** A count writes nothing: it leaves what the steps between its pages leave. */
  lemma {:induction false} CountWritesNothing(s: Sys, between: seq<seq<Step>>, keyId: Option<Key>, kr: Keyring)
    ensures CountPages(s, between, keyId, kr).s == Steps(s, Flattened(between), kr)
  {
    if between != [] {
      var front := between[..|between| - 1];
      CountWritesNothing(s, front, keyId, kr);
      StepsAppend(s, Flattened(front), between[|between| - 1], kr);
    }
  }

  lemma NextCount(s: Sys, between: seq<seq<Step>>, n: nat, keyId: Option<Key>, kr: Keyring)
    requires n < |between|
    ensures
      CountPages(s, between[..n + 1], keyId, kr)
      == OneCount(CountPages(s, between[..n], keyId, kr), between[n], keyId, kr)
  {
    assert between[..n + 1][..n] == between[..n];
  }
}
