/**
 * What a deletion takes from an owner, what its card says it takes, and the identities it keeps for another owner's
 * employee.
 */
module OwnerPurge {
  import opened Prelude
  import opened Credentials
  import opened CredentialInvariants

  const OWNED_CREDENTIAL_LIMIT: nat := 1000
  const KEPT_IDENTITY_SCAN_LIMIT: nat := 1000

  /** A card as these reads see it, in table order. */
  datatype Card = Card(
    agentId: nat, credentialId: Option<Id>, organisationConnectionId: Option<nat>, clientSecretCredentialId: Option<Id>)

  datatype Office = Office(cards: seq<Card>, owners: map<nat, string>)

  function OwnedBelow(db: Db, userId: string, upTo: Id): (r: seq<Id>)
    ensures forall id :: id in r <==> id < upTo && id in db.rows && db.rows[id].userId == userId
    ensures forall i :: 0 <= i < |r| ==> r[i] < upTo
    ensures forall i, j :: 0 <= i < j < |r| ==> r[i] < r[j]
  {
    if upTo == 0 then []
    else
      OwnedBelow(db, userId, upTo - 1)
      + if upTo - 1 in db.rows && db.rows[upTo - 1].userId == userId then [upTo - 1] else []
  }

  /** The rows of an owner as one bounded read returns them; more than the limit means there are too many. */
  function OwnedRows(db: Db, userId: string): seq<Id> {
    Take(OwnedBelow(db, userId, db.next), OWNED_CREDENTIAL_LIMIT + 1)
  }

  /** Bound elsewhere: some other owner's employee has a card that names the row, as token or as app secret. */
  predicate BoundForAnotherOwner(office: Office, userId: string, id: Id, issuer: Issuer) {
    var byCredential := Take(Filter(office.cards, (c: Card) => c.credentialId == Some(id)), KEPT_IDENTITY_SCAN_LIMIT);
    var byConnection :=
      if issuer.organisationConnectionId.None? || !issuer.appCreated then []
      else
        Take(Filter(office.cards, (c: Card) => c.organisationConnectionId == issuer.organisationConnectionId),
             KEPT_IDENTITY_SCAN_LIMIT);
    var binders := byCredential + Filter(byConnection, (c: Card) => c.clientSecretCredentialId == Some(id));
    exists c <- binders :: c.agentId in office.owners && office.owners[c.agentId] != userId
  }

  /** A token obtained through IT's connection, and bound to an employee of some other owner. */
  predicate IsKeptToken(db: Db, office: Office, userId: string, id: Id) {
    && id in db.rows && db.rows[id].issuedBy.Some? && db.rows[id].issuedBy.value.organisationConnectionId.Some?
    && BoundForAnotherOwner(office, userId, id, db.rows[id].issuedBy.value)
  }

  /** The identity a token belongs to: token, refresh pair and client secret. */
  function KeptWith(row: Row, id: Id): set<Id> {
    {id}
    + (if row.refreshCredentialId.Some? then {row.refreshCredentialId.value} else {})
    + (if row.issuedBy.Some? && row.issuedBy.value.clientSecretCredentialId.Some?
       then {row.issuedBy.value.clientSecretCredentialId.value} else {})
  }

  function IdentitiesKept(db: Db, office: Office, userId: string, ids: seq<Id>): set<Id> {
    if ids == [] then {}
    else
      var last := ids[|ids| - 1];
      IdentitiesKept(db, office, userId, ids[..|ids| - 1])
      + if IsKeptToken(db, office, userId, last) then KeptWith(db.rows[last], last) else {}
  }

  /** A row the deletion's card reads: it still holds its ciphertext and is not held for its vendor. */
  predicate IsLive(row: Row) {
    row.ciphertext.Some? && !AwaitsRevocation(row)
  }

  predicate HoldsPurgeable(db: Db, office: Office, userId: string) {
    var live := Filter(OwnedRows(db, userId), (id: Id) => id in db.rows && IsLive(db.rows[id]));
    live != [] && exists id <- live :: id !in IdentitiesKept(db, office, userId, live)
  }

  /** The purge's loop: each row read, in order, is purged unless it is kept. */
  function PurgeRows(db: Db, ids: seq<Id>, kept: set<Id>, now: Time): (Db, nat) {
    if ids == [] then (db, 0)
    else
      var (before, purged) := PurgeRows(db, ids[..|ids| - 1], kept, now);
      var last := ids[|ids| - 1];
      if last in kept || last !in db.rows then (before, purged)
      else (before.(rows := before.rows[last := Purged(db.rows[last], now)]), purged + 1)
  }

  lemma PurgeRowsNext(db: Db, ids: seq<Id>, i: nat, kept: set<Id>, now: Time)
    requires i < |ids|
    ensures
      var (before, purged) := PurgeRows(db, ids[..i], kept, now);
      PurgeRows(db, ids[..i + 1], kept, now)
      == if ids[i] in kept || ids[i] !in db.rows then (before, purged)
         else (before.(rows := before.rows[ids[i] := Purged(db.rows[ids[i]], now)]), purged + 1)
  {
    assert ids[..i + 1][..i] == ids[..i];
  }

  function PurgeOwned(db: Db, office: Office, userId: string, now: Time): Result<(Db, nat), Error> {
    var ids := OwnedRows(db, userId);
    if |ids| > OWNED_CREDENTIAL_LIMIT then Err(TooManyCredentials)
    else Ok(PurgeRows(db, ids, IdentitiesKept(db, office, userId, ids), now))
  }

  // ---------------------------------------------------------------- the kept identities

  /**
   * A row is kept exactly when some token read is kept for another owner, and the row is that token, its pair or its
   * secret.
   */
  lemma {:induction false} KeptExactly(db: Db, office: Office, userId: string, ids: seq<Id>, id: Id)
    ensures
      id in IdentitiesKept(db, office, userId, ids)
      <==> exists token <- ids :: IsKeptToken(db, office, userId, token) && id in KeptWith(db.rows[token], token)
  {
    if ids != [] {
      KeptExactly(db, office, userId, ids[..|ids| - 1], id);
      assert ids == ids[..|ids| - 1] + [ids[|ids| - 1]];
    }
  }

  /** The kept set grows with the rows it is computed from. */
  lemma KeptGrows(db: Db, office: Office, userId: string, fewer: seq<Id>, more: seq<Id>)
    requires forall id <- fewer :: id in more
    ensures IdentitiesKept(db, office, userId, fewer) <= IdentitiesKept(db, office, userId, more)
  {
    forall id | id in IdentitiesKept(db, office, userId, fewer)
      ensures id in IdentitiesKept(db, office, userId, more)
    {
      KeptExactly(db, office, userId, fewer, id);
      KeptExactly(db, office, userId, more, id);
    }
  }

  // ---------------------------------------------------------------- what the purge takes

  lemma {:induction false} PurgedExactly(db: Db, ids: seq<Id>, kept: set<Id>, now: Time, id: Id)
    requires id in db.rows && forall i, j :: 0 <= i < j < |ids| ==> ids[i] < ids[j]
    ensures PurgeRows(db, ids, kept, now).0.rows.Keys == db.rows.Keys
    ensures
      var after := PurgeRows(db, ids, kept, now).0;
      after.rows[id] == (if id in ids && id !in kept then Purged(db.rows[id], now) else db.rows[id])
  {
    if ids != [] {
      PurgedExactly(db, ids[..|ids| - 1], kept, now, id);
      assert ids == ids[..|ids| - 1] + [ids[|ids| - 1]];
    }
  }

  lemma PurgedEmpties(row: Row, now: Time)
    requires row.ciphertext.Some?
    ensures Purged(row, now).ciphertext.None? <==> !AwaitsRevocation(row)
    ensures AwaitsRevocation(row) ==>
      Purged(row, now).ciphertext == row.ciphertext && Purged(row, now).iv == row.iv
    ensures Purged(row, now).revokedAt.Some?
  {
  }

  /**
   * Within the owner's limit the purge empties exactly the owner's values neither held for a vendor nor kept for
   * another owner.
   */
  lemma PurgeTakesExactly(db: Db, office: Office, userId: string, now: Time, id: Id)
    requires PurgeOwned(db, office, userId, now).Ok? && id in db.rows && id < db.next && db.rows[id].ciphertext.Some?
    ensures
      var after := PurgeOwned(db, office, userId, now).value.0;
      && id in after.rows
      && (after.rows[id].ciphertext.None? <==>
            && db.rows[id].userId == userId && !AwaitsRevocation(db.rows[id])
            && id !in IdentitiesKept(db, office, userId, OwnedRows(db, userId)))
      && (after.rows[id].ciphertext.Some? ==>
            after.rows[id].ciphertext == db.rows[id].ciphertext && after.rows[id].iv == db.rows[id].iv)
  {
    var ids := OwnedRows(db, userId);
    assert ids == OwnedBelow(db, userId, db.next);
    PurgedExactly(db, ids, IdentitiesKept(db, office, userId, ids), now, id);
    PurgedEmpties(db.rows[id], now);
    assert id in ids <==> db.rows[id].userId == userId;
  }

  /** The card never hides a loss: when it says nothing would be taken, the purge takes no stored value from anyone. */
  lemma CardHidesNoLoss(db: Db, office: Office, userId: string, now: Time, id: Id)
    requires |OwnedRows(db, userId)| <= OWNED_CREDENTIAL_LIMIT && id in db.rows && id < db.next
    requires HoldsValue(db.rows[id])
    ensures PurgeOwned(db, office, userId, now).Ok?
    ensures !HoldsPurgeable(db, office, userId) ==>
      var after := PurgeOwned(db, office, userId, now).value.0;
      id in after.rows && after.rows[id].ciphertext == db.rows[id].ciphertext && after.rows[id].iv == db.rows[id].iv
  {
    var ids := OwnedRows(db, userId);
    assert ids == OwnedBelow(db, userId, db.next);
    var live := Filter(ids, (i: Id) => i in db.rows && IsLive(db.rows[i]));
    PurgeTakesExactly(db, office, userId, now, id);
    KeptGrows(db, office, userId, live, ids);
    if id in live { assert live != []; }
  }

  // ---------------------------------------------------------------- the same, said of cards and owners alone

  /** The places before `i` of the cards that satisfy `p`. */
  function Before(cards: seq<Card>, i: nat, p: Card -> bool): set<nat>
    requires i <= |cards|
  {
    set j: nat | j < i && p(cards[j])
  }

  lemma {:induction false} FilterLast<T(!new)>(s: seq<T>, last: T, p: T -> bool)
    ensures Filter(s + [last], p) == Filter(s, p) + if p(last) then [last] else []
  {
    if s == [] {
      assert [] + [last] == [last] && [last][1..] == [];
    } else {
      FilterLast(s[1..], last, p);
      assert (s + [last])[0] == s[0] && (s + [last])[1..] == s[1..] + [last];
    }
  }

  lemma NoneBefore(cards: seq<Card>, p: Card -> bool)
    ensures Before(cards, 0, p) == {}
  {
  }

  lemma BeforeNext(cards: seq<Card>, i: nat, p: Card -> bool)
    requires i < |cards|
    ensures Before(cards[..i], i, p) == Before(cards, i, p)
    ensures |Before(cards, i + 1, p)| == |Before(cards, i, p)| + if p(cards[i]) then 1 else 0
  {
    assert Before(cards, i + 1, p) == Before(cards, i, p) + if p(cards[i]) then {i} else {};
  }

  lemma {:induction false} FilterCounts(cards: seq<Card>, p: Card -> bool)
    ensures |Filter(cards, p)| == |Before(cards, |cards|, p)|
  {
    hide Before;
    if cards == [] {
      NoneBefore(cards, p);
    } else {
      var n := |cards| - 1;
      FilterCounts(cards[..n], p);
      FilterLast(cards[..n], cards[n], p);
      BeforeNext(cards, n, p);
      assert cards == cards[..n] + [cards[n]];
    }
  }

  /** The card at a place is among those a bounded read takes: fewer than the bound of its kind stand before it. */
  predicate IsTaken(cards: seq<Card>, i: nat, p: Card -> bool, n: nat) {
    i < |cards| && p(cards[i]) && |Before(cards, i, p)| < n
  }

  lemma TakenEarlier(cards: seq<Card>, front: seq<Card>, i: nat, p: Card -> bool, n: nat)
    requires front <= cards && i < |front|
    ensures IsTaken(cards, i, p, n) <==> IsTaken(front, i, p, n)
  {
    assert Before(cards, i, p) == Before(front, i, p);
  }

  lemma TakeLast<T>(s: seq<T>, last: T, n: nat, x: T)
    ensures x in Take(s + [last], n) <==> x in Take(s, n) || (x == last && |s| < n)
  {
    if n <= |s| {
      assert (s + [last])[..n] == s[..n];
    }
  }

  /** A bounded read returns exactly the cards of its kind behind fewer than the bound. */
  lemma {:induction false} TakesExactly(cards: seq<Card>, p: Card -> bool, n: nat, card: Card)
    ensures card in Take(Filter(cards, p), n) <==> exists i: nat :: IsTaken(cards, i, p, n) && cards[i] == card
  {
    if cards != [] {
      var front, last := cards[..|cards| - 1], cards[|cards| - 1];
      assert cards == front + [last];
      TakesExactly(front, p, n, card);
      FilterLast(front, last, p);
      FilterCounts(front, p);
      TakeLast(Filter(front, p), last, n, card);
      assert Before(cards, |front|, p) == Before(front, |front|, p);
      LastTaken(cards, p, n, card);
    }
  }

  lemma LastTaken(cards: seq<Card>, p: Card -> bool, n: nat, card: Card)
    requires cards != []
    ensures
      var front := cards[..|cards| - 1];
      (exists i: nat :: IsTaken(cards, i, p, n) && cards[i] == card) <==>
        || (exists i: nat :: IsTaken(front, i, p, n) && front[i] == card)
        || (IsTaken(cards, |front|, p, n) && cards[|front|] == card)
  {
    var front := cards[..|cards| - 1];
    if i: nat :| IsTaken(cards, i, p, n) && cards[i] == card {
      if i < |front| { TakenEarlier(cards, front, i, p, n); }
    }
    if i: nat :| IsTaken(front, i, p, n) && front[i] == card {
      TakenEarlier(cards, front, i, p, n);
    }
  }

  /** The card names the row as its credential, behind fewer than the read's bound of such cards. */
  predicate NamesAsToken(cards: seq<Card>, i: nat, id: Id) {
    && i < |cards| && cards[i].credentialId == Some(id)
    && |set j: nat | j < i && cards[j].credentialId == Some(id)| < KEPT_IDENTITY_SCAN_LIMIT
  }

  /** The card names it as its app's secret, behind fewer than the bound of cards of its connection. */
  predicate NamesAsSecret(cards: seq<Card>, i: nat, id: Id, issuer: Issuer) {
    && i < |cards| && issuer.appCreated && issuer.organisationConnectionId.Some?
    && cards[i].organisationConnectionId == issuer.organisationConnectionId
    && cards[i].clientSecretCredentialId == Some(id)
    && |set j: nat | j < i && cards[j].organisationConnectionId == issuer.organisationConnectionId|
         < KEPT_IDENTITY_SCAN_LIMIT
  }

  /** The card at a place binds a row to an employee that some other owner has. */
  predicate BindsElsewhere(office: Office, userId: string, i: nat, id: Id, issuer: Issuer) {
    && i < |office.cards| && office.cards[i].agentId in office.owners
    && office.owners[office.cards[i].agentId] != userId
    && (NamesAsToken(office.cards, i, id) || NamesAsSecret(office.cards, i, id, issuer))
  }

  lemma TokenTaken(cards: seq<Card>, i: nat, id: Id, p: Card -> bool)
    requires forall c: Card :: p(c) <==> c.credentialId == Some(id)
    ensures NamesAsToken(cards, i, id) <==> IsTaken(cards, i, p, KEPT_IDENTITY_SCAN_LIMIT)
  {
    if i < |cards| {
      assert Before(cards, i, p) == set j: nat | j < i && cards[j].credentialId == Some(id);
    }
  }

  lemma SecretTaken(cards: seq<Card>, i: nat, id: Id, issuer: Issuer, p: Card -> bool)
    requires forall c: Card :: p(c) <==> c.organisationConnectionId == issuer.organisationConnectionId
    ensures
      NamesAsSecret(cards, i, id, issuer) <==>
      && issuer.appCreated && issuer.organisationConnectionId.Some?
      && IsTaken(cards, i, p, KEPT_IDENTITY_SCAN_LIMIT) && cards[i].clientSecretCredentialId == Some(id)
  {
    if i < |cards| {
      assert
        Before(cards, i, p) ==
        set j: nat | j < i && cards[j].organisationConnectionId == issuer.organisationConnectionId;
    }
  }

  lemma BoundExactly(office: Office, userId: string, id: Id, issuer: Issuer)
    ensures
      BoundForAnotherOwner(office, userId, id, issuer) <==>
      exists i: nat :: BindsElsewhere(office, userId, i, id, issuer)
  {
    var ofToken := (c: Card) => c.credentialId == Some(id);
    var ofConnection := (c: Card) => c.organisationConnectionId == issuer.organisationConnectionId;
    var n := KEPT_IDENTITY_SCAN_LIMIT;
    if BoundForAnotherOwner(office, userId, id, issuer) {
      var byToken, byConnection := Take(Filter(office.cards, ofToken), n), Take(Filter(office.cards, ofConnection), n);
      var card: Card :|
        && card.agentId in office.owners && office.owners[card.agentId] != userId
        && (card in byToken ||
            (&& issuer.appCreated && issuer.organisationConnectionId.Some?
             && card in byConnection && card.clientSecretCredentialId == Some(id)));
      TakesExactly(office.cards, ofToken, n, card);
      TakesExactly(office.cards, ofConnection, n, card);
      if card in byToken {
        var i: nat :| IsTaken(office.cards, i, ofToken, n) && office.cards[i] == card;
        TokenTaken(office.cards, i, id, ofToken);
        assert BindsElsewhere(office, userId, i, id, issuer);
      } else {
        var i: nat :| IsTaken(office.cards, i, ofConnection, n) && office.cards[i] == card;
        SecretTaken(office.cards, i, id, issuer, ofConnection);
        assert BindsElsewhere(office, userId, i, id, issuer);
      }
    }
    if i: nat :| BindsElsewhere(office, userId, i, id, issuer) {
      TokenTaken(office.cards, i, id, ofToken);
      SecretTaken(office.cards, i, id, issuer, ofConnection);
      TakesExactly(office.cards, ofToken, n, office.cards[i]);
      TakesExactly(office.cards, ofConnection, n, office.cards[i]);
    }
  }

  /**
   * A card keeps a row from its owner's purge: it binds one of the owner's tokens, issued through a connection, to an
   * employee some other owner has; and the row is that token, its refresh pair or its app's secret.
   */
  predicate Spares(db: Db, office: Office, userId: string, token: Id, i: nat, id: Id) {
    && token in db.rows && db.rows[token].userId == userId
    && db.rows[token].issuedBy.Some? && db.rows[token].issuedBy.value.organisationConnectionId.Some?
    && BindsElsewhere(office, userId, i, token, db.rows[token].issuedBy.value)
    && (|| id == token
        || db.rows[token].refreshCredentialId == Some(id)
        || db.rows[token].issuedBy.value.clientSecretCredentialId == Some(id))
  }

  ghost predicate IsSpared(db: Db, office: Office, userId: string, id: Id) {
    exists token: Id, i: nat :: Spares(db, office, userId, token, i, id)
  }

  /** The same by one of the tokens alone. */
  ghost predicate SparedBy(db: Db, office: Office, userId: string, token: Id, id: Id) {
    exists i: nat :: Spares(db, office, userId, token, i, id)
  }

  lemma KeptTokenSpares(db: Db, office: Office, userId: string, token: Id, id: Id)
    requires token in db.rows && db.rows[token].userId == userId
    ensures
      SparedBy(db, office, userId, token, id) <==>
      IsKeptToken(db, office, userId, token) && id in KeptWith(db.rows[token], token)
  {
    if db.rows[token].issuedBy.Some? {
      var issuer := db.rows[token].issuedBy.value;
      BoundExactly(office, userId, token, issuer);
      if IsKeptToken(db, office, userId, token) && id in KeptWith(db.rows[token], token) {
        var i: nat :| BindsElsewhere(office, userId, i, token, issuer);
        assert Spares(db, office, userId, token, i, id);
      }
    }
  }

  lemma KeptIsSpared(db: Db, office: Office, userId: string, ids: seq<Id>, id: Id)
    requires forall token <- ids :: token in db.rows && db.rows[token].userId == userId
    ensures
      id in IdentitiesKept(db, office, userId, ids) <==> exists token <- ids :: SparedBy(db, office, userId, token, id)
  {
    KeptExactly(db, office, userId, ids, id);
    forall token | token in ids
      ensures
        SparedBy(db, office, userId, token, id) <==>
        IsKeptToken(db, office, userId, token) && id in KeptWith(db.rows[token], token)
    {
      KeptTokenSpares(db, office, userId, token, id);
    }
  }

  function Owned(db: Db, userId: string): set<Id> {
    set id <- db.rows | db.rows[id].userId == userId
  }

  lemma OwnedRowsAre(db: Db, userId: string)
    requires IdsGiven(db)
    ensures |OwnedRows(db, userId)| <= OWNED_CREDENTIAL_LIMIT <==> |Owned(db, userId)| <= OWNED_CREDENTIAL_LIMIT
    ensures |Owned(db, userId)| <= OWNED_CREDENTIAL_LIMIT ==>
      forall id :: id in OwnedRows(db, userId) <==> id in Owned(db, userId)
  {
    SameSize(OwnedBelow(db, userId, db.next), Owned(db, userId));
  }

  /** A row as a purge leaves it: revoked, at the first time, and with no value unless held for its vendor. */
  predicate IsPurged(row: Row, after: Row, now: Time) {
    after == row.(
      revokedAt := Some(row.revokedAt.GetOr(now)),
      ciphertext := if AwaitsRevocation(row) then row.ciphertext else None,
      iv := if AwaitsRevocation(row) then row.iv else None)
  }

  lemma SparedOrNot(db: Db, office: Office, userId: string, id: Id)
    requires IdsGiven(db) && |Owned(db, userId)| <= OWNED_CREDENTIAL_LIMIT
    ensures id in IdentitiesKept(db, office, userId, OwnedRows(db, userId)) <==> IsSpared(db, office, userId, id)
  {
    OwnedRowsAre(db, userId);
    KeptIsSpared(db, office, userId, OwnedRows(db, userId), id);
    if token: Id, i: nat :| Spares(db, office, userId, token, i, id) {
      assert token in Owned(db, userId) && SparedBy(db, office, userId, token, id);
    }
    if token :| token in OwnedRows(db, userId) && SparedBy(db, office, userId, token, id) {
      var i: nat :| Spares(db, office, userId, token, i, id);
    }
  }

  /** The rows of the owner that no card keeps. */
  ghost function Taken(db: Db, office: Office, userId: string): set<Id> {
    set id <- db.rows | db.rows[id].userId == userId && !IsSpared(db, office, userId, id)
  }

  function NotKept(ids: seq<Id>, kept: set<Id>): set<Id> {
    set id <- ids | id !in kept
  }

  lemma NextNotKept(front: seq<Id>, last: Id, kept: set<Id>)
    requires last !in front
    ensures |NotKept(front + [last], kept)| == |NotKept(front, kept)| + if last in kept then 0 else 1
  {
    assert NotKept(front + [last], kept) == NotKept(front, kept) + if last in kept then {} else {last};
  }

  lemma {:induction false} PurgeCounts(db: Db, ids: seq<Id>, kept: set<Id>, now: Time)
    requires forall i, j :: 0 <= i < j < |ids| ==> ids[i] < ids[j]
    requires forall id <- ids :: id in db.rows
    ensures PurgeRows(db, ids, kept, now).1 == |NotKept(ids, kept)|
    ensures
      var after := PurgeRows(db, ids, kept, now).0;
      after == db.(rows := after.rows) && after.rows.Keys == db.rows.Keys
  {
    hide NotKept;
    if ids == [] {
      NoneNotKept(kept);
    } else {
      var front, last := ids[..|ids| - 1], ids[|ids| - 1];
      assert ids == front + [last];
      PurgeCounts(db, front, kept, now);
      NextNotKept(front, last, kept);
      assert last in ids;
    }
  }

  lemma NoneNotKept(kept: set<Id>)
    ensures NotKept([], kept) == {}
  {
  }

  lemma PurgedLeaves(row: Row, now: Time)
    ensures IsPurged(row, Purged(row, now), now)
  {
    if row.ciphertext.None? && row.iv.None? && row.revokedAt.Some? {
      assert Purged(row, now) == row;
    }
  }

  lemma PurgedOrSpared(db: Db, office: Office, userId: string, now: Time, id: Id)
    requires IdsGiven(db) && PurgeOwned(db, office, userId, now).Ok? && id in db.rows
    ensures
      var after := PurgeOwned(db, office, userId, now).value.0;
      && id in after.rows
      && if id in Taken(db, office, userId) then IsPurged(db.rows[id], after.rows[id], now)
         else after.rows[id] == db.rows[id]
  {
    OwnedRowsAre(db, userId);
    var ids := OwnedRows(db, userId);
    assert ids == OwnedBelow(db, userId, db.next);
    SparedOrNot(db, office, userId, id);
    PurgedExactly(db, ids, IdentitiesKept(db, office, userId, ids), now, id);
    PurgedLeaves(db.rows[id], now);
  }

  lemma PurgeTotal(db: Db, office: Office, userId: string, now: Time)
    requires IdsGiven(db) && PurgeOwned(db, office, userId, now).Ok?
    ensures
      var (after, purged) := PurgeOwned(db, office, userId, now).value;
      && purged == |Taken(db, office, userId)|
      && after == db.(rows := after.rows) && after.rows.Keys == db.rows.Keys
  {
    OwnedRowsAre(db, userId);
    var ids := OwnedRows(db, userId);
    var kept := IdentitiesKept(db, office, userId, ids);
    assert ids == OwnedBelow(db, userId, db.next);
    PurgeCounts(db, ids, kept, now);
    forall id | id in db.rows
      ensures id in kept <==> IsSpared(db, office, userId, id)
    {
      SparedOrNot(db, office, userId, id);
    }
    assert NotKept(ids, kept) == Taken(db, office, userId);
  }

  /**
   * The purge is refused exactly past the owner's limit. Else it purges each of the owner's rows but those a card keeps
   * for an employee some other owner has, counts them, and changes nothing else.
   */
  lemma PurgeSparesAnothersIdentities(db: Db, office: Office, userId: string, now: Time)
    requires IdsGiven(db)
    ensures PurgeOwned(db, office, userId, now).Ok? <==> |Owned(db, userId)| <= OWNED_CREDENTIAL_LIMIT
    ensures PurgeOwned(db, office, userId, now).Ok? ==>
      var (after, purged) := PurgeOwned(db, office, userId, now).value;
      && purged == |Taken(db, office, userId)|
      && after == db.(rows := after.rows) && after.rows.Keys == db.rows.Keys
      && forall id <- db.rows ::
          if db.rows[id].userId == userId && !IsSpared(db, office, userId, id)
          then IsPurged(db.rows[id], after.rows[id], now) else after.rows[id] == db.rows[id]
  {
    OwnedRowsAre(db, userId);
    if PurgeOwned(db, office, userId, now).Ok? {
      var after := PurgeOwned(db, office, userId, now).value.0;
      PurgeTotal(db, office, userId, now);
      hide IsPurged, IsSpared, PurgeRows;
      forall id | id in db.rows
        ensures
          if db.rows[id].userId == userId && !IsSpared(db, office, userId, id)
          then IsPurged(db.rows[id], after.rows[id], now) else after.rows[id] == db.rows[id]
      {
        PurgedOrSpared(db, office, userId, now, id);
      }
    }
  }

  /** The rows the card reads. */
  function LiveRows(db: Db, userId: string): seq<Id> {
    Filter(OwnedRows(db, userId), (id: Id) => id in db.rows && IsLive(db.rows[id]))
  }

  lemma LiveRowsAre(db: Db, userId: string)
    requires IdsGiven(db) && |Owned(db, userId)| <= OWNED_CREDENTIAL_LIMIT
    ensures
      forall id ::
        id in LiveRows(db, userId) <==>
        && id in db.rows && db.rows[id].userId == userId
        && db.rows[id].ciphertext.Some? && !AwaitsRevocation(db.rows[id])
  {
    OwnedRowsAre(db, userId);
  }

  /** A card keeps the row by a token that is live too. */
  ghost predicate SparedByLive(db: Db, office: Office, userId: string, id: Id) {
    exists token <- db.rows ::
      db.rows[token].ciphertext.Some? && !AwaitsRevocation(db.rows[token]) && SparedBy(db, office, userId, token, id)
  }

  lemma KeptOfLive(db: Db, office: Office, userId: string, id: Id)
    requires IdsGiven(db) && |Owned(db, userId)| <= OWNED_CREDENTIAL_LIMIT
    ensures
      id in IdentitiesKept(db, office, userId, LiveRows(db, userId)) <==> SparedByLive(db, office, userId, id)
  {
    LiveRowsAre(db, userId);
    KeptIsSpared(db, office, userId, LiveRows(db, userId), id);
    hide IdentitiesKept, LiveRows;
    if token :|
      && token in db.rows && db.rows[token].ciphertext.Some? && !AwaitsRevocation(db.rows[token])
      && SparedBy(db, office, userId, token, id)
    {
      var i: nat :| Spares(db, office, userId, token, i, id);
    }
  }

  /**
   * Within the limit the card says a value would be taken exactly when one of the owner's is held, not for its vendor,
   * and no card keeps it by a token of which the same is true.
   */
  lemma CardSaysExactly(db: Db, office: Office, userId: string)
    requires IdsGiven(db) && |Owned(db, userId)| <= OWNED_CREDENTIAL_LIMIT
    ensures
      HoldsPurgeable(db, office, userId) <==>
      exists id <- db.rows ::
        && db.rows[id].userId == userId && db.rows[id].ciphertext.Some? && !AwaitsRevocation(db.rows[id])
        && !SparedByLive(db, office, userId, id)
  {
    LiveRowsAre(db, userId);
    CardReads(db, office, userId);
    hide HoldsPurgeable, IdentitiesKept, LiveRows, SparedByLive;
    forall id | id in db.rows
      ensures id in IdentitiesKept(db, office, userId, LiveRows(db, userId)) <==> SparedByLive(db, office, userId, id)
    {
      KeptOfLive(db, office, userId, id);
    }
  }

  lemma CardReads(db: Db, office: Office, userId: string)
    ensures
      HoldsPurgeable(db, office, userId) <==>
      exists id <- LiveRows(db, userId) :: id !in IdentitiesKept(db, office, userId, LiveRows(db, userId))
  {
    var live := LiveRows(db, userId);
    if id :| id in live && id !in IdentitiesKept(db, office, userId, live) { assert live != []; }
  }
}
