/**
 * Sealing and opening stored values (src/lib/credential-crypto.ts).
 *
 * AES-GCM is taken at its contract: a ciphertext opens under one key, one IV and one piece of
 * associated data, and then to the value that was sealed. A key is named by its public id.
 */
module Sealing {
  import opened Prelude

  const ORGANISATION_OWNER_KEY := "day0:organisation"

  /** A credential key, named by its id. */
  type Key = nat
  type Iv = nat

  /** The associated data a value is sealed with. */
  datatype Binding = OwnerBound(userId: string) | OrganisationBound | Unbound

  datatype Cipher = Cipher(key: Key, binding: Binding, iv: Iv, plaintext: string)

  datatype Sealed = Sealed(cipher: Cipher, iv: Iv, keyId: Key)

  datatype Keyring = Keyring(current: Key, previous: Option<Key>)

  predicate IsOrganisationOwnerKey(userId: string) {
    userId == ORGANISATION_OWNER_KEY
  }

  function BindingOf(userId: string): Binding {
    if IsOrganisationOwnerKey(userId) then OrganisationBound else OwnerBound(userId)
  }

  function Decrypt(c: Cipher, iv: Iv, key: Key, binding: Binding): Option<string> {
    if c.key == key && c.iv == iv && c.binding == binding then Some(c.plaintext) else None
  }

  /** Seal for a row's owner under the current key; the IV is whatever the random source gave. */
  function SealFor(plaintext: string, kr: Keyring, userId: string, iv: Iv): Sealed {
    Sealed(Cipher(kr.current, BindingOf(userId), iv, plaintext), iv, kr.current)
  }

  function KeyringKeys(kr: Keyring): seq<Key> {
    [kr.current] + if kr.previous.Some? then [kr.previous.value] else []
  }

  /** Every permitted key and binding in the order they are tried. */
  function Attempts(keys: seq<Key>, bindings: seq<Binding>): (r: seq<(Key, Binding)>)
    ensures forall k, b :: (k, b) in r <==> k in keys && b in bindings
  {
    if keys == [] then []
    else
      var first := Map(bindings, b => (keys[0], b));
      assert forall b <- bindings :: (keys[0], b) in first by {
        forall b | b in bindings ensures (keys[0], b) in first {
          var i :| 0 <= i < |bindings| && bindings[i] == b;
          assert first[i] == (keys[0], b);
        }
      }
      first + Attempts(keys[1..], bindings)
  }

  /** The first attempt that opens the value. */
  function FirstOpen(c: Cipher, iv: Iv, attempts: seq<(Key, Binding)>): Option<string> {
    if attempts == [] then None
    else
      var tried := Decrypt(c, iv, attempts[0].0, attempts[0].1);
      if tried.Some? then tried else FirstOpen(c, iv, attempts[1..])
  }

  /** What a stored value opens to for the row it stands on; None where nothing permitted opens it. */
  function OpenOwned(c: Cipher, iv: Iv, userId: string, keyId: Option<Key>, kr: Keyring, allowUnbound: bool)
    : Option<string>
  {
    if keyId.Some? then
      if keyId.value in KeyringKeys(kr) then Decrypt(c, iv, keyId.value, BindingOf(userId)) else None
    else
      var bindings :=
        if allowUnbound && !IsOrganisationOwnerKey(userId) then [BindingOf(userId), Unbound] else [BindingOf(userId)];
      FirstOpen(c, iv, Attempts(KeyringKeys(kr), bindings))
  }

  /** The rows that open, said without the order of the attempts. */
  predicate Opens(c: Cipher, iv: Iv, userId: string, keyId: Option<Key>, kr: Keyring, allowUnbound: bool) {
    && c.iv == iv
    && c.key in KeyringKeys(kr)
    && (keyId.Some? ==> c.key == keyId.value)
    && (|| c.binding == BindingOf(userId)
        || (keyId.None? && allowUnbound && !IsOrganisationOwnerKey(userId) && c.binding == Unbound))
  }

  lemma {:induction false} FirstOpenFinds(c: Cipher, iv: Iv, attempts: seq<(Key, Binding)>)
    ensures
      FirstOpen(c, iv, attempts)
      == (if c.iv == iv && (c.key, c.binding) in attempts then Some(c.plaintext) else None)
  {
    if attempts != [] {
      FirstOpenFinds(c, iv, attempts[1..]);
      assert attempts == [attempts[0]] + attempts[1..];
    }
  }

  /**
   * A keyed row opens with its own key and owner only, an unkeyed one with any held key, and never to another value.
   */
  lemma OpensExactly(c: Cipher, iv: Iv, userId: string, keyId: Option<Key>, kr: Keyring, allowUnbound: bool)
    ensures
      OpenOwned(c, iv, userId, keyId, kr, allowUnbound)
      == (if Opens(c, iv, userId, keyId, kr, allowUnbound) then Some(c.plaintext) else None)
  {
    if keyId.None? {
      var bindings :=
        if allowUnbound && !IsOrganisationOwnerKey(userId) then [BindingOf(userId), Unbound] else [BindingOf(userId)];
      FirstOpenFinds(c, iv, Attempts(KeyringKeys(kr), bindings));
    }
  }

  /** A value sealed for one row opens on another row exactly when the two share an owner key. */
  lemma SealOpensForItsOwnerOnly(
      plaintext: string, kr: Keyring, userId: string, iv: Iv, other: string, allowUnbound: bool)
    ensures
      var s := SealFor(plaintext, kr, userId, iv);
      OpenOwned(s.cipher, s.iv, other, Some(s.keyId), kr, allowUnbound)
      == (if other == userId then Some(plaintext) else None)
  {
    var s := SealFor(plaintext, kr, userId, iv);
    OpensExactly(s.cipher, s.iv, other, Some(s.keyId), kr, allowUnbound);
  }
}
