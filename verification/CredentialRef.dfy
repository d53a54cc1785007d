/** Source refs of page-derived credentials, and the range a page's refs are read by (src/docs/credential-ref.ts). */
module CredentialRef {
  import opened Prelude

  const SEPARATOR := "#credential="
  const FINGERPRINT_LENGTH: nat := 32
  const RANGE_END: char := '\U{FFFF}'

  predicate IsLowerHex(c: char) {
    '0' <= c <= '9' || 'a' <= c <= 'f'
  }

  predicate IsFingerprint(s: string) {
    |s| == FINGERPRINT_LENGTH && forall i :: 0 <= i < |s| ==> IsLowerHex(s[i])
  }

  /** Whether `part` stands in `s` at `at`. */
  predicate OccursAt(s: string, part: string, at: nat) {
    at + |part| <= |s| && s[at..at + |part|] == part
  }

  /** The last place of the separator before `below`, as `lastIndexOf` finds it. */
  function LastSeparator(ref: string, below: nat): (r: Option<nat>)
    ensures r.Some? ==> r.value < below && OccursAt(ref, SEPARATOR, r.value)
    ensures forall at: nat :: at < below && OccursAt(ref, SEPARATOR, at) ==> r.Some? && at <= r.value
  {
    if below == 0 then None
    else if OccursAt(ref, SEPARATOR, below - 1) then Some(below - 1)
    else LastSeparator(ref, below - 1)
  }

  function SourceRef(pageRef: string, fingerprint: string): string {
    pageRef + SEPARATOR + fingerprint
  }

  function PageRef(ref: string): string {
    var at := LastSeparator(ref, |ref|);
    if at.None? then ref else ref[..at.value]
  }

  predicate IsValueKeyed(ref: string) {
    var at := LastSeparator(ref, |ref|);
    at.Some? && IsFingerprint(ref[at.value + |SEPARATOR|..])
  }

  /** Index order on strings: by the first character that differs, a prefix first. */
  predicate AtMost(a: string, b: string) {
    a == [] || (b != [] && (a[0] < b[0] || (a[0] == b[0] && AtMost(a[1..], b[1..]))))
  }

  /** What one read of a page's refs returns: the page's own ref, and the range of refs extending it. */
  predicate ReadForPage(ref: string, pageRef: string) {
    && (|| ref == pageRef
        || (AtMost(pageRef + SEPARATOR, ref) && AtMost(ref, pageRef + SEPARATOR + [RANGE_END])))
    && PageRef(ref) == pageRef
  }

  /** A suffix that starts below the range's last character, as a fingerprint and a position do. */
  predicate PlainSuffix(ref: string) {
    var at := LastSeparator(ref, |ref|);
    at.Some? && at.value + |SEPARATOR| < |ref| ==> ref[at.value + |SEPARATOR|] < RANGE_END
  }

  lemma {:induction false} AtMostAfterPrefix(p: string, a: string, b: string)
    ensures AtMost(p + a, p + b) == AtMost(a, b)
  {
    if p == [] {
      assert p + a == a && p + b == b;
    } else {
      assert (p + a)[1..] == p[1..] + a && (p + b)[1..] == p[1..] + b;
      AtMostAfterPrefix(p[1..], a, b);
    }
  }

  /** A fingerprint holds no separator, so the page and the fingerprint of a ref come back from it. */
  lemma SourceRefRoundTrip(pageRef: string, fingerprint: string)
    requires IsFingerprint(fingerprint)
    ensures PageRef(SourceRef(pageRef, fingerprint)) == pageRef
    ensures IsValueKeyed(SourceRef(pageRef, fingerprint))
    ensures PlainSuffix(SourceRef(pageRef, fingerprint))
  {
    var ref := SourceRef(pageRef, fingerprint);
    var at := |pageRef|;
    assert ref[at..at + |SEPARATOR|] == SEPARATOR;
    assert OccursAt(ref, SEPARATOR, at);
    forall later: nat | at < later && later + |SEPARATOR| <= |ref|
      ensures !OccursAt(ref, SEPARATOR, later)
    {
      // The last character of a separator standing later would be a character of the fingerprint.
      var last := later + |SEPARATOR| - 1;
      assert ref[last] == fingerprint[last - at - |SEPARATOR|];
      assert ref[later..later + |SEPARATOR|][|SEPARATOR| - 1] == ref[last];
      assert SEPARATOR[|SEPARATOR| - 1] == '=';
    }
    assert LastSeparator(ref, |ref|) == Some(at);
    assert ref[at + |SEPARATOR|..] == fingerprint;
    assert ref[..at] == pageRef;
  }

  /** The bounded index ranges of one page miss none of its refs and take in no other page's. */
  lemma PageReadIsThePage(ref: string, pageRef: string)
    requires PlainSuffix(ref)
    ensures ReadForPage(ref, pageRef) <==> PageRef(ref) == pageRef
  {
    var at := LastSeparator(ref, |ref|);
    if PageRef(ref) == pageRef && ref != pageRef {
      var suffix := ref[at.value + |SEPARATOR|..];
      var prefix := pageRef + SEPARATOR;
      assert ref == prefix + suffix by {
        assert ref == ref[..at.value] + ref[at.value..at.value + |SEPARATOR|] + suffix;
      }
      assert prefix == prefix + [];
      AtMostAfterPrefix(prefix, [], suffix);
      AtMostAfterPrefix(prefix, suffix, [RANGE_END]);
    }
  }

  /** Two values of one page share a ref exactly when they share a fingerprint. */
  lemma SourceRefInjective(pageRef: string, a: string, b: string)
    ensures SourceRef(pageRef, a) == SourceRef(pageRef, b) <==> a == b
  {
    if SourceRef(pageRef, a) == SourceRef(pageRef, b) {
      assert SourceRef(pageRef, a)[|pageRef + SEPARATOR|..] == a;
      assert SourceRef(pageRef, b)[|pageRef + SEPARATOR|..] == b;
    }
  }

  /** A separator stands somewhere in the text. */
  ghost predicate HasSeparator(ref: string) {
    exists at: nat :: OccursAt(ref, SEPARATOR, at)
  }

  /** A ref with no separator is its own page; any other is its page and what follows the last separator in it. */
  lemma PageOfARef(ref: string)
    ensures !HasSeparator(ref) ==> PageRef(ref) == ref && !IsValueKeyed(ref)
    ensures HasSeparator(ref) ==>
      exists suffix ::
        && ref == SourceRef(PageRef(ref), suffix)
        && !(exists at: nat :: at > |PageRef(ref)| && OccursAt(ref, SEPARATOR, at))
  {
    var at := LastSeparator(ref, |ref|);
    if at.Some? {
      var suffix := ref[at.value + |SEPARATOR|..];
      assert ref == ref[..at.value] + ref[at.value..at.value + |SEPARATOR|] + suffix;
      assert ref == SourceRef(PageRef(ref), suffix);
    }
  }

  /** A ref is value-keyed exactly when it is some page's with 32 lower-case hexadecimal digits behind the separator. */
  lemma ValueKeyedExactly(ref: string)
    ensures
      IsValueKeyed(ref) <==>
      exists page, digits ::
        && ref == SourceRef(page, digits) && |digits| == 32
        && forall c <- digits :: '0' <= c <= '9' || 'a' <= c <= 'f'
  {
    var at := LastSeparator(ref, |ref|);
    if IsValueKeyed(ref) {
      var page, digits := ref[..at.value], ref[at.value + |SEPARATOR|..];
      assert ref == page + ref[at.value..at.value + |SEPARATOR|] + digits;
      assert ref == SourceRef(page, digits);
    }
    if page, digits :|
      && ref == SourceRef(page, digits) && |digits| == 32
      && forall c <- digits :: '0' <= c <= '9' || 'a' <= c <= 'f'
    {
      assert forall i :: 0 <= i < |digits| ==> digits[i] in digits;
      SourceRefRoundTrip(page, digits);
    }
  }
}
