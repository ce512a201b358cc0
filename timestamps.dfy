/** Timestamps and identifiers as the ledger compares them.

    Timestamps are ISO-8601 strings; the store's filter `expires_at < :cutoff_time`
    compares them as strings, character by character, and a proper prefix
    (in particular the empty string) sorts first. */
module Timestamps {

  /** String order used by the store's `<` on string attributes. */
  predicate Before(a: string, b: string)
    decreases |a|
  {
    if b == [] then false
    else if a == [] then true
    else if a[0] != b[0] then a[0] < b[0]
    else Before(a[1..], b[1..])
  }

  lemma {:induction false} BeforeIrreflexive(a: string)
    ensures !Before(a, a)
    decreases |a|
  {
    if a != [] {
      BeforeIrreflexive(a[1..]);
    }
  }

  lemma {:induction false} BeforeTransitive(a: string, b: string, c: string)
    requires Before(a, b) && Before(b, c)
    ensures Before(a, c)
    decreases |a|
  {
    if a != [] && a[0] == b[0] && b[0] == c[0] {
      BeforeTransitive(a[1..], b[1..], c[1..]);
    }
  }

  /** Any two distinct strings are ordered one way, and never both ways. */
  lemma {:induction false} BeforeTotal(a: string, b: string)
    ensures a == b || Before(a, b) || Before(b, a)
    ensures !(Before(a, b) && Before(b, a))
    decreases |a|
  {
    if a != [] && b != [] && a[0] == b[0] {
      BeforeTotal(a[1..], b[1..]);
      if a[1..] == b[1..] {
        assert a == [a[0]] + a[1..] && b == [b[0]] + b[1..];
      }
    }
  }

  /** The empty string sorts before every non-empty string and after none. */
  lemma EmptyFirst(b: string)
    ensures Before("", b) <==> b != ""
    ensures !Before(b, "")
  {
  }

  /** A digit of the Crockford base-32 alphabet of ULIDs: the digits and the upper-case
      letters except I, L, O and U. */
  predicate IsCrockfordDigit(ch: char) {
    || '0' <= ch <= '9'
    || ('A' <= ch <= 'Z' && ch != 'I' && ch != 'L' && ch != 'O' && ch != 'U')
  }

  /** Shape of `str(ulid.new())`: 26 Crockford digits; 26 digits carry 130 bits for a
      128-bit value, so the leading digit is at most '7'. */
  predicate IsUlid(s: string) {
    && |s| == 26
    && '0' <= s[0] <= '7'
    && forall i | 0 <= i < |s| :: IsCrockfordDigit(s[i])
  }

  /** A clock snapshot taken by the caller instead of reading the wall clock: the ISO
      time now, the ISO time `default_request_ttl` seconds from now, and the epoch
      second count. */
  datatype Clock = Clock(isoNow: string, isoAfterTtl: string, epochSeconds: int)
}
