/**
 * Bytes of the identifiers file, the ASCII upper-casing the search folds
 * case with, and the lexicographic order Rust's `<` puts on byte slices.
 */
module Bytes {

  /** An unsigned 8-bit value, as `u8`. */
  newtype byte = b: int | 0 <= b < 256

  const NEWLINE: byte := 10
  const CARRIAGE_RETURN: byte := 13
  const SPACE: byte := 32
  const DOT: byte := 46
  const COLON: byte := 58
  const UPPER_A: byte := 65
  const LOWER_A: byte := 97
  const LOWER_Z: byte := 122
  const TILDE: byte := 126

  predicate IsAsciiLower(b: byte) {
    LOWER_A <= b <= LOWER_Z
  }

  /** The upper-case form of one byte: `a`..`z` move to `A`..`Z`, every other byte stays. */
  function UpperByte(b: byte): byte {
    if IsAsciiLower(b) then b - LOWER_A + UPPER_A else b
  }

  /** Byte-wise upper-casing of a whole sequence. */
  function Upper(s: seq<byte>): seq<byte> {
    seq(|s|, i requires 0 <= i < |s| => UpperByte(s[i]))
  }

  /** Folding case twice changes nothing more than folding it once. */
  lemma UpperIdempotent(s: seq<byte>)
    ensures Upper(Upper(s)) == Upper(s)
  {
  }

  /** Upper-casing commutes with taking a prefix. */
  lemma UpperPrefix(s: seq<byte>, n: nat)
    requires n <= |s|
    ensures Upper(s[..n]) == Upper(s)[..n]
  {
  }

  /**
   * Rust's `<` on byte slices: the first differing byte decides, and a
   * proper prefix is below the longer slice.
   */
  predicate Less(a: seq<byte>, b: seq<byte>)
    decreases |a|
  {
    |b| > 0 && (|a| == 0 || a[0] < b[0] || (a[0] == b[0] && Less(a[1..], b[1..])))
  }

  /** a and b first differ at i, where a holds the smaller byte. */
  predicate DiffersBelowAt(a: seq<byte>, b: seq<byte>, i: nat) {
    i < |a| && i < |b| && a[..i] == b[..i] && a[i] < b[i]
  }

  /**
   * `Less` is the lexicographic order: a is a proper prefix of b, or at the
   * first position where they differ a holds the smaller byte.
   */
  lemma {:induction false} LessIffFirstDifference(a: seq<byte>, b: seq<byte>)
    ensures Less(a, b) <==> (a < b || exists i: nat :: DiffersBelowAt(a, b, i))
    decreases |a|
  {
    if |a| > 0 && |b| > 0 && a[0] < b[0] {
      assert DiffersBelowAt(a, b, 0);
    } else if |a| > 0 && |b| > 0 && a[0] == b[0] {
      LessIffFirstDifference(a[1..], b[1..]);
      assert a == [a[0]] + a[1..] && b == [b[0]] + b[1..];
      assert a < b <==> a[1..] < b[1..];
      forall i: nat | DiffersBelowAt(a[1..], b[1..], i)
        ensures DiffersBelowAt(a, b, i + 1)
      {
        assert a[..i + 1] == [a[0]] + a[1..][..i];
        assert b[..i + 1] == [b[0]] + b[1..][..i];
      }
      forall i: nat | DiffersBelowAt(a, b, i)
        ensures i > 0 && DiffersBelowAt(a[1..], b[1..], i - 1)
      {
        assert a[1..][..i - 1] == a[..i][1..];
        assert b[1..][..i - 1] == b[..i][1..];
      }
    }
  }

  lemma {:induction false} LessIrreflexive(a: seq<byte>)
    ensures !Less(a, a)
  {
    if |a| > 0 {
      LessIrreflexive(a[1..]);
    }
  }

  lemma {:induction false} LessTransitive(a: seq<byte>, b: seq<byte>, c: seq<byte>)
    requires Less(a, b) && Less(b, c)
    ensures Less(a, c)
  {
    if |a| > 0 && a[0] == b[0] && b[0] == c[0] {
      LessTransitive(a[1..], b[1..], c[1..]);
    }
  }

  /** Any two distinct slices are ordered one way or the other. */
  lemma {:induction false} LessTotal(a: seq<byte>, b: seq<byte>)
    ensures a == b || Less(a, b) || Less(b, a)
  {
    if |a| > 0 && |b| > 0 && a[0] == b[0] {
      LessTotal(a[1..], b[1..]);
      if a[1..] == b[1..] {
        assert a == [a[0]] + a[1..];
        assert b == [b[0]] + b[1..];
      }
    }
  }

  lemma LessAsymmetric(a: seq<byte>, b: seq<byte>)
    requires Less(a, b)
    ensures !Less(b, a)
  {
    if Less(b, a) {
      LessTransitive(a, b, a);
      LessIrreflexive(a);
    }
  }

  /** A slice is below every proper extension of itself. */
  lemma {:induction false} BelowExtension(a: seq<byte>, x: seq<byte>)
    requires |x| > 0
    ensures Less(a, a + x)
  {
    if |a| > 0 {
      assert (a + x)[1..] == a[1..] + x;
      BelowExtension(a[1..], x);
    }
  }

  /**
   * The slices k with n <= k <= n + [t] are exactly those that start with n
   * and, past n, either end, continue with a byte below t, or are n + [t].
   */
  lemma {:induction false} BetweenBounds(k: seq<byte>, n: seq<byte>, t: byte)
    ensures (!Less(k, n) && (Less(k, n + [t]) || k == n + [t]))
        <==> (n <= k && (|k| == |n| || k[|n|] < t || k == n + [t]))
  {
    if n == [] {
      assert n + [t] == [t];
      if |k| > 0 {
        assert Less(k, [t]) <==> k[0] < t;
      }
    } else if |k| > 0 && k[0] == n[0] {
      BetweenBounds(k[1..], n[1..], t);
      assert (n + [t])[1..] == n[1..] + [t];
      assert n <= k <==> n[1..] <= k[1..];
      assert k == n + [t] <==> k[1..] == n[1..] + [t] by {
        if k[1..] == n[1..] + [t] {
          assert k == [k[0]] + k[1..];
        }
      }
      if |k| > |n| {
        assert k[|n|] == k[1..][|n[1..]|];
      }
    }
  }
}
