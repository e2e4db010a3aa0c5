/**
 * Hashes and Pedersen commitments as byte strings. The hash type's
 * `operator<` is defined outside the modelled files; it is modelled as the
 * byte-wise lexicographic order on the 32 bytes.
 */
module Hashes {
  import opened Basics

  const HASH_SIZE: nat := 32
  const COMMITMENT_SIZE: nat := 33

  /** A 32-byte Blake2b digest. */
  type Hash = h: seq<byte> | |h| == HASH_SIZE witness seq(HASH_SIZE, _ => 0)

  /** A 33-byte compressed Pedersen commitment. */
  type Commitment = c: seq<byte> | |c| == COMMITMENT_SIZE witness seq(COMMITMENT_SIZE, _ => 0)

  /** Lexicographic "less than" on byte strings of equal length. */
  predicate LexLess(a: seq<byte>, b: seq<byte>)
    requires |a| == |b|
    decreases |a|
  {
    if |a| == 0 then false
    else if a[0] != b[0] then a[0] < b[0]
    else LexLess(a[1..], b[1..])
  }

  predicate HashLess(a: Hash, b: Hash)
  {
    LexLess(a, b)
  }

  lemma {:induction false} LexLessIrreflexive(a: seq<byte>)
    ensures !LexLess(a, a)
    decreases |a|
  {
    if |a| > 0 {
      LexLessIrreflexive(a[1..]);
    }
  }

  lemma {:induction false} LexLessTransitive(a: seq<byte>, b: seq<byte>, c: seq<byte>)
    requires |a| == |b| == |c|
    requires LexLess(a, b) && LexLess(b, c)
    ensures LexLess(a, c)
    decreases |a|
  {
    if a[0] == b[0] && b[0] == c[0] {
      LexLessTransitive(a[1..], b[1..], c[1..]);
    }
  }

  lemma {:induction false} LexLessTotal(a: seq<byte>, b: seq<byte>)
    requires |a| == |b|
    requires a != b
    ensures LexLess(a, b) || LexLess(b, a)
    decreases |a|
  {
    if a[0] == b[0] {
      assert a == [a[0]] + a[1..] && b == [b[0]] + b[1..];
      LexLessTotal(a[1..], b[1..]);
    }
  }

  lemma {:induction false} LexLessAsymmetric(a: seq<byte>, b: seq<byte>)
    requires |a| == |b|
    requires LexLess(a, b)
    ensures !LexLess(b, a)
    decreases |a|
  {
    if a[0] == b[0] {
      LexLessAsymmetric(a[1..], b[1..]);
    }
  }

  /** `HashLess` is trichotomous: exactly one of `a < b`, `a == b`, `b < a` holds. */
  lemma HashLessTrichotomy(a: Hash, b: Hash)
    ensures HashLess(a, b) || a == b || HashLess(b, a)
    ensures !(HashLess(a, b) && a == b)
    ensures !(HashLess(a, b) && HashLess(b, a))
  {
    if a == b {
      LexLessIrreflexive(a);
    } else {
      LexLessTotal(a, b);
      if LexLess(a, b) {
        LexLessAsymmetric(a, b);
      }
    }
  }
}
