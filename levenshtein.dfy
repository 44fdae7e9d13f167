/**
  The edit distance of the `levenshtein` crate, which the matchers call to score
  how far an actual request value is from the expected one. It is given here as
  the textbook recursive definition over character sequences: the least number
  of single-character insertions, deletions and substitutions that turn one
  string into the other.
 */
module Levenshtein {

  function Min3(x: nat, y: nat, z: nat): nat {
    if x <= y && x <= z then x else if y <= z then y else z
  }

  function Max(x: nat, y: nat): nat {
    if x <= y then y else x
  }

  /** Edit distance between `a` and `b`. */
  function Distance(a: string, b: string): (d: nat)
    ensures d <= |a| + |b|
    decreases |a| + |b|
  {
    if |a| == 0 then |b|
    else if |b| == 0 then |a|
    else if a[0] == b[0] then Distance(a[1..], b[1..])
    else 1 + Min3(Distance(a[1..], b), Distance(a, b[1..]), Distance(a[1..], b[1..]))
  }

  /** A string is at distance zero from itself. */
  lemma {:induction false} DistanceToSelf(a: string)
    ensures Distance(a, a) == 0
  {
    if |a| > 0 {
      DistanceToSelf(a[1..]);
    }
  }

  /** Distance zero means the strings are equal. */
  lemma {:induction false} ZeroDistanceIsEqual(a: string, b: string)
    requires Distance(a, b) == 0
    ensures a == b
    decreases |a| + |b|
  {
    if |a| > 0 && |b| > 0 {
      ZeroDistanceIsEqual(a[1..], b[1..]);
      assert a == [a[0]] + a[1..];
      assert b == [b[0]] + b[1..];
    }
  }

  /** The distance is zero exactly when the two strings are equal. */
  lemma ZeroDistanceIff(a: string, b: string)
    ensures Distance(a, b) == 0 <==> a == b
  {
    if a == b {
      DistanceToSelf(a);
    } else if Distance(a, b) == 0 {
      ZeroDistanceIsEqual(a, b);
    }
  }

  /** The distance never exceeds the longer of the two lengths. */
  lemma {:induction false} DistanceAtMostLonger(a: string, b: string)
    ensures Distance(a, b) <= Max(|a|, |b|)
    decreases |a| + |b|
  {
    if |a| > 0 && |b| > 0 {
      DistanceAtMostLonger(a[1..], b[1..]);
    }
  }

  /** The distance is at least the difference of the two lengths. */
  lemma {:induction false} DistanceAtLeastLengthGap(a: string, b: string)
    ensures |a| <= |b| + Distance(a, b)
    ensures |b| <= |a| + Distance(a, b)
    decreases |a| + |b|
  {
    if |a| > 0 && |b| > 0 {
      DistanceAtLeastLengthGap(a[1..], b[1..]);
      if a[0] != b[0] {
        DistanceAtLeastLengthGap(a[1..], b);
        DistanceAtLeastLengthGap(a, b[1..]);
      }
    }
  }

  /** The distance does not depend on the order of its arguments. */
  lemma {:induction false} DistanceSymmetric(a: string, b: string)
    ensures Distance(a, b) == Distance(b, a)
    decreases |a| + |b|
  {
    if |a| > 0 && |b| > 0 {
      DistanceSymmetric(a[1..], b[1..]);
      if a[0] != b[0] {
        DistanceSymmetric(a[1..], b);
        DistanceSymmetric(a, b[1..]);
      }
    }
  }
}
