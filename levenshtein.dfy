/**
 * Edit distance with unit-cost insertion, deletion and substitution, by its
 * textbook recursive definition. The typosquatting check calls a library for
 * this number; the library's dynamic-programming code is not part of this model,
 * only the value it computes.
 */
module Levenshtein {

  function Min3(x: nat, y: nat, z: nat): (m: nat)
    ensures m <= x && m <= y && m <= z
    ensures m == x || m == y || m == z
  {
    if x <= y && x <= z then x else if y <= z then y else z
  }

  /** The least number of single-character edits that turn `a` into `b`. */
  function Distance(a: string, b: string): (d: nat)
    ensures d <= |a| + |b|
    decreases |a| + |b|
  {
    if |a| == 0 then |b|
    else if |b| == 0 then |a|
    else Min3(Distance(a[1..], b) + 1,
              Distance(a, b[1..]) + 1,
              Distance(a[1..], b[1..]) + (if a[0] == b[0] then 0 else 1))
  }

  /** The distance is zero exactly between equal strings. */
  lemma {:induction false} ZeroIffEqual(a: string, b: string)
    ensures Distance(a, b) == 0 <==> a == b
    decreases |a| + |b|
  {
    if |a| > 0 && |b| > 0 {
      ZeroIffEqual(a[1..], b[1..]);
      if a == b {
        assert a[1..] == b[1..];
      }
      if Distance(a, b) == 0 {
        assert a[0] == b[0] && a[1..] == b[1..];
        assert a == [a[0]] + a[1..] && b == [b[0]] + b[1..];
      }
    }
  }

  /** Turning `a` into `b` costs as much as turning `b` into `a`. */
  lemma {:induction false} Symmetric(a: string, b: string)
    ensures Distance(a, b) == Distance(b, a)
    decreases |a| + |b|
  {
    if |a| > 0 && |b| > 0 {
      Symmetric(a[1..], b);
      Symmetric(a, b[1..]);
      Symmetric(a[1..], b[1..]);
    }
  }

  /** Every edit changes the length by at most one, so the distance is at least the length difference. */
  lemma {:induction false} AtLeastLengthDifference(a: string, b: string)
    ensures Distance(a, b) >= |a| - |b| && Distance(a, b) >= |b| - |a|
    decreases |a| + |b|
  {
    if |a| > 0 && |b| > 0 {
      AtLeastLengthDifference(a[1..], b);
      AtLeastLengthDifference(a, b[1..]);
      AtLeastLengthDifference(a[1..], b[1..]);
    }
  }

  /** Substituting position by position and inserting or deleting the rest never costs more than the longer length. */
  lemma {:induction false} AtMostLongerLength(a: string, b: string)
    ensures Distance(a, b) <= if |a| >= |b| then |a| else |b|
    decreases |a| + |b|
  {
    if |a| > 0 && |b| > 0 {
      AtMostLongerLength(a[1..], b[1..]);
    }
  }
}
