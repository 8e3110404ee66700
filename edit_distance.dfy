/** Levenshtein distance between two token sequences, the quantity that the
    `editdistance` package computes: the least number of single-token
    insertions, deletions and substitutions turning one sequence into the
    other. */
module EditDistance {

  function Min3(a: nat, b: nat, c: nat): (m: nat)
    ensures m <= a && m <= b && m <= c
    ensures m == a || m == b || m == c
  {
    if a <= b && a <= c then a else if b <= c then b else c
  }

  /** The textbook recurrence on the first tokens: delete `a[0]`, insert
      `b[0]`, or substitute (free when the tokens agree). */
  function Distance<T(==)>(a: seq<T>, b: seq<T>): nat
    decreases |a| + |b|
  {
    if |a| == 0 then |b|
    else if |b| == 0 then |a|
    else
      Min3(Distance(a[1..], b) + 1,
           Distance(a, b[1..]) + 1,
           Distance(a[1..], b[1..]) + (if a[0] == b[0] then 0 else 1))
  }

  /** Substituting token by token and then inserting or deleting the rest
      never costs more than the longer sequence's length. */
  lemma {:induction false} DistanceUpper<T>(a: seq<T>, b: seq<T>)
    ensures Distance(a, b) <= if |a| >= |b| then |a| else |b|
    decreases |a| + |b|
  {
    if |a| > 0 && |b| > 0 {
      DistanceUpper(a[1..], b[1..]);
    }
  }

  /** Every edit changes the length by at most one. */
  lemma {:induction false} DistanceLower<T>(a: seq<T>, b: seq<T>)
    ensures Distance(a, b) >= |a| - |b| && Distance(a, b) >= |b| - |a|
    decreases |a| + |b|
  {
    if |a| > 0 && |b| > 0 {
      DistanceLower(a[1..], b);
      DistanceLower(a, b[1..]);
      DistanceLower(a[1..], b[1..]);
    }
  }

  /** The distance is zero exactly between equal sequences. */
  lemma {:induction false} DistanceZero<T>(a: seq<T>, b: seq<T>)
    ensures Distance(a, b) == 0 <==> a == b
    decreases |a| + |b|
  {
    if |a| > 0 && |b| > 0 {
      DistanceZero(a[1..], b[1..]);
      if a == b {
        assert a[1..] == b[1..];
      }
      if Distance(a, b) == 0 {
        assert a[0] == b[0] && Distance(a[1..], b[1..]) == 0;
        assert a == [a[0]] + a[1..] && b == [b[0]] + b[1..];
      }
    }
  }
}
