/** The checks the benchmark driver runs on its results: element-wise
    equality of two matrices, and whether any entry of one matrix occurs more
    than once in another. The messages they print become boolean results. */
module Utils {
  import opened Matrices

  /** The entries of a and b agree at every cell before (i, j) in row-major
      order. */
  predicate AgreeBefore(a: Matrix, b: Matrix, i: int, j: int)
    requires Square(a) && Square(b) && |a| == |b|
  {
    forall r, c :: 0 <= r < |a| && 0 <= c < |a| && (r < i || (r == i && c < j)) ==> a[r][c] == b[r][c]
  }

  /** correct_transpose: "Correct" exactly when the two matrices are equal;
      on "Not correct", `stop` is the first mismatch in row-major order, where
      the scan returned. */
  method CorrectTranspose(m1: array2<int>, m2: array2<int>) returns (correct: bool, ghost stop: (int, int))
    requires IsSquareArray(m1) && m2.Length0 == m1.Length0 && m2.Length1 == m1.Length0
    ensures correct <==> Rows(m1) == Rows(m2)
    ensures !correct ==>
      0 <= stop.0 < m1.Length0 && 0 <= stop.1 < m1.Length0 &&
      m1[stop.0, stop.1] != m2[stop.0, stop.1] &&
      AgreeBefore(Rows(m1), Rows(m2), stop.0, stop.1)
  {
    var n := m1.Length0;
    for i := 0 to n
      invariant AgreeBefore(Rows(m1), Rows(m2), i, 0)
    {
      for j := 0 to n
        invariant AgreeBefore(Rows(m1), Rows(m2), i, j)
      {
        var equal := m1[i, j] == m2[i, j];
        if !equal {
          assert Rows(m1)[i][j] != Rows(m2)[i][j];
          return false, (i, j);
        }
      }
    }
    forall r | 0 <= r < n ensures Rows(m1)[r] == Rows(m2)[r] {
      assert forall c :: 0 <= c < n ==> Rows(m1)[r][c] == Rows(m2)[r][c];
    }
    return true, (n, 0);
  }

  /** How many entries of b equal v. */
  function Occurrences(b: Matrix, v: int): (count: nat)
    requires Square(b)
  {
    multiset(Flatten(b, |b|))[v]
  }

  /** test_randomness's verdict: no entry of a occurs more than once in b. */
  predicate NoRepeats(a: Matrix, b: Matrix)
    requires Square(a) && Square(b)
  {
    forall i, j :: 0 <= i < |a| && 0 <= j < |a| ==> Occurrences(b, a[i][j]) <= 1
  }

  /** No entry of a at a cell before (i, j) in row-major order occurs more
      than once in b. */
  predicate NoRepeatsBefore(a: Matrix, b: Matrix, i: int, j: int)
    requires Square(a) && Square(b)
  {
    forall r, c :: 0 <= r < |a| && 0 <= c < |a| && (r < i || (r == i && c < j)) ==> Occurrences(b, a[r][c]) <= 1
  }

  lemma {:induction false} PrefixCount(s: seq<int>, p: int, v: int)
    requires 0 <= p <= |s|
    ensures multiset(s[..p])[v] <= multiset(s)[v]
  {
    assert s == s[..p] + s[p..];
  }

  lemma {:induction false} PrefixCountStep(s: seq<int>, p: int, v: int)
    requires 0 <= p < |s|
    ensures multiset(s[..p + 1])[v] == multiset(s[..p])[v] + (if s[p] == v then 1 else 0)
  {
    assert s[..p + 1] == s[..p] + [s[p]];
  }

  /** The innermost loop of test_randomness over row k of m2: the counter,
      which holds the occurrences of v in the rows before k, goes up at each
      entry equal to v, and the scan stops as soon as it passes 1. */
  method CountInRow(m2: array2<int>, v: int, k: int, before: int) returns (occurrences: int)
    requires IsSquareArray(m2) && 0 <= k < m2.Length0
    requires k * m2.Length0 + m2.Length0 <= m2.Length0 * m2.Length0
    requires before == multiset(Flatten(Rows(m2), m2.Length0)[..k * m2.Length0])[v] <= 1
    ensures occurrences > 1 ==> Occurrences(Rows(m2), v) > 1
    ensures occurrences <= 1 ==>
      occurrences == multiset(Flatten(Rows(m2), m2.Length0)[..k * m2.Length0 + m2.Length0])[v]
  {
    var n := m2.Length0;
    ghost var flat := Flatten(Rows(m2), n);
    ghost var lo := k * n;
    assert Occurrences(Rows(m2), v) == multiset(flat)[v];
    occurrences := before;
    for t := 0 to n
      invariant occurrences == multiset(flat[..lo + t])[v] <= 1
    {
      FlattenAt(Rows(m2), n, k, t);
      assert flat[lo + t] == m2[k, t];
      PrefixCountStep(flat, lo + t, v);
      if v == m2[k, t] {
        occurrences := occurrences + 1;
      }
      if occurrences > 1 {
        PrefixCount(flat, lo + t + 1, v);
        assert Occurrences(Rows(m2), v) >= occurrences;
        return;
      }
    }
  }

  /** The two inner loops of test_randomness for one entry v of m1: the
      counter starts at 0, goes up at each entry of m2 equal to v in row-major
      order, and the scan stops as soon as it passes 1. */
  method CountsMoreThanOnce(m2: array2<int>, v: int) returns (repeated: bool)
    requires IsSquareArray(m2)
    ensures repeated <==> Occurrences(Rows(m2), v) > 1
  {
    var n := m2.Length0;
    ghost var flat := Flatten(Rows(m2), n);
    var occurrences := 0;
    for k := 0 to n
      invariant k * n <= n * n
      invariant occurrences == multiset(flat[..k * n])[v] <= 1
    {
      RowSpan(k, n, n);
      occurrences := CountInRow(m2, v, k, occurrences);
      if occurrences > 1 {
        return true;
      }
      assert (k + 1) * n == k * n + n;
    }
    assert flat[..n * n] == flat;
    return false;
  }

  /** test_randomness: for each entry of m1, in row-major order, counts its
      occurrences in m2 and reports "Not random" at the first entry counted
      twice. "Random" exactly when no entry of m1 occurs twice in m2. */
  method TestRandomness(m1: array2<int>, m2: array2<int>) returns (random: bool)
    requires IsSquareArray(m1) && m2.Length0 == m1.Length0 && m2.Length1 == m1.Length0
    ensures random <==> NoRepeats(Rows(m1), Rows(m2))
  {
    var n := m1.Length0;
    for i := 0 to n
      invariant NoRepeatsBefore(Rows(m1), Rows(m2), i, 0)
    {
      for j := 0 to n
        invariant NoRepeatsBefore(Rows(m1), Rows(m2), i, j)
      {
        var repeated := CountsMoreThanOnce(m2, m1[i, j]);
        if repeated {
          assert Occurrences(Rows(m2), Rows(m1)[i][j]) > 1;
          return false;
        }
      }
    }
    return true;
  }

  /** Every entry of m occurs once: no two distinct cells hold the same value. */
  predicate AllDistinct(m: Matrix)
    requires Square(m)
  {
    forall i, j, k, t ::
      (0 <= i < |m| && 0 <= j < |m| && 0 <= k < |m| && 0 <= t < |m| && (i, j) != (k, t)) ==> m[i][j] != m[k][t]
  }

  /** An entry at position p is counted at least once. */
  lemma {:induction false} CountAtLeastOne(s: seq<int>, p: int)
    requires 0 <= p < |s|
    ensures multiset(s)[s[p]] >= 1
  {
    assert s[p] in multiset(s);
  }

  /** Two positions holding the same value make its count at least 2. */
  lemma {:induction false} CountAtLeastTwo(s: seq<int>, p: int, q: int)
    requires 0 <= p < q < |s| && s[p] == s[q]
    ensures multiset(s)[s[p]] >= 2
  {
    assert s == s[..q] + s[q..];
    CountAtLeastOne(s[..q], p);
    CountAtLeastOne(s[q..], 0);
  }

  /** A value held at only one position is counted once. */
  lemma {:induction false} CountOfUnique(s: seq<int>, p: int)
    requires 0 <= p < |s|
    requires forall q :: 0 <= q < |s| && q != p ==> s[q] != s[p]
    ensures multiset(s)[s[p]] == 1
    decreases |s|
  {
    var last := |s| - 1;
    assert s == s[..last] + [s[last]];
    if p == last {
      assert s[p] !in multiset(s[..last]);
    } else {
      CountOfUnique(s[..last], p);
    }
  }

  /** test_randomness(M, M) reports "Random" exactly when the entries of M are
      pairwise distinct. */
  lemma {:induction false} RandomAgainstItselfIffDistinct(m: Matrix)
    requires Square(m)
    ensures NoRepeats(m, m) <==> AllDistinct(m)
  {
    var n := |m|;
    var flat := Flatten(m, n);
    if AllDistinct(m) {
      forall i, j | 0 <= i < n && 0 <= j < n ensures Occurrences(m, m[i][j]) <= 1 {
        FlattenAt(m, n, i, j);
        var p := i * n + j;
        forall q | 0 <= q < |flat| && q != p ensures flat[q] != flat[p] {
          RowMajorSplit(q, n, n);
          FlattenAt(m, n, q / n, q % n);
        }
        CountOfUnique(flat, p);
      }
    }
    if NoRepeats(m, m) {
      forall i, j, k, t | 0 <= i < n && 0 <= j < n && 0 <= k < n && 0 <= t < n && (i, j) != (k, t)
        ensures m[i][j] != m[k][t]
      {
        FlattenAt(m, n, i, j);
        FlattenAt(m, n, k, t);
        var p, q := i * n + j, k * n + t;
        if p == q {
          RowMajorIndex(i, j, n, n);
          RowMajorIndex(k, t, n, n);
        } else if m[i][j] == m[k][t] {
          if p < q {
            CountAtLeastTwo(flat, p, q);
          } else {
            CountAtLeastTwo(flat, q, p);
          }
        }
      }
    }
  }
}
