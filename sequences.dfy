/** Sequence helpers shared by the model: flattening a table of rows into one
    sequence (numpy's `reshape(-1)`, `np.repeat`, `np.tile` and `pd.concat`
    are all this one operation), and the Euclidean division facts needed to
    find an element of a flattened table again. */
module Sequences {

  /** Concatenation of all rows, first row first. */
  function Flatten<T>(ss: seq<seq<T>>): seq<T>
  {
    if ss == [] then [] else ss[0] + Flatten(ss[1..])
  }

  /** Every row has width `w`. */
  predicate Uniform<T>(ss: seq<seq<T>>, w: nat)
  {
    forall r :: 0 <= r < |ss| ==> |ss[r]| == w
  }

  /** No element occurs twice. */
  predicate Distinct<T(==)>(s: seq<T>)
  {
    forall a, b :: 0 <= a < b < |s| ==> s[a] != s[b]
  }

  lemma {:induction false} MulAtLeast(a: int, m: int)
    requires a >= 1 && m > 0
    ensures a * m >= m
    decreases a
  {
    if a > 1 {
      MulAtLeast(a - 1, m);
      assert a * m == (a - 1) * m + m;
    }
  }

  /** Quotient and remainder rebuild `k`. */
  lemma DivModRebuild(k: int, m: int)
    requires m > 0
    ensures k / m * m + k % m == k
  {
  }

  /** Quotient and remainder are the only pair that rebuilds `k`. */
  lemma DivModUnique(k: int, m: int, q: int, r: int)
    requires m > 0 && 0 <= r < m && k == q * m + r
    ensures k / m == q && k % m == r
  {
    var q', r' := k / m, k % m;
    assert k == q' * m + r';
    assert (q' - q) * m == r - r' by {
      assert (q' - q) * m == q' * m - q * m;
    }
    if q' > q {
      MulAtLeast(q' - q, m);
    } else if q' < q {
      MulAtLeast(q - q', m);
    }
  }

  /** Stepping `k - 1` to `k` raises the quotient by one exactly when `k`
      is a multiple of `m`. */
  lemma DivStep(k: int, m: int)
    requires m > 0
    ensures k / m == (k - 1) / m + (if k % m == 0 then 1 else 0)
  {
    var q, r := (k - 1) / m, (k - 1) % m;
    assert k - 1 == q * m + r;
    if r + 1 == m {
      DivModUnique(k, m, q + 1, 0);
    } else {
      DivModUnique(k, m, q, r + 1);
    }
  }

  /** Row `r`, column `c` of an `n` by `w` table sits at `r * w + c`, inside
      the table, and division by `w` finds the row and column again. */
  lemma CellIndex(r: int, c: int, n: int, w: int)
    requires 0 <= r < n && 0 <= c < w
    ensures 0 <= r * w + c < n * w
    ensures (r * w + c) / w == r && (r * w + c) % w == c
  {
    assert (n - r) * w == n * w - r * w;
    MulAtLeast(n - r, w);
    if r > 0 { MulAtLeast(r, w); }
    DivModUnique(r * w + c, w, r, c);
  }

  /** A slice of the second part of a concatenation, read at its offset. */
  lemma ConcatSlice<T>(a: seq<T>, b: seq<T>, i: int, j: int)
    requires 0 <= i <= j <= |b|
    ensures (a + b)[..|a|] == a
    ensures (a + b)[|a| + i..|a| + j] == b[i..j]
  {
  }

  /** A position `k` below `n * m` lies in row `k / m`, which is below `n`. */
  lemma DivBelow(k: int, m: int, n: int)
    requires m > 0 && 0 <= k < n * m
    ensures 0 <= k / m < n && 0 <= k % m < m
  {
    var q := k / m;
    assert k == q * m + k % m;
    if q < 0 {
      MulAtLeast(-q, m);
    } else if q > n {
      MulAtLeast(q - n, m);
    }
  }

  lemma {:induction false} FlattenAppend<T>(a: seq<seq<T>>, b: seq<seq<T>>)
    ensures Flatten(a + b) == Flatten(a) + Flatten(b)
    decreases |a|
  {
    if a != [] {
      assert (a + b)[0] == a[0];
      assert (a + b)[1..] == a[1..] + b;
      FlattenAppend(a[1..], b);
      calc {
        Flatten(a + b);
        a[0] + Flatten(a[1..] + b);
        a[0] + (Flatten(a[1..]) + Flatten(b));
        (a[0] + Flatten(a[1..])) + Flatten(b);
      }
    } else {
      assert a + b == b;
    }
  }

  /** Adding one row at the end adds its elements at the end. */
  lemma {:induction false} FlattenSnoc<T>(ss: seq<seq<T>>, s: seq<T>)
    ensures Flatten(ss + [s]) == Flatten(ss) + s
  {
    FlattenAppend(ss, [s]);
    assert Flatten([s]) == s + Flatten([]);
  }

  /** Adding one element to the last row adds it at the end. */
  lemma {:induction false} FlattenGrowLast<T>(ss: seq<seq<T>>, x: T)
    requires ss != []
    ensures Flatten(ss[..|ss| - 1] + [ss[|ss| - 1] + [x]]) == Flatten(ss) + [x]
  {
    var front, last := ss[..|ss| - 1], ss[|ss| - 1];
    calc {
      Flatten(front + [last + [x]]);
      { FlattenSnoc(front, last + [x]); }
      Flatten(front) + (last + [x]);
      (Flatten(front) + last) + [x];
      { FlattenSnoc(front, last); }
      Flatten(front + [last]) + [x];
      { assert front + [last] == ss; }
      Flatten(ss) + [x];
    }
  }

  lemma {:induction false} FlattenUniformLength<T>(ss: seq<seq<T>>, w: nat)
    requires Uniform(ss, w)
    ensures |Flatten(ss)| == |ss| * w
    decreases |ss|
  {
    if ss != [] {
      FlattenUniformLength(ss[1..], w);
      assert |ss| * w == (|ss| - 1) * w + w;
    }
  }

  /** Row `r`, column `c` of a table of width `w` lands at `r * w + c`. */
  lemma {:induction false} FlattenUniformCell<T>(ss: seq<seq<T>>, w: nat, r: int, c: int)
    requires Uniform(ss, w) && 0 <= r < |ss| && 0 <= c < w
    ensures |Flatten(ss)| == |ss| * w
    ensures 0 <= r * w + c < |ss| * w
    ensures Flatten(ss)[r * w + c] == ss[r][c]
    decreases r
  {
    FlattenUniformLength(ss, w);
    CellIndex(r, c, |ss|, w);
    assert Flatten(ss) == ss[0] + Flatten(ss[1..]);
    if r > 0 {
      FlattenUniformCell(ss[1..], w, r - 1, c);
      assert r * w + c == (r - 1) * w + c + w;
    }
  }

  /** In a flattened table of width `w`, position `k` holds column `k % w` of
      row `k / w`. */
  lemma {:induction false} FlattenUniformAt<T>(ss: seq<seq<T>>, w: nat, k: int)
    requires Uniform(ss, w) && w > 0 && 0 <= k < |ss| * w
    ensures |Flatten(ss)| == |ss| * w
    ensures 0 <= k / w < |ss| && 0 <= k % w < w
    ensures Flatten(ss)[k] == ss[k / w][k % w]
  {
    DivBelow(k, w, |ss|);
    var r, c := k / w, k % w;
    assert k == r * w + c;
    FlattenUniformCell(ss, w, r, c);
  }
}
