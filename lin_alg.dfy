/** Integer vectors and matrices as sequences: the dot products, the
    matrix-vector products `A @ s` and `A.T @ r`, and the component-wise
    reduction `% q` that numpy performs in the key and ciphertext formulas. */
module LinAlg {
  import opened ModArith

  /** Every row of A has exactly `cols` entries. */
  ghost predicate HasCols(A: seq<seq<int>>, cols: int) {
    forall i :: 0 <= i < |A| ==> |A[i]| == cols
  }

  /** Every entry of x lies in [0, q). */
  ghost predicate InRange(x: seq<int>, q: int) {
    forall i :: 0 <= i < |x| ==> 0 <= x[i] < q
  }

  /** Every entry of x is 0 or 1: a subset selector. */
  ghost predicate IsBinary(x: seq<int>) {
    forall i :: 0 <= i < |x| ==> x[i] == 0 || x[i] == 1
  }

  /** `np.dot(x, y)`: the sum of x[i] * y[i]. */
  function Dot(x: seq<int>, y: seq<int>): int
    requires |x| == |y|
  {
    if |x| == 0 then 0 else x[0] * y[0] + Dot(x[1..], y[1..])
  }

  /** Sum of the entries of x whose selector in r is 1. */
  function SubsetSum(x: seq<int>, r: seq<int>): int
    requires |x| == |r|
  {
    if |x| == 0 then 0 else (if r[0] == 1 then x[0] else 0) + SubsetSum(x[1..], r[1..])
  }

  function Add(x: seq<int>, y: seq<int>): (z: seq<int>)
    requires |x| == |y|
    ensures |z| == |x| && forall i :: 0 <= i < |z| ==> z[i] == x[i] + y[i]
  {
    seq(|x|, i requires 0 <= i < |x| => x[i] + y[i])
  }

  function Scale(c: int, x: seq<int>): (z: seq<int>)
    ensures |z| == |x| && forall i :: 0 <= i < |z| ==> z[i] == c * x[i]
  {
    seq(|x|, i requires 0 <= i < |x| => c * x[i])
  }

  /** Component-wise `x % q`. */
  function ModVec(x: seq<int>, q: int): (z: seq<int>)
    requires 0 < q
    ensures |z| == |x| && InRange(z, q)
    ensures forall i :: 0 <= i < |z| ==> z[i] == x[i] % q
  {
    seq(|x|, i requires 0 <= i < |x| => x[i] % q)
  }

  /** Column j of A. */
  function Column(A: seq<seq<int>>, j: nat): (c: seq<int>)
    requires forall i :: 0 <= i < |A| ==> j < |A[i]|
    ensures |c| == |A| && forall i :: 0 <= i < |A| ==> c[i] == A[i][j]
  {
    seq(|A|, i requires 0 <= i < |A| => A[i][j])
  }

  /** `A @ s`: one dot product per row. */
  function MatVec(A: seq<seq<int>>, s: seq<int>): (z: seq<int>)
    requires HasCols(A, |s|)
    ensures |z| == |A| && forall i :: 0 <= i < |A| ==> z[i] == Dot(A[i], s)
  {
    seq(|A|, i requires 0 <= i < |A| => Dot(A[i], s))
  }

  /** `A.T @ r` for a matrix with `cols` columns: one dot product per column. */
  function TransposeMul(A: seq<seq<int>>, r: seq<int>, cols: nat): (z: seq<int>)
    requires HasCols(A, cols) && |r| == |A|
    ensures |z| == cols && forall j :: 0 <= j < cols ==> z[j] == Dot(Column(A, j), r)
  {
    seq(cols, j requires 0 <= j < cols => Dot(Column(A, j), r))
  }

  /** With a 0/1 selector, the dot product is the sum of the selected entries. */
  lemma {:induction false} SubsetSumIsDot(x: seq<int>, r: seq<int>)
    requires |x| == |r| && IsBinary(r)
    ensures SubsetSum(x, r) == Dot(x, r)
  {
    if |x| > 0 {
      SubsetSumIsDot(x[1..], r[1..]);
    }
  }

  lemma {:induction false} DotComm(x: seq<int>, y: seq<int>)
    requires |x| == |y|
    ensures Dot(x, y) == Dot(y, x)
  {
    if |x| > 0 {
      DotComm(x[1..], y[1..]);
    }
  }

  lemma {:induction false} DotAddLeft(x: seq<int>, y: seq<int>, r: seq<int>)
    requires |x| == |y| == |r|
    ensures Dot(Add(x, y), r) == Dot(x, r) + Dot(y, r)
  {
    if |x| > 0 {
      var z := Add(x, y);
      assert z[1..] == Add(x[1..], y[1..]);
      DotAddLeft(x[1..], y[1..], r[1..]);
      assert z[0] * r[0] == x[0] * r[0] + y[0] * r[0];
    }
  }

  lemma {:induction false} DotAddRight(s: seq<int>, x: seq<int>, y: seq<int>)
    requires |s| == |x| == |y|
    ensures Dot(s, Add(x, y)) == Dot(s, x) + Dot(s, y)
  {
    if |s| > 0 {
      var z := Add(x, y);
      assert z[1..] == Add(x[1..], y[1..]);
      DotAddRight(s[1..], x[1..], y[1..]);
      assert s[0] * z[0] == s[0] * x[0] + s[0] * y[0];
    }
  }

  lemma {:induction false} DotScaleRight(s: seq<int>, c: int, x: seq<int>)
    requires |s| == |x|
    ensures Dot(s, Scale(c, x)) == c * Dot(s, x)
  {
    if |s| > 0 {
      var z := Scale(c, x);
      assert z[1..] == Scale(c, x[1..]);
      DotScaleRight(s[1..], c, x[1..]);
      assert s[0] * z[0] == c * (s[0] * x[0]);
    }
  }

  lemma {:induction false} DotZeroRight(s: seq<int>, z: seq<int>)
    requires |s| == |z| && forall i :: 0 <= i < |z| ==> z[i] == 0
    ensures Dot(s, z) == 0
  {
    if |s| > 0 {
      DotZeroRight(s[1..], z[1..]);
    }
  }

  /** Reducing the left operand modulo q leaves the dot product's residue unchanged. */
  lemma {:induction false} DotModLeft(x: seq<int>, y: seq<int>, q: int)
    requires 0 < q && |x| == |y|
    ensures Dot(ModVec(x, q), y) % q == Dot(x, y) % q
  {
    if |x| > 0 {
      var x' := ModVec(x, q);
      assert x'[1..] == ModVec(x[1..], q);
      DotModLeft(x[1..], y[1..], q);
      ModCongruent(x[0], q);
      ModScale(y[0], x'[0], x[0], q);
      assert x'[0] * y[0] == y[0] * x'[0] && x[0] * y[0] == y[0] * x[0];
      ModLinear(x'[0] * y[0], x[0] * y[0], Dot(x'[1..], y[1..]), Dot(x[1..], y[1..]), q);
    }
  }

  /** `s · (A.T @ r) == (A @ s) · r`: the exchange of summation order that
      makes the secret-dependent terms cancel in decryption. */
  lemma {:induction false} TransposeDot(A: seq<seq<int>>, s: seq<int>, r: seq<int>)
    requires HasCols(A, |s|) && |r| == |A|
    ensures Dot(s, TransposeMul(A, r, |s|)) == Dot(MatVec(A, s), r)
  {
    var T := TransposeMul(A, r, |s|);
    if |A| == 0 {
      DotZeroRight(s, T);
    } else {
      var A', r' := A[1..], r[1..];
      var T' := TransposeMul(A', r', |s|);
      forall j | 0 <= j < |s|
        ensures T[j] == Add(Scale(r[0], A[0]), T')[j]
      {
        assert Column(A, j)[1..] == Column(A', j);
      }
      assert T == Add(Scale(r[0], A[0]), T');
      DotAddRight(s, Scale(r[0], A[0]), T');
      DotScaleRight(s, r[0], A[0]);
      DotComm(s, A[0]);
      TransposeDot(A', s, r');
      assert MatVec(A, s)[1..] == MatVec(A', s);
    }
  }
}
