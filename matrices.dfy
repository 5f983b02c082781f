/** Dense real matrices with an explicit shape, as the engine receives them
    from its host program, and the products, transposes and sums it needs. */
module Matrices {
  import opened Sums

  /** A rows×cols matrix stored row by row. */
  datatype RawMatrix = RawMatrix(rows: nat, cols: nat, entries: seq<seq<real>>)
  {
    /** Every row is present and has `cols` entries. */
    predicate Wf()
    {
      |entries| == rows && forall i :: 0 <= i < |entries| ==> |entries[i]| == cols
    }
  }

  type Matrix = m: RawMatrix | m.Wf() witness RawMatrix(0, 0, [])

  /** Entry (i, j) of m; 0 outside the matrix, which keeps sums total. */
  function At(m: Matrix, i: nat, j: nat): real
  {
    if i < m.rows && j < m.cols then m.entries[i][j] else 0.0
  }

  /** The shape test the engine applies to each input: m is r×c. */
  predicate HasShape(m: Matrix, r: nat, c: nat)
  {
    m.rows == r && m.cols == c
  }

  /** f(i, 0), ..., f(i, c-1). */
  function BuildRow(i: nat, c: nat, f: (nat, nat) -> real): (row: seq<real>)
    ensures |row| == c
  {
    if c == 0 then [] else BuildRow(i, c - 1, f) + [f(i, c - 1)]
  }

  /** The rows 0, ..., r-1 of the matrix with entries f, each of length c. */
  function BuildRows(r: nat, c: nat, f: (nat, nat) -> real): (rows: seq<seq<real>>)
    ensures |rows| == r && forall i :: 0 <= i < r ==> |rows[i]| == c
  {
    if r == 0 then [] else BuildRows(r - 1, c, f) + [BuildRow(r - 1, c, f)]
  }

  /** The r×c matrix whose entry (i, j) is f(i, j). Its entries are reached
      through BuildAt. */
  function Build(r: nat, c: nat, f: (nat, nat) -> real): (m: Matrix)
    ensures HasShape(m, r, c)
  {
    RawMatrix(r, c, BuildRows(r, c, f))
  }

  lemma {:induction false} BuildRowAt(i: nat, c: nat, f: (nat, nat) -> real, j: nat)
    requires j < c
    ensures BuildRow(i, c, f)[j] == f(i, j)
  {
    if j < c - 1 {
      BuildRowAt(i, c - 1, f, j);
    }
  }

  lemma {:induction false} BuildRowsAt(r: nat, c: nat, f: (nat, nat) -> real, i: nat, j: nat)
    requires i < r && j < c
    ensures BuildRows(r, c, f)[i][j] == f(i, j)
  {
    if i < r - 1 {
      BuildRowsAt(r - 1, c, f, i, j);
    } else {
      BuildRowAt(i, c, f, j);
    }
  }

  lemma BuildAt(r: nat, c: nat, f: (nat, nat) -> real, i: nat, j: nat)
    ensures At(Build(r, c, f), i, j) == if i < r && j < c then f(i, j) else 0.0
  {
    if i < r && j < c {
      BuildRowsAt(r, c, f, i, j);
    }
  }

  /** Every entry of Build(r, c, f) inside r×c is f at that position. */
  lemma BuildAllAt(r: nat, c: nat, f: (nat, nat) -> real)
    ensures forall i: nat, j: nat :: i < r && j < c ==> At(Build(r, c, f), i, j) == f(i, j)
  {
    forall i: nat, j: nat | i < r && j < c
      ensures At(Build(r, c, f), i, j) == f(i, j)
    {
      BuildAt(r, c, f, i, j);
    }
  }

  /** The matrix held in a two-dimensional array, row by row. */
  function ArrayToMatrix(a: array2<real>): (m: Matrix)
    reads a
    ensures HasShape(m, a.Length0, a.Length1)
    ensures forall i: nat, j: nat :: i < a.Length0 && j < a.Length1 ==> At(m, i, j) == a[i, j]
  {
    RawMatrix(a.Length0, a.Length1,
      seq(a.Length0, (i: int) requires 0 <= i < a.Length0 reads a =>
        seq(a.Length1, (j: int) requires 0 <= j < a.Length1 reads a => a[i, j])))
  }

  /** Two matrices of the same shape with the same entries are equal. */
  lemma MatrixEq(a: Matrix, b: Matrix)
    requires a.rows == b.rows && a.cols == b.cols
    requires forall i: nat, j: nat :: i < a.rows && j < a.cols ==> At(a, i, j) == At(b, i, j)
    ensures a == b
  {
    forall i | 0 <= i < a.rows
      ensures a.entries[i] == b.entries[i]
    {
      assert forall j :: 0 <= j < a.cols ==> a.entries[i][j] == At(a, i, j) == At(b, i, j) == b.entries[i][j];
    }
  }

  /** The matrix product x·y, entry (i, j) being Σ_k x(i,k)·y(k,j). */
  function Mul(x: Matrix, y: Matrix): (r: Matrix)
    requires x.cols == y.rows
    ensures HasShape(r, x.rows, y.cols)
  {
    Build(x.rows, y.cols, (i: nat, j: nat) => Sum(x.cols, (k: nat) => At(x, i, k) * At(y, k, j)))
  }

  /** The transpose of m. */
  function Transpose(m: Matrix): (r: Matrix)
    ensures HasShape(r, m.cols, m.rows)
  {
    Build(m.cols, m.rows, (i: nat, j: nat) => At(m, j, i))
  }

  /** The entry-wise sum of two matrices of one shape. */
  function Add(a: Matrix, b: Matrix): (r: Matrix)
    requires a.rows == b.rows && a.cols == b.cols
    ensures HasShape(r, a.rows, a.cols)
  {
    Build(a.rows, a.cols, (i: nat, j: nat) => At(a, i, j) + At(b, i, j))
  }

  /** Column i of m, as an m.rows×1 matrix. */
  function Column(m: Matrix, i: nat): (r: Matrix)
    ensures HasShape(r, m.rows, 1)
  {
    Build(m.rows, 1, (p: nat, q: nat) => At(m, p, i))
  }

  predicate IsZero(m: Matrix)
  {
    forall i: nat, j: nat :: i < m.rows && j < m.cols ==> At(m, i, j) == 0.0
  }

  predicate Symmetric(m: Matrix)
  {
    m.rows == m.cols && forall i: nat, j: nat :: i < m.rows && j < m.rows ==> At(m, i, j) == At(m, j, i)
  }

  lemma MulAt(x: Matrix, y: Matrix, i: nat, j: nat)
    requires x.cols == y.rows
    ensures At(Mul(x, y), i, j)
         == if i < x.rows && j < y.cols then Sum(x.cols, (k: nat) => At(x, i, k) * At(y, k, j)) else 0.0
  {
    BuildAt(x.rows, y.cols, (i: nat, j: nat) => Sum(x.cols, (k: nat) => At(x, i, k) * At(y, k, j)), i, j);
  }

  /** An entry of x·y equals Σ_k g(k) when g(k) is the k-th term of that entry. */
  lemma MulAtSum(x: Matrix, y: Matrix, i: nat, j: nat, g: nat -> real)
    requires x.cols == y.rows && i < x.rows && j < y.cols
    requires forall k: nat :: k < x.cols ==> At(x, i, k) * At(y, k, j) == g(k)
    ensures At(Mul(x, y), i, j) == Sum(x.cols, g)
  {
    MulAt(x, y, i, j);
    SumExt(x.cols, (k: nat) => At(x, i, k) * At(y, k, j), g);
  }

  /** Column(m, i) holds column i of m. */
  lemma ColumnAt(m: Matrix, i: nat)
    ensures forall p: nat :: p < m.rows ==> At(Column(m, i), p, 0) == At(m, p, i)
  {
    BuildAllAt(m.rows, 1, (p: nat, q: nat) => At(m, p, i));
  }

  lemma AddAt(a: Matrix, b: Matrix, i: nat, j: nat)
    requires a.rows == b.rows && a.cols == b.cols
    ensures At(Add(a, b), i, j) == At(a, i, j) + At(b, i, j)
  {
    BuildAt(a.rows, a.cols, (i: nat, j: nat) => At(a, i, j) + At(b, i, j), i, j);
  }

  lemma TransposeAt(m: Matrix, i: nat, j: nat)
    ensures At(Transpose(m), i, j) == At(m, j, i)
  {
    BuildAt(m.cols, m.rows, (i: nat, j: nat) => At(m, j, i), i, j);
  }

  /** Transposing twice gives the matrix back. */
  lemma TransposeTranspose(m: Matrix)
    ensures Transpose(Transpose(m)) == m
  {
    forall i: nat, j: nat | i < m.rows && j < m.cols
      ensures At(Transpose(Transpose(m)), i, j) == At(m, i, j)
    {
      TransposeAt(Transpose(m), i, j);
      TransposeAt(m, j, i);
    }
    MatrixEq(Transpose(Transpose(m)), m);
  }

  /** A square matrix is symmetric exactly when it equals its transpose. */
  lemma SymmetricIffSelfTranspose(m: Matrix)
    ensures Symmetric(m) <==> Transpose(m) == m
  {
    if Symmetric(m) {
      forall i: nat, j: nat | i < m.rows && j < m.cols
        ensures At(Transpose(m), i, j) == At(m, i, j)
      {
        TransposeAt(m, i, j);
      }
      MatrixEq(Transpose(m), m);
    }
    if Transpose(m) == m {
      forall i: nat, j: nat | i < m.rows && j < m.rows
        ensures At(m, i, j) == At(m, j, i)
      {
        TransposeAt(m, i, j);
      }
    }
  }

  /** (x·y)ᵀ = yᵀ·xᵀ. */
  lemma TransposeMul(x: Matrix, y: Matrix)
    requires x.cols == y.rows
    ensures Transpose(Mul(x, y)) == Mul(Transpose(y), Transpose(x))
  {
    var l := Transpose(Mul(x, y));
    var r := Mul(Transpose(y), Transpose(x));
    forall i: nat, j: nat | i < l.rows && j < l.cols
      ensures At(l, i, j) == At(r, i, j)
    {
      TransposeAt(Mul(x, y), i, j);
      MulAt(x, y, j, i);
      MulAt(Transpose(y), Transpose(x), i, j);
      forall k: nat | k < x.cols
        ensures At(x, j, k) * At(y, k, i) == At(Transpose(y), i, k) * At(Transpose(x), k, j)
      {
        TransposeAt(y, i, k);
        TransposeAt(x, k, j);
      }
      SumExt(x.cols, (k: nat) => At(x, j, k) * At(y, k, i),
             (k: nat) => At(Transpose(y), i, k) * At(Transpose(x), k, j));
    }
    MatrixEq(l, r);
  }

  lemma Commute3(a: real, b: real, c: real)
    ensures a * b * c == c * (a * b) == a * (b * c)
  {
  }

  /** Entry (i, j) of (x·y)·z is the double sum Σ_m Σ_k f(k, m) of the terms
      f(k, m) = x_ik·y_km·z_mj. */
  lemma MulMulLeftAt(x: Matrix, y: Matrix, z: Matrix, i: nat, j: nat, f: (nat, nat) -> real)
    requires x.cols == y.rows && y.cols == z.rows && i < x.rows && j < z.cols
    requires forall k: nat, m: nat :: f(k, m) == At(x, i, k) * At(y, k, m) * At(z, m, j)
    ensures At(Mul(Mul(x, y), z), i, j) == Sum(y.cols, (m: nat) => Sum(x.cols, (k: nat) => f(k, m)))
  {
    forall m: nat | m < y.cols
      ensures At(Mul(x, y), i, m) * At(z, m, j) == Sum(x.cols, (k: nat) => f(k, m))
    {
      MulAt(x, y, i, m);
      forall k: nat | k < x.cols
        ensures f(k, m) == At(z, m, j) * (At(x, i, k) * At(y, k, m))
      {
        Commute3(At(x, i, k), At(y, k, m), At(z, m, j));
      }
      SumScale(x.cols, At(z, m, j), (k: nat) => At(x, i, k) * At(y, k, m), (k: nat) => f(k, m));
    }
    MulAt(Mul(x, y), z, i, j);
    SumExt(y.cols, (m: nat) => At(Mul(x, y), i, m) * At(z, m, j), (m: nat) => Sum(x.cols, (k: nat) => f(k, m)));
  }

  /** One term of the outer sum of x·(y·z): x_ik·(y·z)_kj = Σ_m f(k, m). */
  lemma MulMulRightTerm(x: Matrix, y: Matrix, z: Matrix, i: nat, j: nat, k: nat, f: (nat, nat) -> real)
    requires y.cols == z.rows && k < y.rows && j < z.cols
    requires forall k: nat, m: nat :: f(k, m) == At(x, i, k) * At(y, k, m) * At(z, m, j)
    ensures At(x, i, k) * At(Mul(y, z), k, j) == Sum(y.cols, (m: nat) => f(k, m))
  {
    MulAt(y, z, k, j);
    forall m: nat | m < y.cols
      ensures f(k, m) == At(x, i, k) * (At(y, k, m) * At(z, m, j))
    {
      Commute3(At(x, i, k), At(y, k, m), At(z, m, j));
    }
    SumScale(y.cols, At(x, i, k), (m: nat) => At(y, k, m) * At(z, m, j), (m: nat) => f(k, m));
  }

  /** Entry (i, j) of x·(y·z) is the double sum Σ_k Σ_m f(k, m) of the same terms. */
  lemma MulMulRightAt(x: Matrix, y: Matrix, z: Matrix, i: nat, j: nat, f: (nat, nat) -> real)
    requires x.cols == y.rows && y.cols == z.rows && i < x.rows && j < z.cols
    requires forall k: nat, m: nat :: f(k, m) == At(x, i, k) * At(y, k, m) * At(z, m, j)
    ensures At(Mul(x, Mul(y, z)), i, j) == Sum(x.cols, (k: nat) => Sum(y.cols, (m: nat) => f(k, m)))
  {
    forall k: nat | k < x.cols
      ensures At(x, i, k) * At(Mul(y, z), k, j) == Sum(y.cols, (m: nat) => f(k, m))
    {
      MulMulRightTerm(x, y, z, i, j, k, f);
    }
    MulAt(x, Mul(y, z), i, j);
    SumExt(x.cols, (k: nat) => At(x, i, k) * At(Mul(y, z), k, j), (k: nat) => Sum(y.cols, (m: nat) => f(k, m)));
  }

  /** Matrix multiplication is associative: (x·y)·z = x·(y·z). */
  lemma MulAssoc(x: Matrix, y: Matrix, z: Matrix)
    requires x.cols == y.rows && y.cols == z.rows
    ensures Mul(Mul(x, y), z) == Mul(x, Mul(y, z))
  {
    forall i: nat, j: nat | i < x.rows && j < z.cols
      ensures At(Mul(Mul(x, y), z), i, j) == At(Mul(x, Mul(y, z)), i, j)
    {
      var f := (k: nat, m: nat) => At(x, i, k) * At(y, k, m) * At(z, m, j);
      MulMulLeftAt(x, y, z, i, j, f);
      MulMulRightAt(x, y, z, i, j, f);
      SumSwap(x.cols, y.cols, f);
    }
    MatrixEq(Mul(Mul(x, y), z), Mul(x, Mul(y, z)));
  }

  /** A product with a zero factor is zero. */
  lemma MulZero(x: Matrix, y: Matrix)
    requires x.cols == y.rows
    requires IsZero(x) || IsZero(y)
    ensures IsZero(Mul(x, y))
  {
    forall i: nat, j: nat | i < x.rows && j < y.cols
      ensures At(Mul(x, y), i, j) == 0.0
    {
      MulAt(x, y, i, j);
      SumZero(x.cols, (k: nat) => At(x, i, k) * At(y, k, j));
    }
  }

  /** Adding a zero matrix changes nothing. */
  lemma AddZero(a: Matrix, b: Matrix)
    requires a.rows == b.rows && a.cols == b.cols
    requires IsZero(b)
    ensures Add(a, b) == a
  {
    forall i: nat, j: nat | i < a.rows && j < a.cols
      ensures At(Add(a, b), i, j) == At(a, i, j)
    {
      AddAt(a, b, i, j);
    }
    MatrixEq(Add(a, b), a);
  }

  /** Multiplication distributes over addition on the right: x·(a + b) = x·a + x·b. */
  lemma MulAddRight(x: Matrix, a: Matrix, b: Matrix)
    requires a.rows == b.rows && a.cols == b.cols && x.cols == a.rows
    ensures Mul(x, Add(a, b)) == Add(Mul(x, a), Mul(x, b))
  {
    var l := Mul(x, Add(a, b));
    var r := Add(Mul(x, a), Mul(x, b));
    forall i: nat, j: nat | i < x.rows && j < a.cols
      ensures At(l, i, j) == At(r, i, j)
    {
      var g := (k: nat) => At(x, i, k) * At(a, k, j) + At(x, i, k) * At(b, k, j);
      forall k: nat | k < x.cols
        ensures At(x, i, k) * At(Add(a, b), k, j) == g(k)
      {
        AddAt(a, b, k, j);
      }
      MulAtSum(x, Add(a, b), i, j, g);
      MulAt(x, a, i, j);
      MulAt(x, b, i, j);
      AddAt(Mul(x, a), Mul(x, b), i, j);
      SumAdd(x.cols, (k: nat) => At(x, i, k) * At(a, k, j), (k: nat) => At(x, i, k) * At(b, k, j), g);
    }
    MatrixEq(l, r);
  }

  /** Multiplication distributes over addition on the left: (a + b)·y = a·y + b·y. */
  lemma MulAddLeft(a: Matrix, b: Matrix, y: Matrix)
    requires a.rows == b.rows && a.cols == b.cols && a.cols == y.rows
    ensures Mul(Add(a, b), y) == Add(Mul(a, y), Mul(b, y))
  {
    var l := Mul(Add(a, b), y);
    var r := Add(Mul(a, y), Mul(b, y));
    forall i: nat, j: nat | i < a.rows && j < y.cols
      ensures At(l, i, j) == At(r, i, j)
    {
      var g := (k: nat) => At(a, i, k) * At(y, k, j) + At(b, i, k) * At(y, k, j);
      forall k: nat | k < a.cols
        ensures At(Add(a, b), i, k) * At(y, k, j) == g(k)
      {
        AddAt(a, b, i, k);
      }
      MulAtSum(Add(a, b), y, i, j, g);
      MulAt(a, y, i, j);
      MulAt(b, y, i, j);
      AddAt(Mul(a, y), Mul(b, y), i, j);
      SumAdd(a.cols, (k: nat) => At(a, i, k) * At(y, k, j), (k: nat) => At(b, i, k) * At(y, k, j), g);
    }
    MatrixEq(l, r);
  }
}
