/** The LOSC correction assembly for one spin channel: the AO-basis
    Hamiltonian correction, the scalar energy correction and the post-SCF
    orbital energies, each guarded by the source's shape checks. */
module Correction {
  import opened Sums
  import opened Matrices

  /** The input matrix a dimension check complains about. */
  datatype Operand =
    | Overlap          // S
    | Curvature        // κ
    | LocalOccupation  // L
    | DfaHamiltonian   // H_dfa
    | LoscHamiltonian  // H_losc

  /** The engine's only error kind. */
  datatype DimensionError =
    | TooManyLocalizedOrbitals(nlo: nat, nbasis: nat)
    | Mismatch(operand: Operand, rows: nat, cols: nat, expectedRows: nat, expectedCols: nat)

  datatype Result<T> = Ok(value: T) | Err(error: DimensionError)

  /** The error raised when m, standing for `which`, is not r×c. */
  function MismatchOf(which: Operand, m: Matrix, r: nat, c: nat): DimensionError
  {
    Mismatch(which, m.rows, m.cols, r, c)
  }

  // ---------------------------------------------------------------------
  // AO Hamiltonian correction
  // ---------------------------------------------------------------------

  /** Every shape check of the AO Hamiltonian correction passes. */
  predicate AoShapesAgree(S: Matrix, C: Matrix, K: Matrix, L: Matrix)
  {
    && C.cols <= C.rows
    && HasShape(S, C.rows, C.rows)
    && HasShape(K, C.cols, C.cols)
    && HasShape(L, C.cols, C.cols)
  }

  /** The value the triangle-fill loop stores at (i, j) for i ≥ j. */
  function LowerEntry(K: Matrix, L: Matrix, i: nat, j: nat): real
  {
    if i != j then -At(K, i, j) * At(L, i, j)
    else 0.5 * At(K, i, j) - At(K, i, j) * At(L, i, j)
  }

  /** The intermediate A: made from the lower triangles of κ and L only and
      mirrored across the diagonal. */
  function CorrectionMatrix(K: Matrix, L: Matrix): (A: Matrix)
    ensures HasShape(A, K.rows, K.rows)
    ensures forall i: nat, j: nat :: j <= i < K.rows ==> At(A, i, j) == LowerEntry(K, L, i, j)
  {
    var f := (i: nat, j: nat) => if j <= i then LowerEntry(K, L, i, j) else LowerEntry(K, L, j, i);
    BuildAllAt(K.rows, K.rows, f);
    Build(K.rows, K.rows, f)
  }

  lemma CorrectionMatrixAt(K: Matrix, L: Matrix, i: nat, j: nat)
    ensures At(CorrectionMatrix(K, L), i, j)
         == if i < K.rows && j < K.rows then (if j <= i then LowerEntry(K, L, i, j) else LowerEntry(K, L, j, i))
            else 0.0
  {
    BuildAt(K.rows, K.rows, (i: nat, j: nat) => if j <= i then LowerEntry(K, L, i, j) else LowerEntry(K, L, j, i), i, j);
  }

  /** The product S·C·A·Cᵀ·S, associated from the left as it is evaluated. */
  function AoProjection(S: Matrix, C: Matrix, A: Matrix): (H: Matrix)
    requires HasShape(S, C.rows, C.rows) && HasShape(A, C.cols, C.cols)
    ensures HasShape(H, C.rows, C.rows)
  {
    Mul(Mul(Mul(Mul(S, C), A), Transpose(C)), S)
  }

  /** The AO-basis LOSC Hamiltonian correction: fails on the first shape
      check that does not hold, otherwise fills A in place and projects it. */
  method AoHamiltonianCorrection(S: Matrix, C: Matrix, K: Matrix, L: Matrix) returns (r: Result<Matrix>)
    ensures C.cols > C.rows ==> r == Err(TooManyLocalizedOrbitals(C.cols, C.rows))
    ensures C.cols <= C.rows && !HasShape(S, C.rows, C.rows)
      ==> r == Err(MismatchOf(Overlap, S, C.rows, C.rows))
    ensures C.cols <= C.rows && HasShape(S, C.rows, C.rows) && !HasShape(K, C.cols, C.cols)
      ==> r == Err(MismatchOf(Curvature, K, C.cols, C.cols))
    ensures C.cols <= C.rows && HasShape(S, C.rows, C.rows) && HasShape(K, C.cols, C.cols)
            && !HasShape(L, C.cols, C.cols)
      ==> r == Err(MismatchOf(LocalOccupation, L, C.cols, C.cols))
    ensures AoShapesAgree(S, C, K, L) ==> r == Ok(AoProjection(S, C, CorrectionMatrix(K, L)))
  {
    var nlo, nbasis := C.cols, C.rows;
    if nlo > nbasis {
      return Err(TooManyLocalizedOrbitals(nlo, nbasis));
    }
    if !HasShape(S, nbasis, nbasis) {
      return Err(MismatchOf(Overlap, S, nbasis, nbasis));
    }
    if !HasShape(K, nlo, nlo) {
      return Err(MismatchOf(Curvature, K, nlo, nlo));
    }
    if !HasShape(L, nlo, nlo) {
      return Err(MismatchOf(LocalOccupation, L, nlo, nlo));
    }

    ghost var spec := CorrectionMatrix(K, L);
    // the cells of a written so far; each is written exactly once
    ghost var written: set<(int, int)> := {};
    var a := new real[nlo, nlo];
    var i := 0;
    while i < nlo
      invariant 0 <= i <= nlo
      invariant forall p, q :: 0 <= p < i && 0 <= q < i ==> a[p, q] == At(spec, p, q)
      invariant forall p, q :: (p, q) in written <==> 0 <= p < i && 0 <= q < i
    {
      var j := 0;
      while j <= i
        invariant 0 <= j <= i + 1
        invariant forall p, q :: 0 <= p < i && 0 <= q < i ==> a[p, q] == At(spec, p, q)
        invariant forall q :: 0 <= q < j ==> a[i, q] == At(spec, i, q) && a[q, i] == At(spec, q, i)
        invariant forall p, q :: (p, q) in written <==>
                    (0 <= p < i && 0 <= q < i) || (p == i && 0 <= q < j) || (q == i && 0 <= p < j)
      {
        CorrectionMatrixAt(K, L, i, j);
        CorrectionMatrixAt(K, L, j, i);
        var kij := K.entries[i][j];
        var lij := L.entries[i][j];
        if i != j {
          assert (i, j) !in written && (j, i) !in written;
          a[i, j] := -kij * lij;
          a[j, i] := a[i, j];
          written := written + {(i, j), (j, i)};
        } else {
          assert (i, j) !in written;
          a[i, j] := 0.5 * kij - kij * lij;
          written := written + {(i, j)};
        }
        j := j + 1;
      }
      i := i + 1;
    }
    var A := ArrayToMatrix(a);
    MatrixEq(A, spec);
    r := Ok(Mul(Mul(Mul(Mul(S, C), A), Transpose(C)), S));
  }

  /** Entry values of A: −κ_ij·L_ij on both sides of the diagonal for i > j,
      and 0.5·κ_ii − κ_ii·L_ii on it. */
  lemma CorrectionMatrixEntries(K: Matrix, L: Matrix, i: nat, j: nat)
    requires HasShape(K, K.rows, K.rows) && HasShape(L, K.rows, K.rows) && j <= i < K.rows
    ensures i > j ==> At(CorrectionMatrix(K, L), i, j) == At(CorrectionMatrix(K, L), j, i)
                                                    == -K.entries[i][j] * L.entries[i][j]
    ensures i == j ==>
              At(CorrectionMatrix(K, L), i, i) == 0.5 * K.entries[i][i] - K.entries[i][i] * L.entries[i][i]
  {
    CorrectionMatrixAt(K, L, i, j);
    CorrectionMatrixAt(K, L, j, i);
  }

  /** A is symmetric, whatever κ and L are. */
  lemma CorrectionMatrixSymmetric(K: Matrix, L: Matrix)
    ensures Symmetric(CorrectionMatrix(K, L))
  {
    var A := CorrectionMatrix(K, L);
    forall i: nat, j: nat | i < K.rows && j < K.rows
      ensures At(A, i, j) == At(A, j, i)
    {
      CorrectionMatrixAt(K, L, i, j);
      CorrectionMatrixAt(K, L, j, i);
    }
  }

  /** Two κ, L pairs with the same lower triangles (j ≤ i) give the same A:
      the strictly upper entries are never read. */
  lemma CorrectionMatrixReadsLowerTriangle(K: Matrix, L: Matrix, K': Matrix, L': Matrix)
    requires K.rows == K'.rows
    requires forall i: nat, j: nat :: j <= i < K.rows ==> At(K, i, j) == At(K', i, j)
    requires forall i: nat, j: nat :: j <= i < K.rows ==> At(L, i, j) == At(L', i, j)
    ensures CorrectionMatrix(K, L) == CorrectionMatrix(K', L')
  {
    var A, A' := CorrectionMatrix(K, L), CorrectionMatrix(K', L');
    forall i: nat, j: nat | i < K.rows && j < K.rows
      ensures At(A, i, j) == At(A', i, j)
    {
      CorrectionMatrixAt(K, L, i, j);
      CorrectionMatrixAt(K', L', i, j);
      if j <= i {
        assert At(A, i, j) == LowerEntry(K, L, i, j) == LowerEntry(K', L', i, j);
      } else {
        assert At(A, i, j) == LowerEntry(K, L, j, i) == LowerEntry(K', L', j, i);
      }
    }
    MatrixEq(A, A');
  }

  /** Hence the Hamiltonian correction ignores the strictly upper entries of κ and L. */
  lemma AoCorrectionReadsLowerTriangle(S: Matrix, C: Matrix, K: Matrix, L: Matrix, K': Matrix, L': Matrix)
    requires AoShapesAgree(S, C, K, L) && AoShapesAgree(S, C, K', L')
    requires forall i: nat, j: nat :: j <= i < K.rows ==> At(K, i, j) == At(K', i, j)
    requires forall i: nat, j: nat :: j <= i < K.rows ==> At(L, i, j) == At(L', i, j)
    ensures AoProjection(S, C, CorrectionMatrix(K, L)) == AoProjection(S, C, CorrectionMatrix(K', L'))
  {
    CorrectionMatrixReadsLowerTriangle(K, L, K', L');
  }

  /** S·C·A·Cᵀ·S is symmetric when S and A are. */
  lemma AoProjectionSymmetric(S: Matrix, C: Matrix, A: Matrix)
    requires HasShape(S, C.rows, C.rows) && HasShape(A, C.cols, C.cols)
    requires Symmetric(S) && Symmetric(A)
    ensures Symmetric(AoProjection(S, C, A))
  {
    var Ct := Transpose(C);
    var H := AoProjection(S, C, A);
    SymmetricIffSelfTranspose(S);
    SymmetricIffSelfTranspose(A);
    // H = S·(C·(A·(Cᵀ·S)))
    MulAssoc(Mul(Mul(S, C), A), Ct, S);
    MulAssoc(Mul(S, C), A, Mul(Ct, S));
    MulAssoc(S, C, Mul(A, Mul(Ct, S)));
    assert H == Mul(S, Mul(C, Mul(A, Mul(Ct, S))));
    // Hᵀ = Sᵀ·(Cᵀᵀ·(Aᵀ·(Cᵀ·Sᵀ)))
    TransposeMul(Mul(Mul(Mul(S, C), A), Ct), S);
    TransposeMul(Mul(Mul(S, C), A), Ct);
    TransposeMul(Mul(S, C), A);
    TransposeMul(S, C);
    TransposeTranspose(C);
    assert Transpose(H) == Mul(S, Mul(C, Mul(A, Mul(Ct, S))));
    SymmetricIffSelfTranspose(H);
  }

  /** For a symmetric overlap matrix the Hamiltonian correction is symmetric. */
  lemma AoCorrectionSymmetric(S: Matrix, C: Matrix, K: Matrix, L: Matrix)
    requires AoShapesAgree(S, C, K, L) && Symmetric(S)
    ensures Symmetric(AoProjection(S, C, CorrectionMatrix(K, L)))
  {
    CorrectionMatrixSymmetric(K, L);
    AoProjectionSymmetric(S, C, CorrectionMatrix(K, L));
  }

  /** With an all-zero curvature the Hamiltonian correction vanishes. */
  lemma ZeroCurvatureNoCorrection(S: Matrix, C: Matrix, K: Matrix, L: Matrix)
    requires AoShapesAgree(S, C, K, L) && IsZero(K)
    ensures IsZero(AoProjection(S, C, CorrectionMatrix(K, L)))
  {
    var A := CorrectionMatrix(K, L);
    forall i: nat, j: nat | i < A.rows && j < A.cols
      ensures At(A, i, j) == 0.0
    {
      CorrectionMatrixAt(K, L, i, j);
    }
    MulZero(Mul(S, C), A);
    MulZero(Mul(Mul(S, C), A), Transpose(C));
    MulZero(Mul(Mul(Mul(S, C), A), Transpose(C)), S);
  }

  /** With an all-zero local occupation A is not zero: it keeps half of the
      curvature's diagonal, ½·κ_ii, and is zero elsewhere. */
  lemma ZeroOccupationHalvesCurvatureDiagonal(K: Matrix, L: Matrix, i: nat, j: nat)
    requires IsZero(L) && i < K.rows && j < K.rows
    ensures At(CorrectionMatrix(K, L), i, j) == if i == j then 0.5 * At(K, i, i) else 0.0
  {
    CorrectionMatrixAt(K, L, i, j);
  }

  /** The worked 2×2 case: κ = [[2,1],[1,3]], L = [[0.5,0.2],[0.2,0.6]] give
      A = [[0, −0.2], [−0.2, −0.3]]. */
  lemma CorrectionMatrixExample()
    ensures CorrectionMatrix(RawMatrix(2, 2, [[2.0, 1.0], [1.0, 3.0]]), RawMatrix(2, 2, [[0.5, 0.2], [0.2, 0.6]]))
         == RawMatrix(2, 2, [[0.0, -0.2], [-0.2, -0.3]])
  {
    var K: Matrix := RawMatrix(2, 2, [[2.0, 1.0], [1.0, 3.0]]);
    var L: Matrix := RawMatrix(2, 2, [[0.5, 0.2], [0.2, 0.6]]);
    var E: Matrix := RawMatrix(2, 2, [[0.0, -0.2], [-0.2, -0.3]]);
    forall i: nat, j: nat | i < 2 && j < 2
      ensures At(CorrectionMatrix(K, L), i, j) == At(E, i, j)
    {
      CorrectionMatrixAt(K, L, i, j);
    }
    MatrixEq(CorrectionMatrix(K, L), E);
  }

  // ---------------------------------------------------------------------
  // Energy correction
  // ---------------------------------------------------------------------

  /** The self-interaction term of LO i: ½·κ_ii·L_ii·(1 − L_ii). */
  function DiagonalTerm(K: Matrix, L: Matrix, i: nat): real
  {
    0.5 * At(K, i, i) * At(L, i, i) * (1.0 - At(L, i, i))
  }

  /** The cross-occupation term of the pair (i, j): κ_ij·L_ij². */
  function PairTerm(K: Matrix, L: Matrix, i: nat, j: nat): real
  {
    At(K, i, j) * At(L, i, j) * At(L, i, j)
  }

  /** Σ_{j<m} κ_ij·L_ij². */
  function RowPairSum(K: Matrix, L: Matrix, i: nat, m: nat): real
  {
    Sum(m, (j: nat) => PairTerm(K, L, i, j))
  }

  /** Σ_{i<n} ½·κ_ii·L_ii·(1 − L_ii). */
  function DiagonalSum(K: Matrix, L: Matrix, n: nat): real
  {
    Sum(n, (i: nat) => DiagonalTerm(K, L, i))
  }

  /** Σ_{j<i<n} κ_ij·L_ij²: every unordered pair once, from the lower triangle. */
  function LowerPairSum(K: Matrix, L: Matrix, n: nat): real
  {
    Sum(n, (i: nat) => RowPairSum(K, L, i, i))
  }

  /** The closed form of the LOSC energy correction over nlo = κ.rows LOs: the
      self terms less every lower pair term. It is also the sum, LO by LO, of
      each LO's self term less its pair terms with the LOs before it. */
  function EnergyClosedForm(K: Matrix, L: Matrix): (e: real)
    ensures e == Sum(K.rows, (i: nat) => DiagonalTerm(K, L, i) - RowPairSum(K, L, i, i))
  {
    SumAdd(K.rows, (i: nat) => DiagonalTerm(K, L, i) - RowPairSum(K, L, i, i),
           (i: nat) => RowPairSum(K, L, i, i), (i: nat) => DiagonalTerm(K, L, i));
    DiagonalSum(K, L, K.rows) - LowerPairSum(K, L, K.rows)
  }

  /** The scalar LOSC energy correction, accumulated row by row. */
  method EnergyCorrection(K: Matrix, L: Matrix) returns (r: Result<real>)
    ensures !HasShape(K, K.rows, K.rows) ==> r == Err(MismatchOf(Curvature, K, K.rows, K.rows))
    ensures HasShape(K, K.rows, K.rows) && !HasShape(L, K.rows, K.rows)
      ==> r == Err(MismatchOf(LocalOccupation, L, K.rows, K.rows))
    ensures HasShape(K, K.rows, K.rows) && HasShape(L, K.rows, K.rows) ==> r == Ok(EnergyClosedForm(K, L))
  {
    var nlo := K.rows;
    if !HasShape(K, nlo, nlo) {
      return Err(MismatchOf(Curvature, K, nlo, nlo));
    }
    if !HasShape(L, nlo, nlo) {
      return Err(MismatchOf(LocalOccupation, L, nlo, nlo));
    }
    var energy := 0.0;
    var i := 0;
    while i < nlo
      invariant 0 <= i <= nlo
      invariant energy == DiagonalSum(K, L, i) - LowerPairSum(K, L, i)
    {
      energy := energy + 0.5 * K.entries[i][i] * L.entries[i][i] * (1.0 - L.entries[i][i]);
      var j := 0;
      while j < i
        invariant 0 <= j <= i
        invariant energy == DiagonalSum(K, L, i + 1) - LowerPairSum(K, L, i) - RowPairSum(K, L, i, j)
      {
        energy := energy - K.entries[i][j] * L.entries[i][j] * L.entries[i][j];
        j := j + 1;
      }
      i := i + 1;
    }
    return Ok(energy);
  }

  /** At integer occupation (every L_ii is 0 or 1, every L_ij below the
      diagonal is 0) there is nothing to correct. */
  lemma IntegerOccupationNoEnergyCorrection(K: Matrix, L: Matrix)
    requires forall i: nat :: i < K.rows ==> At(L, i, i) == 0.0 || At(L, i, i) == 1.0
    requires forall i: nat, j: nat :: j < i < K.rows ==> At(L, i, j) == 0.0
    ensures EnergyClosedForm(K, L) == 0.0
  {
    var n := K.rows;
    SumZero(n, (i: nat) => DiagonalTerm(K, L, i));
    forall i: nat | i < n
      ensures RowPairSum(K, L, i, i) == 0.0
    {
      SumZero(i, (j: nat) => PairTerm(K, L, i, j));
    }
    SumZero(n, (i: nat) => RowPairSum(K, L, i, i));
  }

  /** The energy correction, too, ignores the strictly upper entries of κ and L. */
  lemma EnergyReadsLowerTriangle(K: Matrix, L: Matrix, K': Matrix, L': Matrix)
    requires K.rows == K'.rows
    requires forall i: nat, j: nat :: j <= i < K.rows ==> At(K, i, j) == At(K', i, j)
    requires forall i: nat, j: nat :: j <= i < K.rows ==> At(L, i, j) == At(L', i, j)
    ensures EnergyClosedForm(K, L) == EnergyClosedForm(K', L')
  {
    var n := K.rows;
    SumExt(n, (i: nat) => DiagonalTerm(K, L, i), (i: nat) => DiagonalTerm(K', L', i));
    forall i: nat | i < n
      ensures RowPairSum(K, L, i, i) == RowPairSum(K', L', i, i)
    {
      SumExt(i, (j: nat) => PairTerm(K, L, i, j), (j: nat) => PairTerm(K', L', i, j));
    }
    SumExt(n, (i: nat) => RowPairSum(K, L, i, i), (i: nat) => RowPairSum(K', L', i, i));
  }

  // ---------------------------------------------------------------------
  // Post-SCF orbital energies
  // ---------------------------------------------------------------------

  /** The energy of orbital i: c_iᵀ·H·c_i for the column c_i of C, which is
      the quadratic form Σ_q (Σ_p C_pi·H_pq)·C_qi. */
  function OrbitalEnergy(C: Matrix, H: Matrix, i: nat): (e: real)
    requires HasShape(H, C.rows, C.rows)
    ensures e == QuadraticForm(C, H, i)
  {
    ColumnAt(C, i);
    ColumnQuadraticForm(Column(C, i), C, H, i);
    At(Mul(Mul(Transpose(Column(C, i)), H), Column(C, i)), 0, 0)
  }

  /** Post-SCF orbital energies: for each column of C, in order, its
      quadratic form with H_dfa + H_losc. */
  method OrbitalEnergyPostScf(Hdfa: Matrix, Hlosc: Matrix, C: Matrix) returns (r: Result<seq<real>>)
    ensures !HasShape(Hdfa, C.rows, C.rows) ==> r == Err(MismatchOf(DfaHamiltonian, Hdfa, C.rows, C.rows))
    ensures HasShape(Hdfa, C.rows, C.rows) && !HasShape(Hlosc, C.rows, C.rows)
      ==> r == Err(MismatchOf(LoscHamiltonian, Hlosc, C.rows, C.rows))
    ensures HasShape(Hdfa, C.rows, C.rows) && HasShape(Hlosc, C.rows, C.rows)
      ==> r.Ok? && |r.value| == C.cols
          && forall i :: 0 <= i < C.cols ==> r.value[i] == OrbitalEnergy(C, Add(Hdfa, Hlosc), i)
  {
    var nbasis, norb := C.rows, C.cols;
    if !HasShape(Hdfa, nbasis, nbasis) {
      return Err(MismatchOf(DfaHamiltonian, Hdfa, nbasis, nbasis));
    }
    if !HasShape(Hlosc, nbasis, nbasis) {
      return Err(MismatchOf(LoscHamiltonian, Hlosc, nbasis, nbasis));
    }
    var Htot := Add(Hdfa, Hlosc);
    var eig := new real[norb](_ => 0.0);
    var i := 0;
    while i < norb
      invariant 0 <= i <= norb
      invariant forall k :: 0 <= k < i ==> eig[k] == OrbitalEnergy(C, Htot, k)
    {
      var c := Column(C, i);
      eig[i] := At(Mul(Mul(Transpose(c), Htot), c), 0, 0);
      i := i + 1;
    }
    return Ok(eig[..]);
  }

  /** Entry q of the row vector c_iᵀ·H: Σ_p C_pi·H_pq. */
  function ProjectedRow(C: Matrix, H: Matrix, i: nat, q: nat): real
  {
    Sum(C.rows, (p: nat) => At(C, p, i) * At(H, p, q))
  }

  /** The quadratic form Σ_q (Σ_p C_pi·H_pq)·C_qi of column i of C. */
  function QuadraticForm(C: Matrix, H: Matrix, i: nat): real
  {
    Sum(C.rows, (q: nat) => ProjectedRow(C, H, i, q) * At(C, q, i))
  }

  /** Entry q of cᵀ·H, for a column c holding column i of C. */
  lemma ColumnTransposeTimesAt(c: Matrix, C: Matrix, H: Matrix, i: nat, q: nat)
    requires HasShape(c, C.rows, 1) && HasShape(H, C.rows, C.rows) && q < C.rows
    requires forall p: nat :: p < C.rows ==> At(c, p, 0) == At(C, p, i)
    ensures At(Mul(Transpose(c), H), 0, q) == ProjectedRow(C, H, i, q)
  {
    var ct := Transpose(c);
    forall p: nat | p < C.rows
      ensures At(ct, 0, p) * At(H, p, q) == At(C, p, i) * At(H, p, q)
    {
      TransposeAt(c, 0, p);
    }
    MulAtSum(ct, H, 0, q, (p: nat) => At(C, p, i) * At(H, p, q));
  }

  /** Entry (i, q) of Cᵀ·H. */
  lemma TransposeTimesAt(C: Matrix, H: Matrix, i: nat, q: nat)
    requires HasShape(H, C.rows, C.rows) && i < C.cols && q < C.rows
    ensures At(Mul(Transpose(C), H), i, q) == ProjectedRow(C, H, i, q)
  {
    var ct := Transpose(C);
    forall p: nat | p < C.rows
      ensures At(ct, i, p) * At(H, p, q) == At(C, p, i) * At(H, p, q)
    {
      TransposeAt(C, i, p);
    }
    MulAtSum(ct, H, i, q, (p: nat) => At(C, p, i) * At(H, p, q));
  }

  /** cᵀ·H·c, for a column c holding column i of C, is the quadratic form. */
  lemma ColumnQuadraticForm(c: Matrix, C: Matrix, H: Matrix, i: nat)
    requires HasShape(c, C.rows, 1) && HasShape(H, C.rows, C.rows)
    requires forall p: nat :: p < C.rows ==> At(c, p, 0) == At(C, p, i)
    ensures At(Mul(Mul(Transpose(c), H), c), 0, 0) == QuadraticForm(C, H, i)
  {
    var m := Mul(Transpose(c), H);
    forall q: nat | q < C.rows
      ensures At(m, 0, q) * At(c, q, 0) == ProjectedRow(C, H, i, q) * At(C, q, i)
    {
      ColumnTransposeTimesAt(c, C, H, i, q);
    }
    MulAtSum(m, c, 0, 0, (q: nat) => ProjectedRow(C, H, i, q) * At(C, q, i));
  }

  /** The same number is the i-th diagonal entry of Cᵀ·H·C: the energies are
      the diagonal of H in the orbital basis. */
  lemma OrbitalEnergyIsDiagonal(C: Matrix, H: Matrix, i: nat)
    requires HasShape(H, C.rows, C.rows) && i < C.cols
    ensures OrbitalEnergy(C, H, i) == At(Mul(Mul(Transpose(C), H), C), i, i)
  {
    var m := Mul(Transpose(C), H);
    forall q: nat | q < C.rows
      ensures At(m, i, q) * At(C, q, i) == ProjectedRow(C, H, i, q) * At(C, q, i)
    {
      TransposeTimesAt(C, H, i, q);
    }
    MulAtSum(m, C, i, i, (q: nat) => ProjectedRow(C, H, i, q) * At(C, q, i));
  }

  /** Orbital energies are additive in the Hamiltonian:
      c_iᵀ(H₁ + H₂)c_i = c_iᵀH₁c_i + c_iᵀH₂c_i. */
  lemma OrbitalEnergyAdditive(C: Matrix, H1: Matrix, H2: Matrix, i: nat)
    requires HasShape(H1, C.rows, C.rows) && HasShape(H2, C.rows, C.rows)
    ensures OrbitalEnergy(C, Add(H1, H2), i) == OrbitalEnergy(C, H1, i) + OrbitalEnergy(C, H2, i)
  {
    var c := Column(C, i);
    var ct := Transpose(c);
    MulAddRight(ct, H1, H2);
    MulAddLeft(Mul(ct, H1), Mul(ct, H2), c);
  }

  /** With a zero LOSC Hamiltonian the post-SCF energies are the DFA ones. */
  lemma ZeroLoscHamiltonianKeepsEnergies(C: Matrix, Hdfa: Matrix, Hlosc: Matrix, i: nat)
    requires HasShape(Hdfa, C.rows, C.rows) && HasShape(Hlosc, C.rows, C.rows) && IsZero(Hlosc)
    ensures OrbitalEnergy(C, Add(Hdfa, Hlosc), i) == OrbitalEnergy(C, Hdfa, i)
  {
    AddZero(Hdfa, Hlosc);
  }

  /** Feeding a correction from an all-zero curvature into the post-SCF step
      reproduces the DFA orbital energies. */
  lemma ZeroCurvatureKeepsEnergies(S: Matrix, C: Matrix, K: Matrix, L: Matrix, Cco: Matrix, Hdfa: Matrix, i: nat)
    requires AoShapesAgree(S, C, K, L) && IsZero(K)
    requires Cco.rows == C.rows && HasShape(Hdfa, C.rows, C.rows)
    ensures OrbitalEnergy(Cco, Add(Hdfa, AoProjection(S, C, CorrectionMatrix(K, L))), i)
         == OrbitalEnergy(Cco, Hdfa, i)
  {
    ZeroCurvatureNoCorrection(S, C, K, L);
    ZeroLoscHamiltonianKeepsEnergies(Cco, Hdfa, AoProjection(S, C, CorrectionMatrix(K, L)), i);
  }
}
