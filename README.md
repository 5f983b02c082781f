# LOSC correction assembly, modelled in Dafny

This project models the correction-assembly stage of LOSC, the localized
orbital scaling correction to density-functional approximations (DFA). It
covers one spin channel. Given the curvature matrix κ and the local
occupation matrix L over `nlo` localized orbitals (LOs), the stage computes
three things:

- the AO-basis Hamiltonian correction `S·C_lo·A·C_loᵀ·S`, where A is a
  symmetric intermediate filled from the lower triangles of κ and L;
- the scalar energy correction
  `Σ_i ½·κ_ii·L_ii·(1 − L_ii) − Σ_{i>j} κ_ij·L_ij²`;
- the post-SCF orbital energies `c_iᵀ(H_dfa + H_losc)c_i`, one per column of
  the coefficient matrix.

Each operation first checks the shapes of its inputs. It raises a dimension
error on the first check that fails.

Files:

- `sums.dfy`, module `Sums`: finite sums `Σ_{k<n} f(k)` of real terms, with
  extensionality, linearity and the exchange of a double sum.
- `matrices.dfy`, module `Matrices`: dense real matrices with an explicit
  shape (`RawMatrix`, restricted to well-formed values by the subset type
  `Matrix`).
  - `HasShape(m, r, c)` is the engine's shape test: `m` is `r×c`.
  - Product, transpose, sum and column extraction are specification
    functions that stand in for the Eigen expressions.
  - Lemmas give associativity, `(xy)ᵀ = yᵀxᵀ`, distributivity, and the
    behaviour of zero matrices.
- `correction.dfy`, module `Correction`: the error model, the three
  operations as methods, and the properties proved about them.

The operations are imperative, as they are in the source:

- `AoHamiltonianCorrection` fills A in a local two-dimensional array with
  the source's nested triangle loop. It is proved equal to the specification
  function `CorrectionMatrix`.
- `EnergyCorrection` accumulates the energy with the source's two loops. Its
  loop invariants relate the partial sum to the closed form
  `EnergyClosedForm`.
- `OrbitalEnergyPostScf` fills the result array one column at a time.

Errors are values of `DimensionError`:

- `TooManyLocalizedOrbitals(nlo, nbasis)` when there are more LOs than AOs;
- `Mismatch(operand, rows, cols, expectedRows, expectedCols)` for an input
  of the wrong shape.

They are returned in a `Result`. The Eigen matrices become `Matrix` values,
and `double` becomes `real`.

## Model

| member | source | states |
|---|---|---|
| Correction.AoHamiltonianCorrection | losc/src/correction.cpp:11-55 | Fails with TooManyLocalizedOrbitals when C_lo has more columns than rows. Otherwise, in source order, it fails with a Mismatch naming S (expected nbasis×nbasis), κ or L (expected nlo×nlo) on the first wrong shape. When every check passes it succeeds with S·C_lo·A·C_loᵀ·S, where A is the matrix the triangle loop fills. Inside the method, ghost assertions show that the loop writes each cell of A exactly once. |
| Correction.CorrectionMatrix | losc/src/correction.cpp:40-52 | A is nlo×nlo. Its lower triangle (j ≤ i) holds LowerEntry: −κ_ij·L_ij off the diagonal and ½·κ_ii − κ_ii·L_ii on it. CorrectionMatrixSymmetric shows that the upper triangle is the mirror. |
| Correction.CorrectionMatrixEntries | losc/src/correction.cpp:43-50 | For i > j, A_ij = A_ji = −κ_ij·L_ij. For i = j, A_ii = ½·κ_ii − κ_ii·L_ii. |
| Correction.CorrectionMatrixSymmetric | losc/src/correction.cpp:40-52 | A is symmetric for every κ and L, whether or not they are symmetric themselves. |
| Correction.CorrectionMatrixReadsLowerTriangle | losc/src/correction.cpp:41-44 | Two κ, L pairs that agree on their lower triangles (j ≤ i) give the same A. |
| Correction.AoCorrectionReadsLowerTriangle | losc/src/correction.cpp:41-44 | The Hamiltonian correction does not depend on the strictly upper entries of κ and L. |
| Correction.AoProjection | losc/src/correction.cpp:54 | The product S·C_lo·A·C_loᵀ·S, associated from the left as written, is nbasis×nbasis. |
| Correction.AoProjectionSymmetric | losc/src/correction.cpp:54 | S·C·A·Cᵀ·S is symmetric when S and A are. |
| Correction.AoCorrectionSymmetric | losc/src/correction.cpp:40-54 | For a symmetric overlap matrix S, the Hamiltonian correction is symmetric. |
| Correction.ZeroCurvatureNoCorrection | losc/src/correction.cpp:40-54 | An all-zero κ gives an all-zero Hamiltonian correction. |
| Correction.ZeroOccupationHalvesCurvatureDiagonal | losc/src/correction.cpp:45-50 | An all-zero L does not give a zero A. A keeps ½·κ_ii on its diagonal and is zero elsewhere. |
| Correction.CorrectionMatrixExample | losc/src/correction.cpp:40-52 | κ = [[2,1],[1,3]] and L = [[0.5,0.2],[0.2,0.6]] give A = [[0,−0.2],[−0.2,−0.3]]. |
| Correction.EnergyClosedForm | losc/src/correction.cpp:71-78 | The closed form Σ_{i<nlo} ½·κ_ii·L_ii·(1−L_ii) − Σ_{j<i<nlo} κ_ij·L_ij² is also the LO-by-LO sum over i of the self term of LO i less its pair terms with j < i. Each such summand is what one pass of the outer loop adds. |
| Correction.EnergyCorrection | losc/src/correction.cpp:57-80 | nlo is κ's row count. Fails with a κ Mismatch when κ is not square, else with an L Mismatch when L is not nlo×nlo. Otherwise it returns exactly Σ_i ½·κ_ii·L_ii·(1−L_ii) − Σ_{j<i} κ_ij·L_ij². |
| Correction.IntegerOccupationNoEnergyCorrection | losc/src/correction.cpp:73-77 | If every L_ii is 0 or 1 and every strictly lower L_ij is 0, the energy correction is 0. |
| Correction.EnergyReadsLowerTriangle | losc/src/correction.cpp:73-77 | The energy correction reads only the lower triangles of κ and L. Changing strictly upper entries leaves it unchanged. |
| Correction.OrbitalEnergyPostScf | losc/src/correction.cpp:82-106 | Fails with an H_dfa Mismatch, else with an H_losc Mismatch, when that matrix is not nbasis×nbasis (nbasis is C_co's row count). Otherwise it returns a sequence of length C_co.cols() whose i-th element is c_iᵀ(H_dfa + H_losc)c_i, in column order. |
| Correction.OrbitalEnergy | losc/src/correction.cpp:103 | Entry (0,0) of c_iᵀ·H·c_i for column i of C equals the quadratic form Σ_q (Σ_p C_pi·H_pq)·C_qi. |
| Correction.OrbitalEnergyIsDiagonal | losc/src/correction.cpp:101-104 | The i-th orbital energy is the i-th diagonal entry of C_coᵀ·H·C_co. |
| Correction.OrbitalEnergyAdditive | losc/src/correction.cpp:100-103 | c_iᵀ(H₁ + H₂)c_i = c_iᵀH₁c_i + c_iᵀH₂c_i. |
| Correction.ZeroLoscHamiltonianKeepsEnergies | losc/src/correction.cpp:100-103 | With an all-zero H_losc, the energies are c_iᵀ·H_dfa·c_i. |
| Correction.ZeroCurvatureKeepsEnergies | losc/src/correction.cpp:54 | Feeding the correction from an all-zero κ into the post-SCF step reproduces the DFA orbital energies. |
| Matrices.MulAssoc | losc/src/correction.cpp:54 | (x·y)·z = x·(y·z). |
| Matrices.TransposeMul | losc/src/correction.cpp:54 | (x·y)ᵀ = yᵀ·xᵀ. |
| Matrices.MulZero | losc/src/correction.cpp:54 | A product with an all-zero factor is all-zero. |
| Matrices.MulAddRight | losc/src/correction.cpp:100-103 | x·(a + b) = x·a + x·b. |
| Matrices.MulAddLeft | losc/src/correction.cpp:100-103 | (a + b)·y = a·y + b·y. |
| Matrices.AddZero | losc/src/correction.cpp:100 | Adding an all-zero matrix changes nothing. |
| Sums.SumSwap | losc/src/correction.cpp:54 | The two orders of a finite double sum agree. This is the step behind associativity of the product. |

## Left out

- Floating point: entries are `real`. IEEE-754 rounding and Eigen's
  product algorithms are not modelled, so the properties hold exactly
  rather than within round-off.
- The text of the dimension-error messages is not modelled. Only which
  check failed and the shapes involved are kept. In the first check,
  more LOs than AOs, the source's error carries a message only. The counts
  in `TooManyLocalizedOrbitals(nlo, nbasis)` are the model's own addition.
- `mtx_match_dimension` lives in a helper header that is not part of this
  model. It is taken to mean "rows == r and cols == c".
- The curvature (κ) and local-occupation (L) engines are not part of this
  model. κ and L arrive as arbitrary inputs, and no lemma assumes they are
  symmetric.
- The binding layer for the scripting language, the SCF-driven tests and
  the matrix text I/O are outside the correction stage.
- The initial contents of A are not modelled. Eigen leaves
  `MatrixXd A(nlo, nlo)` uninitialised, and the model allocates its array
  without an initialiser. The proof for `AoHamiltonianCorrection` never uses
  those contents: its invariants speak only of cells the loop has written.
- Correction.AoHamiltonianCorrection: its postcondition does not say that
  each cell of A is written exactly once per unordered pair. That is proved
  by ghost assertions inside the method, which track the set of cells
  written so far.
- The post-SCF step is not tied to `C_lo` restricted to orthonormal columns,
  and no assumption about the columns of `C_co` is made. The energies are
  proved for any coefficient matrix.
- One might expect an all-zero L, like an all-zero κ, to give a zero
  correction. It does not: line 49 keeps ½·κ_ii on the diagonal of A. See
  `Correction.ZeroOccupationHalvesCurvatureDiagonal`.
