# Direct-stiffness analysis of a 2D pin-jointed truss, in Dafny

This project models the analysis pipeline of a small plane-truss solver that
exists in three versions: Rust with explicit index loops (`rust/src/main.rs`),
Python with NumPy fancy indexing (`PythonStructuralSolver.py`), and Python with
PyTorch masks (`truss_analysis_pytorch.py`). All three do the following:

1. For each bar, build the 4x4 element stiffness `ke = Tᵗ · kee · T` from the
   direction cosines `(cx, cy)`. `kee = k · [[1,-1],[-1,1]]` with
   `k = A·E/(12·c)`.
2. Add every `ke` into an N x N zero matrix at the bar's four 0-based DOFs.
   N is the largest entry of the 1-based DOF table.
3. Build the load vector from (DOF, value) pairs.
4. Keep the free DOFs (every index not restrained by a support) in ascending
   order and copy their rows and columns into the reduced system.
5. Solve the reduced system, then scatter the solution back into a full
   displacement vector that is zero at the supports.
6. Compute each reaction as the support's row of the unreduced matrix dotted
   with the full displacements.

Matrix and vector entries are Dafny `real`.

The model has three layers:

- **Shared specification.**
  - `Linear`: vectors and matrices as sequences.
  - `Element`: the element matrix and its closed form.
  - `Assembly`: the assembled matrix as a sum over elements.
  - `Loads`: the load vector.
  - `Boundary`: free DOFs, reduction and scatter-back.
  - `Pipeline`: the whole analysis as one pure function `Analysis`, returning `Result<Report>`.
- **One module per implementation, in that implementation's own form.**
  - `RustSolver`: zero-initialised arrays filled by `for` loops with invariants.
  - `NumpySolver`: simultaneous block updates (`forall` statements), `np.delete` and `np.put`.
  - `TorchSolver`: `meshgrid` updates, a boolean mask, and masked selection and assignment.

  Each module's `Analyse` method is proved to return exactly `Pipeline.Analysis`.
  The properties proved about `Analysis` therefore hold for all three programs.
- **Properties.**
  - Symmetry of the element, assembled and reduced matrices.
  - Non-negative diagonals of the element and assembled matrices.
  - The closed form and self-balance of `ke`.
  - Order and count of the free DOFs.
  - Zero displacement at supports.
  - The solved system holding at every free DOF of the full system.
  - Global force balance in each direction (`Equilibrium`).

The square root and the dense linear solver are inputs of the model:

- A bar carries its length `c` with `c > 0` and `c·c = dx² + dy²`.
- The solver is a function parameter that returns `None` (failure) or a
  vector. The lemmas that need a correct answer assume
  `SolverSound`: `K_mod · u = f_mod`.

The program stops without output in two cases, modelled as errors:

- An empty DOF table (no maximum to size the matrices by) gives `Err(NoElements)`.
- A failed solve gives `Err(SingularSystem)`.

Three behaviours of the code are worth noting; the model follows the code in each:

- **The `/12` factor.** The code uses `k = A·E/(12·c)` (`rust/src/main.rs:65`,
  `PythonStructuralSolver.py:65`, `truss_analysis_pytorch.py:57`) instead of the
  textbook `A·E/c`. A is in in² and E in ksi, as the code's comments state. If
  the coordinates are in feet, `12·c` is the bar length in inches, and the
  factor is a unit conversion.
- **Duplicated supports.** The code accepts them: `free_dofs` is a membership
  filter, and the reactions simply repeat. The model accepts them too.
  Only the force-balance lemma asks for distinct supports.
- **Zero-length bars.** The code does not detect them (it divides by zero).
  The model requires `c > 0`.

## Model

| member | source | states |
|---|---|---|
| Assembly.MaxDof | rust/src/main.rs:40-41 | N bounds every entry of the DOF table and is one of its entries, so every index `x-1` used in assembly lies in `0..N` |
| Loads.BuildLoads | rust/src/main.rs:44-47 | the force loop (the same loop as `PythonStructuralSolver.py:53-55`) leaves exactly the load vector: for each DOF, the value of the last pair naming it, else 0 |
| Loads.LoadVectorUnlisted | rust/src/main.rs:44-47 | a DOF that no load names carries 0 |
| Loads.LoadVectorLastWins | rust/src/main.rs:44-47 | a listed DOF carries the value of the last pair that names it; an earlier duplicate is overwritten |
| Element.UnitDirection | rust/src/main.rs:53-55 | for a bar of positive length `c` with `c·c = dx² + dy²`, the direction cosines `dx/c`, `dy/c` satisfy `cx² + cy² = 1` |
| Element.Transform | rust/src/main.rs:58-62 | `T` is 2x4 with `[cx, cy]` at the start of row 0 and the end of row 1, and zeros elsewhere |
| Element.TransformOrthonormal | rust/src/main.rs:58-62 | for unit direction cosines, the two rows of `T` are orthonormal |
| Element.BarTransformOrthonormal | rust/src/main.rs:53-62 | the `T` built from a well-formed bar's `dx_norm`, `dy_norm` has orthonormal rows |
| Element.AxialStiffness | rust/src/main.rs:65 | `kee` is a symmetric 2x2 matrix with `k` on the diagonal whose rows sum to zero |
| Element.ElementMatrix | rust/src/main.rs:68 | `Tᵗ · kee · T` is 4x4 (shape only; its entries are given by `Element.ElementEntry`) |
| Element.ElementStiffness | rust/src/main.rs:51-68 | the element matrix built from a bar is 4x4 (shape only; its content is carried by the lemmas on `Element.ElementMatrix`) |
| Element.Rigidity | rust/src/main.rs:65 | `k · (12·c) = A·E`, and `k >= 0` when `A·E >= 0` |
| Element.ElementEntry | rust/src/main.rs:58-68 | each entry of `Tᵗ·kee·T` equals `k·s_a·d_a·s_b·d_b`, with `d = (cx,cy,cx,cy)` and `s = (+,+,-,-)` |
| Element.ElementClosedForm | PythonStructuralSolver.py:59-66 | all sixteen entries of `T.T @ kee @ T`, built after dividing dx and dy by c, have that closed form (the same holds for the Rust and PyTorch products) |
| Element.ElementSymmetric | truss_analysis_pytorch.py:51-58 | `ke = T.t() @ kee @ T` is symmetric |
| Element.ElementDiagonalNonNegative | rust/src/main.rs:65-68 | `ke` has a non-negative diagonal whenever `k >= 0` |
| Element.ElementMatricesDiagonal | rust/src/main.rs:50-68 | with `A·E >= 0`, every element matrix built in the element loop has a non-negative diagonal |
| Element.ElementSelfBalanced | rust/src/main.rs:65-68 | `ke[a][0] + ke[a][2] = 0` and `ke[a][1] + ke[a][3] = 0` for every row a, and likewise for columns: a rigid translation of the bar produces no force |
| Element.ElementMatricesSymmetric | PythonStructuralSolver.py:58-70 | every element matrix built in the element loop is symmetric |
| Element.ElementMatricesBalanced | PythonStructuralSolver.py:58-70 | every element matrix built in the element loop has columns whose x-parts and y-parts cancel |
| Assembly.MaxDofAttained | rust/src/main.rs:40 | if every entry of the table is at most n and some entry equals n, then the maximum is n |
| Assembly.ScatterDistinct | rust/src/main.rs:72-76 | when an element's four DOFs are distinct, cell `(row[a]-1, row[b]-1)` receives exactly `ke[a][b]` from it |
| Assembly.ScatterOutside | rust/src/main.rs:72-76 | an element adds nothing to a cell whose row or column is not among its DOFs |
| Assembly.PrefixSymmetric | rust/src/main.rs:50-77 | after any number of elements the accumulated matrix is symmetric, so symmetry holds at every iteration |
| Assembly.StiffnessSymmetric | rust/src/main.rs:50-77 | the assembled N x N matrix is symmetric |
| Assembly.UntouchedCellZero | rust/src/main.rs:41 | a cell that no element touches keeps its initial 0 |
| Assembly.DiagonalNonNegative | rust/src/main.rs:72-76 | with distinct DOFs per element and element diagonals >= 0, every diagonal entry of K is >= 0 |
| RustSolver.AddElement | rust/src/main.rs:71-76 | the two local loops add to every cell exactly what the element scatters to it, and change nothing else |
| RustSolver.AddNthElement | rust/src/main.rs:51-76 | one pass of the element loop: builds ke for element e and takes every cell of k from the sum over the first e elements (`GlobalEntry(…, e, p, q)`) to the sum over the first e + 1 (`GlobalEntry(…, e + 1, p, q)`) |
| RustSolver.AssembleStiffness | rust/src/main.rs:50-77 | after the element loop, `k_global[p][q]` is the sum of `ke_e[a][b]` over all elements e and local pairs with `info[e][a]-1 = p`, `info[e][b]-1 = q` |
| Boundary.ZeroBased | rust/src/main.rs:80 | `support_indices` has one entry per support, each the support minus 1 |
| Boundary.FreeDofs | rust/src/main.rs:80-83 | every free DOF is below N and is not a support index |
| Boundary.FreeDofsIncreasing | rust/src/main.rs:80-83 | `free_dofs` is strictly increasing |
| Boundary.FreeDofsComplete | rust/src/main.rs:80-83 | every index below N that is not a support index is in `free_dofs` |
| Boundary.FreeRank | rust/src/main.rs:80-83 | a free index p sits in `free_dofs` at the position given by the number of free indices below p |
| Boundary.RankOfFree | rust/src/main.rs:80-83 | the i-th free index has exactly i free indices below it |
| Boundary.FreeCount | rust/src/main.rs:85 | `n_free = N - (number of distinct supports)` when every support is in range |
| Boundary.ReducedSymmetric | rust/src/main.rs:89-94 | `k_mod[i][j] = k_global[free[i]][free[j]]` keeps a symmetric matrix symmetric |
| RustSolver.ReduceSystem | rust/src/main.rs:86-94 | the reduced matrix holds the free rows and columns in order, and the reduced load vector holds the free entries in order |
| RustSolver.CopyFreeRow | rust/src/main.rs:91-93 | the inner copy loop sets `k_mod[i][j] = k_global[free[i]][free[j]]` for every j and leaves every other row of `k_mod` unchanged |
| Boundary.SupportRows | rust/src/main.rs:110 | the support rows of K, as `K_global[supports - 1, :]` (`PythonStructuralSolver.py:85`) and `K_global[supports - 1]` (`truss_analysis_pytorch.py:79`) select them: row i is row `supports[i] - 1` of K |
| Boundary.ExpandPlaces | rust/src/main.rs:100-103 | the full displacement vector is exactly 0 at every support and holds `displacements[i]` at `free_dofs[i]` |
| Boundary.ExpandGather | rust/src/main.rs:100-103 | a full vector that is 0 at the supports is recovered from its free entries: reduction and scatter-back are inverse |
| RustSolver.ScatterBack | rust/src/main.rs:100-103 | the scatter-back loop produces exactly that full displacement vector |
| RustSolver.Reactions | rust/src/main.rs:106-113 | the reaction loop accumulates, for each support in order, its row of the unreduced matrix dotted with the full displacements |
| RustSolver.RowTimes | rust/src/main.rs:108-111 | the accumulator loop returns `reaction == Dot(Cells(k)[r], full[..])`: row r of the unreduced matrix dotted with the full displacements |
| RustSolver.Analyse | rust/src/main.rs:39-113 | the Rust program computes exactly `Pipeline.Analysis` |
| Pipeline.Analysis | rust/src/main.rs:39-113 | on success there is one displacement per DOF and one reaction per support |
| Pipeline.AnalysisOutcome | rust/src/main.rs:97 | the analysis fails exactly when the table is empty or the solver returns no answer, and succeeds otherwise |
| Pipeline.SupportsFixed | rust/src/main.rs:99-103 | every support DOF has displacement exactly 0 |
| Pipeline.FreeDisplacements | rust/src/main.rs:101-103 | the free entries of the displacements are the solver's answer, in order |
| Pipeline.ReducedSystemSolved | rust/src/main.rs:86-97 | with a sound solver, the free displacements solve `K_mod · u = f_mod` |
| Pipeline.FreeEquilibrium | rust/src/main.rs:86-103 | with a sound solver, row p of the unreduced K times the full displacements equals the load at every free DOF p |
| Pipeline.ReactionsFromFullSystem | rust/src/main.rs:105-113 | there is one reaction per support, in support order, each the support's row of the unreduced K dotted with the full displacements (as `K_global[supports - 1] @ full_displacements` in both Python versions) |
| Pipeline.StiffnessSymmetry | rust/src/main.rs:68-94 | the global and the reduced stiffness matrices are symmetric |
| Pipeline.GlobalDiagonalNonNegative | rust/src/main.rs:50-77 | with `A·E >= 0` and four distinct DOFs per element, every diagonal entry of the global stiffness matrix is non-negative |
| Equilibrium.ElementColumnBalanced | rust/src/main.rs:65-76 | with DOFs in x, y, x, y order, each column of an element's contribution sums to 0 over the x-DOFs and over the y-DOFs |
| Equilibrium.StiffnessBalanced | rust/src/main.rs:50-77 | for every displacement vector U, the forces `K · U` sum to 0 over the x-DOFs and over the y-DOFs |
| Equilibrium.ForceBalance | rust/src/main.rs:97-113 | with a sound solver and distinct supports, the loads at free DOFs plus the reactions sum to 0 in each direction |
| NumpySolver.AddBlock | PythonStructuralSolver.py:69-70 | `K[np.ix_(idx, idx)] += ke` adds `ke[a][b]` at `(idx[a], idx[b])` for all sixteen pairs when the four indices are distinct, and changes nothing else |
| NumpySolver.AddNthBlock | PythonStructuralSolver.py:59-70 | one pass of the element loop: for element e with distinct DOFs, takes every cell of `K_global` from `GlobalEntry(…, e, p, q)` to `GlobalEntry(…, e + 1, p, q)` |
| NumpySolver.AssembleStiffness | PythonStructuralSolver.py:58-70 | the NumPy element loop produces the same assembled matrix as the Rust loops |
| NumpySolver.Delete | PythonStructuralSolver.py:74 | `np.delete(v, supports - 1)` keeps one entry per free position of `v`, so it never lengthens its input |
| NumpySolver.DeleteColumns | PythonStructuralSolver.py:73 | `np.delete(m, supports - 1, axis=1)` keeps every row and shortens each to its free-column count |
| NumpySolver.DeleteKeepsFree | PythonStructuralSolver.py:73-74 | `np.delete(v, supports - 1)` keeps exactly the free positions, in ascending order |
| NumpySolver.DeleteIsGather | PythonStructuralSolver.py:74 | `F_mod` is the free entries of `F_global` in order |
| NumpySolver.DeleteRowsColumns | PythonStructuralSolver.py:73 | deleting the support rows and then the support columns gives `K_global` restricted to the free rows and columns, in order |
| NumpySolver.Range | PythonStructuralSolver.py:82 | `np.arange(max_dof)` holds `i` at position `i`, with `max_dof` entries |
| NumpySolver.DeleteRangeIsFree | PythonStructuralSolver.py:82 | `np.delete(np.arange(max_dof), supports - 1)` is the ascending free-DOF list used for the reduction |
| NumpySolver.Put | PythonStructuralSolver.py:82 | `np.put` writes `vals[i]` at `idx[i]` and keeps every other entry |
| NumpySolver.ScatterBack | PythonStructuralSolver.py:80-82 | the displacements are 0 at the supports and `displacements[i]` at the i-th free index |
| NumpySolver.Analyse | PythonStructuralSolver.py:48-85 | the NumPy script computes exactly `Pipeline.Analysis` |
| TorchSolver.Shifted | truss_analysis_pytorch.py:61 | `(info[i, :] - 1).long()` has one index per DOF, each the DOF minus 1 |
| TorchSolver.GridHits | truss_analysis_pytorch.py:62 | a cell whose row and column are DOFs of the element is named in the grids by the local indices of those DOFs |
| TorchSolver.Meshgrid | truss_analysis_pytorch.py:62 | `meshgrid(idx, idx, indexing='ij')` has `idx[a]` at `(a, b)` in the first grid and `idx[b]` in the second |
| TorchSolver.AddGrid | truss_analysis_pytorch.py:62 | the `meshgrid` `+=` adds `ke[a][b]` at `(indices[a], indices[b])` for distinct per-element indices, and changes nothing else |
| TorchSolver.AddNthGrid | truss_analysis_pytorch.py:51-62 | one pass of the element loop: for element e with distinct DOFs, takes every cell of `K_global` from `GlobalEntry(…, e, p, q)` to `GlobalEntry(…, e + 1, p, q)` |
| TorchSolver.AssembleStiffness | truss_analysis_pytorch.py:50-62 | the PyTorch element loop produces the same assembled matrix |
| TorchSolver.ScatterLoads | truss_analysis_pytorch.py:46-47 | with distinct DOFs, the single indexed assignment gives the load vector |
| TorchSolver.BuildMask | truss_analysis_pytorch.py:65-66 | `mask` is True exactly at the indices not in `supports - 1` |
| TorchSolver.CountTrue | truss_analysis_pytorch.py:76 | the number of True positions never exceeds the mask's length |
| TorchSolver.MaskSelect | truss_analysis_pytorch.py:67-68 | `v[mask]` has one entry per True position |
| TorchSolver.MaskSelectKeepsFree | truss_analysis_pytorch.py:67-68 | selecting with the free mask keeps exactly the free entries, in ascending order |
| TorchSolver.MaskColumns | truss_analysis_pytorch.py:67 | `m[:, mask]` keeps every row and gives each one entry per True mask position |
| TorchSolver.MaskReduces | truss_analysis_pytorch.py:67 | `K_global[mask][:, mask]` is the reduced matrix: the free rows and columns in ascending order |
| TorchSolver.MaskGathers | truss_analysis_pytorch.py:68 | `F_global[mask]` is the free entries of the load vector in order |
| TorchSolver.CountFree | truss_analysis_pytorch.py:76 | the number of True mask entries below p equals the number of free indices below p |
| TorchSolver.MaskedAssign | truss_analysis_pytorch.py:76 | `a[mask] = vals` puts `vals[k]` at the k-th True position and keeps every False position |
| TorchSolver.ScatterBack | truss_analysis_pytorch.py:74-76 | the displacements are 0 where the mask is False, and the k-th True position holds `displacements[k]` |
| TorchSolver.Analyse | truss_analysis_pytorch.py:41-79 | the PyTorch script computes exactly `Pipeline.Analysis` |
| Dataset.TableShape | rust/src/main.rs:5-15 | the hard-coded DOF table has four distinct DOFs >= 1 per row, in x, y, x, y order |
| Dataset.TableSize | rust/src/main.rs:40 | on the hard-coded table the program sizes the system to N = 12 |
| Dataset.SupportsAndLoads | rust/src/main.rs:30-33 | the hard-coded supports and loads lie in 1..12, the supports are distinct, and 0-based the supports are 0, 1, 11 |
| Dataset.TableFree | rust/src/main.rs:80-85 | on the hard-coded data the free DOFs are 0-based 2..10, nine unknowns |

## Left out

- The square root (`rust/src/main.rs:53` and its Python twins) is not modelled. A bar carries its length `c` as data, with `c > 0` and `c·c = dx² + dy²` (`Element.WellFormed`). Zero-length bars divide by zero in the code; they are excluded by that requirement, not modelled as NaN.
- The dense solvers (`lu().solve`, `scipy.linalg.solve`, `torch.linalg.solve`) are foreign library code. They become the parameter `solve`. `SolverSized` (an answer has one entry per unknown) is required throughout. `SolverSound` (`K_mod · u = f_mod`) is assumed only by the lemmas that need a correct answer.
- Floating point is not modelled: f64 in Rust and NumPy, float32 in PyTorch, rounding, NaN and infinities. All arithmetic is exact `real` arithmetic.
- Printing the results (`rust/src/main.rs:116-134`, `PythonStructuralSolver.py:89-92`, `truss_analysis_pytorch.py:82-85`) is I/O and is not modelled.
- The bar coordinates of the hard-coded data (`rust/src/main.rs:17-27`) are not modelled, because several lengths are square roots of non-squares. Only the DOF table, supports and loads appear, in `Dataset`. Nothing assumes that bars sharing a DOF have matching coordinates.
- `Pipeline.InputsValid`: requires every DOF, support and load index to lie in 1..N. The code does not check this, and what it does instead differs per program and per case:
  - Rust, index 0: `x - 1` on a `usize` panics with a subtraction overflow in a debug build (`rust/src/main.rs:46`, `:71`, `:80`). In a release build it wraps to `usize::MAX`, and the following indexing panics (`:46`, `:74`). A support of 0 passes the free-DOF filter in release and panics at `k_global[(support_dof - 1, j)]` (`:110`).
  - Rust, index above N: the indexing panics (`:46` for a load, `:110` for a support).
  - NumPy, index 0: `- 1` gives -1, which silently names the last entry: at `F_global[force[0] - 1]` (`PythonStructuralSolver.py:55`), in `np.ix_` (`:69-70`), in `np.delete(..., supports - 1)` (`:73-74`, `:82`) and in `K_global[supports - 1, :]` (`:85`).
  - NumPy, index above N: `IndexError`.
  - PyTorch, index 0: -1 likewise names the last entry, at `F_global[...]` (`truss_analysis_pytorch.py:47`), in the `meshgrid` (`:62`), in `mask[supports - 1]` (`:66`) and in `K_global[supports - 1]` (`:79`).
  - PyTorch, index above N: `IndexError`.

  The model reproduces none of these behaviours.
- `NumpySolver.AddBlock`, `NumpySolver.AssembleStiffness`, `NumpySolver.Analyse`: require the four DOFs of each element to be distinct. NumPy's buffered `+=` through `np.ix_` would keep only one of two coinciding cells, and that behaviour is not modelled.
- `TorchSolver.AddGrid`, `TorchSolver.AssembleStiffness`, `TorchSolver.Analyse`: the same requirement applies to the `meshgrid` `+=`.
- `TorchSolver.ScatterLoads`, `TorchSolver.Analyse`: require distinct load DOFs. PyTorch does not define which of two writes to the same index wins. The Rust and NumPy force loops (`Loads.BuildLoads`) do handle duplicates (last one wins) and are modelled with them.
- `Equilibrium.ForceBalance`: requires distinct supports and DOF rows in x, y, x, y order, with odd 1-based x-DOFs. It sums the loads at the free DOFs only. A load listed at a support DOF never enters the reduced system, and the reported reaction there is `row(K) · U` alone.
- `Element.ElementMatrix`: its contract states only the 4x4 shape. Its entries are given by `Element.ElementEntry` and `Element.ElementClosedForm`.
- `Element.ElementStiffness`: its contract states only the 4x4 shape. The numerical content is carried by `Element.ElementClosedForm` and the lemmas beside it, which are stated for any direction cosines `(cx, cy)`. The closed-form lemmas do not need `cx² + cy² = 1`; `Element.UnitDirection` proves it for a well-formed bar, and `Element.BarTransformOrthonormal` derives from it that the rows of the bar's T are orthonormal.
