# QAOA for MaxCut: a verified model of the core

This project models the classical core of a small simulator of the Quantum
Approximate Optimization Algorithm (QAOA) applied to MaxCut, in Dafny. The
core has three parts:

- the MaxCut objective function over a bit string and an edge list
  (`evaluate_obj`), and the uniform superposition that QAOA starts from
  (`initial_state`);
- the operators on an n-qubit register: the identity and the Pauli X, Y and Z
  matrices acting on one chosen qubit (`n_qeye`, `n_sigmax`, `n_sigmay`,
  `n_sigmaz`), and the probability distribution of a state over the
  computational basis (`comp_basis_prob_dist`);
- the reading of a graph from its textual form: the node range and the
  parser for an edge string such as `"(0,1);(1,2)"`.

Modules, one per file:

| file | module | contents |
|---|---|---|
| `results.dfy` | `Results` | `Result` with the two Python exceptions the core raises (`ValueError`, `IndexError`) |
| `arith.dfy` | `Arith` | `Pow2` and the quotient/remainder facts that register indexing needs |
| `amplitudes.dfy` | `Amplitudes` | exact amplitudes `(re + i·im)/√2^k`, kets, their tensor product and squared norm |
| `operators.dfy` | `Operators` | matrices over Gaussian integers, Kronecker product, one-qubit operators embedded in a register |
| `action.dfy` | `Action` | an operator applied to a state, and the proof that the identity and the Pauli operators keep the squared norm |
| `qucompsys.dfy` | `QuCompSys` | `n_qeye`, `n_sigmax/y/z`, `comp_basis_prob_dist` |
| `qaoa.dfy` | `Qaoa` | `evaluate_obj`, `initial_state` |
| `execution.dfy` | `Execution` | node range and edge-string parser |

Conventions:

- Qubit 0 is the most significant bit of a basis-state index, as in qutip's
  `tensor`.
- Python's negative list indices are modelled: `z_list[-1]` is the last bit.
- `int(c)` on a one-character string succeeds only for `'0'`..`'9'`; anything
  else is a `ValueError`.
- Python evaluates left to right, so the first failing step decides which
  exception is raised. `EdgeTerm` and `ParseSegment` keep that order.

## Model

| member | source | states |
|---|---|---|
| Qaoa.EvaluateObj | qaoa.py:25-29 | the loop's result equals the objective `Objective`; it succeeds exactly when every edge's term succeeds; on a bit string whose edges lie in range it is the number of cut edges |
| Qaoa.PyIndex | qaoa.py:26-28 | a list index succeeds exactly for `-len <= k < len`; a non-negative index reads `z[k]` and a negative one wraps to `z[k + len]` (`z_list[-1]` is the last bit) |
| Qaoa.IntOfChar | qaoa.py:28 | `int(c)` of one character succeeds exactly for `'0'`..`'9'`, giving its value 0..9; any other character is a `ValueError` |
| Qaoa.EdgeTerm | qaoa.py:28 | one edge's term `(int(z[u]) - int(z[v]))**2` is defined exactly when both endpoints are in `[-len, len)` and both indexed characters are digits; its value then lies in 0..81 |
| Qaoa.EdgeTermError | qaoa.py:28 | a failing term raises the exception of its first failing step, left to right: `IndexError` for an endpoint out of range, `ValueError` for a non-digit, the first endpoint before the second |
| Qaoa.Objective | qaoa.py:25-29 | the value of `obj` after the loop over all the edges, or the exception the loop stops at; when defined it lies between 0 and 81 times the number of edges |
| Qaoa.ObjectiveStopsAtError | qaoa.py:27-28 | once one edge raises, the whole call raises that same error, whatever edges follow |
| Qaoa.ObjectiveOkIff | qaoa.py:26-28 | the objective is defined exactly when every edge's term is defined |
| Qaoa.ObjectiveIsCutCount | qaoa.py:25-29 | on a bit string with all endpoints in range, the objective is the number of edges whose endpoints get different bits (the cut size) |
| Qaoa.ObjectiveBounds | qaoa.py:25-29 | on a bit string the objective is defined exactly when every endpoint is in `[-len, len)`, and its value lies between 0 and the number of edges |
| Qaoa.TermComplement | qaoa.py:28 | on a bit string, complementing every bit leaves each edge's term, or its exception, unchanged |
| Qaoa.ObjectiveComplement | qaoa.py:28 | flipping every bit of the string leaves the objective, including any error, unchanged |
| Qaoa.ObjectiveSwapEndpoints | qaoa.py:27-28 | reversing one edge's endpoints changes neither whether the objective is defined nor its value |
| Qaoa.ObjectiveNegativeAlias | qaoa.py:28 | naming an in-range endpoint `u` by its negative alias `u - len(z_str)` leaves the result of `evaluate_obj`, exception included, unchanged |
| Qaoa.ObjectiveIsTermSum | qaoa.py:25-29 | when every term is defined, the objective is the plain sum of the terms |
| Qaoa.TermSumPermutation | qaoa.py:27-29 | a permutation of the edges keeps every term defined and leaves the sum unchanged |
| Qaoa.ObjectivePermutation | qaoa.py:27-29 | reordering the edge list changes neither whether the objective is defined nor its value |
| Qaoa.InitialState | qaoa.py:40-48 | `ValueError` exactly when `n_vertices < 1`; otherwise a state of dimension 2^n with squared norm 1 whose every amplitude is 1/√2^n, so each basis state has probability 1/2^n |
| Amplitudes.Basis | qaoa.py:45 | `basis(2, b)`: two amplitudes, 1 at `b` and 0 at the other, with squared norm 1 |
| Amplitudes.KetAdd | qaoa.py:45 | the sum of two states of the same length has that length; `BasisSum` gives its value for `basis(2,0) + basis(2,1)` |
| Amplitudes.BasisSum | qaoa.py:45 | `basis(2,0) + basis(2,1)` has both amplitudes 1 and squared norm 2 |
| Amplitudes.DivSqrt2 | qaoa.py:45 | the state divided by √2 has the same length and every squared magnitude halved |
| Amplitudes.UniformQubitIsUnit | qaoa.py:45 | `(basis(2,0) + basis(2,1)).unit()` is the qubit `(1/√2, 1/√2)`, and it has squared norm 1 |
| Amplitudes.SqMagDivSqrt2 | qaoa.py:45 | dividing an amplitude by √2 halves its squared magnitude |
| Amplitudes.NormSqDivSqrt2 | qaoa.py:45 | dividing a whole ket by √2 halves its squared norm |
| Amplitudes.KronKet | qaoa.py:47 | the tensor product of two states has as many amplitudes as the product of their lengths |
| Amplitudes.TensorKets | qaoa.py:47 | `tensor` of n single-qubit states has 2^n amplitudes |
| Amplitudes.UniformTensor | qaoa.py:47 | the tensor product of n uniform qubits has every amplitude equal to 1/√2^n |
| Amplitudes.NormSqConstant | qaoa.py:47 | a ket with the same amplitude everywhere has squared norm equal to its length times that amplitude's squared magnitude |
| QuCompSys.NQEye | qucompsys.py:65-67 | `ValueError` exactly when `n_qubits < 1`; otherwise the 2^n × 2^n identity matrix, which keeps the squared norm of every n-qubit state |
| Operators.IdentityEntry | qucompsys.py:67 | the tensor product of n copies of the 2 × 2 identity has 1 on the diagonal and 0 elsewhere |
| QuCompSys.NSigma | qucompsys.py:95-102 | `ValueError` exactly when `n_qubits < 1` or the position is outside `[0, n_qubits-1]`; otherwise the operator at that position of the list built by the loop, which is the one-qubit operator embedded at that qubit |
| QuCompSys.NSigmaX | qucompsys.py:95-102 | the same error cases; otherwise entry (x, y) is 1 when y is x with qubit `pos` flipped, and 0 otherwise; applied to any n-qubit state it keeps the squared norm |
| QuCompSys.NSigmaY | qucompsys.py:130-137 | the same error cases; otherwise the only non-zero entries pair x with x flipped at `pos`, and equal −i when qubit `pos` of x is 0 and i when it is 1; it keeps the squared norm of every state |
| QuCompSys.NSigmaZ | qucompsys.py:165-172 | the same error cases; otherwise a diagonal matrix whose entry is +1 or −1 as qubit `pos` of the index is 0 or 1; it keeps the squared norm of every state |
| Operators.Kron | qucompsys.py:67 | the Kronecker product of square matrices is square, of size the product of their sizes, and is defined entry by entry from the block and the offset of each index; `IdentityEntry` and `EmbedEntry` give the entries of every product the source builds |
| Operators.Tensor | qucompsys.py:67 | `tensor` of n single-qubit operators is a square matrix of size 2^n |
| Operators.EmbedList | qucompsys.py:101 | `[qeye(2)]*i + [op] + [qeye(2)]*(n-i-1)` has n factors, `op` at position i and the identity at every other |
| Operators.Embed | qucompsys.py:101 | the tensor product of that list is a square matrix of size 2^n; `EmbedEntry` gives its entries |
| Operators.EmbedEntry | qucompsys.py:101 | entry (x, y) of `I⊗…⊗op⊗…⊗I` is op's entry at the two indices' bits for that qubit when x and y agree on every other qubit, and 0 otherwise |
| Operators.SigmaXEntry | qucompsys.py:101 | the embedded Pauli X moves each basis state to the one with that qubit flipped |
| Operators.SigmaYEntry | qucompsys.py:136 | the embedded Pauli Y flips that qubit with phase −i or i |
| Operators.SigmaZEntry | qucompsys.py:171 | the embedded Pauli Z is diagonal with sign given by that qubit |
| Operators.FlipQubitInvolution | qucompsys.py:101 | flipping a qubit keeps the index inside the register, inverts that qubit's bit, keeps all other qubits, and undoes itself |
| Operators.SameOtherQubitsFlip | qucompsys.py:101 | two indices agree on every other qubit and differ on this one exactly when one is the other flipped at this qubit |
| Operators.SameOtherQubitsEqual | qucompsys.py:101 | two indices that agree on every qubit are equal |
| Action.Apply | qucompsys.py:67 | an operator of the register (such as `n_qeye`'s or `n_sigma*`'s result) applied to a state gives a state of the same length whose amplitudes keep the common power of 1/√2; the KeepsNorm lemmas below prove that these operators keep a normalised state normalised |
| Action.ApplyMonomial | qucompsys.py:99-102 | an operator with one non-zero entry per row, a phase of modulus one at the column given by an involution of the basis indices, keeps the squared norm of every state |
| Action.IdentityKeepsNorm | qucompsys.py:67 | the n-qubit identity keeps the squared norm of every state |
| Action.SigmaXKeepsNorm | qucompsys.py:101 | X on one qubit keeps the squared norm of every state |
| Action.SigmaYKeepsNorm | qucompsys.py:136 | Y on one qubit keeps the squared norm of every state |
| Action.SigmaZKeepsNorm | qucompsys.py:171 | Z on one qubit keeps the squared norm of every state |
| QuCompSys.CompBasisProbDist | qucompsys.py:190-193 | one probability per amplitude, each its squared magnitude and non-negative, and they add up to the state's squared norm |
| QuCompSys.SumOfSqMags | qucompsys.py:190-193 | the sum of the squared magnitudes of a ket's amplitudes is its squared norm |
| Execution.Nodes | execution.py:30 | `arange(0, N, 1)`: strictly increasing, of length `max(N, 0)`, containing exactly the integers in `[0, N)` |
| Execution.Split | execution.py:32 | `str.split(';')` yields at least one part and no part contains the separator |
| Execution.SplitCount | execution.py:32 | the number of parts is the number of separators plus one |
| Execution.JoinSplit | execution.py:32 | joining the parts with the separator gives back the original string |
| Execution.SplitJoin | execution.py:32 | splitting a join of separator-free parts gives back the parts |
| Execution.ParseSegment | execution.py:33 | `(int(edge[1]), int(edge[3]))` succeeds exactly when the segment has at least 4 characters and characters 1 and 3 are digits; the endpoints are those digits' values (0..9). On failure the first failing step decides: `IndexError` when the segment is shorter than 2, or when character 1 is a digit and the segment is shorter than 4; `ValueError` otherwise |
| Execution.ParseSegments | execution.py:31-33 | the edge list is defined exactly when every segment parses, and its k-th edge is the k-th segment's edge |
| Execution.ParseEdgeList | execution.py:31-33 | the edges string split on `;` and read segment by segment; when it succeeds it has one edge per `;` plus one |
| Execution.ParseStopsAtError | execution.py:32-33 | the first segment that fails decides the error of the whole parse |
| Execution.ReadGraph | execution.py:28-33 | the loop builds exactly the parsed edge list (or raises its error), with one edge per `;` plus one, `N_QUBITS = N_NODES`, and the node range of `N_NODES` |
| Execution.ParseFormatRoundTrip | execution.py:31-33 | formatting a non-empty list of single-digit edges as `(u,v);(u,v)…` and parsing it gives back the same list |

## Left out

- `n_rand_qubits` and the random graph generator: both depend on randomness.
- The configuration file, `sys.argv`, the output directory (`execution.py`
  lines 21-27 and 38) and the final `np.save` (line 60) are I/O.
- The `networkx` graph of `execution.py` lines 34-36 is a library object; the
  model keeps the node list and edge list it is built from.
- `grid_search`, `analitical_f_1` and `evolution_operator`, called at
  `execution.py` lines 44 and 54, are not part of this model, and neither is
  `ket2dm` (lines 51 and 55), which turns a state into a density matrix.
  The other calls of that part are modelled: `initial_state` (line 50) by
  `Qaoa.InitialState` and `comp_basis_prob_dist` (line 58) by
  `QuCompSys.CompBasisProbDist`.
- The `int(str_N_NODES)` parse at `execution.py:28` is not modelled. `N_NODES`
  is taken as an integer parameter of `Execution.ReadGraph`.
- Floating point is not modelled. Amplitudes are exact values `(re + i·im)/√2^k`,
  so the `sqrt` inside `.unit()` and the rounding in `float(abs(c))**2` are
  both absent. `Amplitudes.UniformQubitIsUnit` models `.unit()` only for the
  one vector it is applied to, whose squared norm is 2.
- Action.Apply: an operator is applied only to a state whose amplitudes all
  carry the same power of 1/√2, because adding amplitudes at different powers
  exactly would need √2 itself. This restricts no state: `re` and `im` are
  arbitrary reals, so every complex state has a representation at power 0
  (and the model's own states, a basis state and the initial state, are
  already at one power). The four KeepsNorm lemmas therefore cover every
  state. What the model does not apply is an operator with non-Gaussian-integer
  entries, such as the evolution operator used at `execution.py:54`.
- qutip's `Qobj` metadata (`dims`, `shape`, `type`) is not modelled. An
  operator is its matrix of entries and a state is its vector of amplitudes.
  Matrix entries are Gaussian integers, which is all the identity and the
  Pauli matrices need.
- `Qaoa.IntOfChar`: Python's `int()` also accepts non-ASCII decimal digits and
  surrounding whitespace. The model accepts only the ASCII digits `'0'`..`'9'`,
  which is all a bit string or an edge string written in the configuration
  contains.
- `Execution.ParseSegment`: only characters 1 and 3 of a segment are read, so
  `"(1,23)"` parses as the edge (1, 2), and `"(10,2)"` raises `ValueError`
  because character 3 is `','`. That is what the code does, and the model
  does the same. The round trip is stated only for single-digit endpoints.
- The docstrings of `n_sigmax`, `n_sigmay` and `n_sigmaz` say a `ValueError`
  is raised when the number of qubits is less than 2. The code tests `< 1`,
  and the model follows the code.
- `evaluate_obj` is written for a bit string, but the code accepts any string
  whose indexed characters are decimal digits. The model keeps that general
  behaviour. The cut-size statements are made for bit strings.
