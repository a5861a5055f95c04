/** Dense register operators with exact entries, standing in for the quantum
    object algebra the source delegates to. Entries of the identity and of the
    Pauli matrices, and of every Kronecker product of them, are Gaussian
    integers, so no rounding is involved. */
module Operators {
  import opened Arith

  /** A Gaussian integer re + i * im. */
  datatype Gauss = Gauss(re: int, im: int)

  const Zero := Gauss(0, 0)
  const One := Gauss(1, 0)
  const MinusOne := Gauss(-1, 0)
  const I := Gauss(0, 1)
  const MinusI := Gauss(0, -1)

  function Mul(a: Gauss, b: Gauss): Gauss {
    Gauss(a.re * b.re - a.im * b.im, a.re * b.im + a.im * b.re)
  }

  /** A matrix as a sequence of rows. */
  type Matrix = seq<seq<Gauss>>

  predicate IsSquare(m: Matrix) {
    forall r :: 0 <= r < |m| ==> |m[r]| == |m|
  }

  /** A single-qubit operator: a 2 x 2 block. */
  predicate IsQubitOp(m: Matrix) {
    |m| == 2 && IsSquare(m)
  }

  /** The single-qubit identity and the three Pauli matrices. */
  const QEye: Matrix := [[One, Zero], [Zero, One]]
  const SigmaX: Matrix := [[Zero, One], [One, Zero]]
  const SigmaY: Matrix := [[Zero, MinusI], [I, Zero]]
  const SigmaZ: Matrix := [[One, Zero], [Zero, MinusOne]]

  /** Entry (i, j) of the Kronecker product of a and b. */
  function KronEntry(a: Matrix, b: Matrix, i: int, j: int): Gauss
    requires IsSquare(a) && IsSquare(b) && |b| > 0
    requires 0 <= i < |a| * |b| && 0 <= j < |a| * |b|
  {
    DivBelow(i, |b|, |a|);
    DivBelow(j, |b|, |a|);
    Mul(a[i / |b|][j / |b|], b[i % |b|][j % |b|])
  }

  /** The Kronecker product a ⊗ b: block (p, q) is a[p][q] times b. */
  function Kron(a: Matrix, b: Matrix): (r: Matrix)
    requires IsSquare(a) && IsSquare(b) && |b| > 0
    ensures |r| == |a| * |b| && IsSquare(r)
  {
    var n := |a| * |b|;
    seq(n, i requires 0 <= i < n =>
      seq(n, j requires 0 <= j < n => KronEntry(a, b, i, j)))
  }

  /** The tensor product of a non-empty list of single-qubit operators,
      the first factor acting on qubit 0, the most significant bit of a
      register index. */
  function Tensor(ops: seq<Matrix>): (r: Matrix)
    requires |ops| >= 1 && forall k :: 0 <= k < |ops| ==> IsQubitOp(ops[k])
    ensures |r| == Pow2(|ops|) && IsSquare(r)
    decreases |ops|
  {
    assert IsQubitOp(ops[0]);
    if |ops| == 1 then ops[0] else Kron(ops[0], Tensor(ops[1..]))
  }

  /** k copies of the single-qubit identity. */
  function Eyes(k: nat): (r: seq<Matrix>)
    ensures |r| == k && forall t :: 0 <= t < k ==> r[t] == QEye
  {
    seq(k, _ => QEye)
  }

  /** The factor list [I]*pos + [op] + [I]*(n - pos - 1). */
  function EmbedList(op: Matrix, n: nat, pos: nat): (r: seq<Matrix>)
    requires pos < n
    ensures |r| == n && r[pos] == op
    ensures forall t :: 0 <= t < n && t != pos ==> r[t] == QEye
  {
    Eyes(pos) + [op] + Eyes(n - pos - 1)
  }

  /** The single-qubit operator op acting on qubit pos of an n-qubit register. */
  function Embed(op: Matrix, n: nat, pos: nat): (r: Matrix)
    requires IsQubitOp(op) && pos < n
    ensures |r| == Pow2(n) && IsSquare(r)
  {
    Tensor(EmbedList(op, n, pos))
  }

  /** The bit of register index x that belongs to qubit pos of n
      (qubit 0 is the most significant bit). */
  function QubitBit(x: int, n: nat, pos: nat): int
    requires pos < n
  {
    (x / Pow2(n - 1 - pos)) % 2
  }

  /** Register indices x and y agree on every qubit except possibly pos:
      the same bits above it and the same bits below it. */
  predicate SameOtherQubits(x: int, y: int, n: nat, pos: nat)
    requires pos < n
  {
    x / Pow2(n - pos) == y / Pow2(n - pos) &&
    x % Pow2(n - 1 - pos) == y % Pow2(n - 1 - pos)
  }

  /** Index x with the bit of qubit pos inverted. */
  function FlipQubit(x: int, n: nat, pos: nat): int
    requires pos < n
  {
    if QubitBit(x, n, pos) == 0 then x + Pow2(n - 1 - pos) else x - Pow2(n - 1 - pos)
  }

  // Register-index arithmetic

  /** An index splits into the bits above qubit pos, the bit of qubit pos,
      and the bits below it. */
  lemma Decompose(x: int, n: nat, pos: nat)
    requires pos < n && x >= 0
    ensures Pow2(n - pos) == 2 * Pow2(n - 1 - pos)
    ensures 0 <= QubitBit(x, n, pos) <= 1 && 0 <= x % Pow2(n - 1 - pos) < Pow2(n - 1 - pos)
    ensures x == (x / Pow2(n - pos)) * Pow2(n - pos) + QubitBit(x, n, pos) * Pow2(n - 1 - pos)
                 + x % Pow2(n - 1 - pos)
  {
    var low := Pow2(n - 1 - pos);
    assert Pow2(n - pos) == 2 * low;
    BitSplit(x, low);
  }

  /** Two indices that agree on every other qubit are equal exactly when
      they also agree on qubit pos. */
  lemma SameOtherQubitsEqual(x: int, y: int, n: nat, pos: nat)
    requires pos < n && x >= 0 && y >= 0
    ensures (SameOtherQubits(x, y, n, pos) && QubitBit(x, n, pos) == QubitBit(y, n, pos)) <==> x == y
  {
    Decompose(x, n, pos);
    Decompose(y, n, pos);
  }

  /** Flipping a qubit stays inside the register, inverts that qubit's bit,
      keeps every other qubit, and undoes itself. */
  lemma FlipQubitInvolution(x: int, n: nat, pos: nat)
    requires pos < n && 0 <= x < Pow2(n)
    ensures 0 <= FlipQubit(x, n, pos) < Pow2(n)
    ensures QubitBit(FlipQubit(x, n, pos), n, pos) == 1 - QubitBit(x, n, pos)
    ensures SameOtherQubits(x, FlipQubit(x, n, pos), n, pos)
    ensures FlipQubit(FlipQubit(x, n, pos), n, pos) == x
  {
    var low, m := Pow2(n - 1 - pos), Pow2(pos);
    RegisterSplit(n, pos);
    var y := FlipQubit(x, n, pos);
    FlipBitArith(x, low, m);
    FlipBitArith(y, low, m);
  }

  /** The register dimension splits at qubit pos into the qubits above it,
      the qubit itself and the qubits below it. */
  lemma RegisterSplit(n: nat, pos: nat)
    requires pos < n
    ensures Pow2(n - pos) == 2 * Pow2(n - 1 - pos)
    ensures Pow2(n) == Pow2(pos) * (2 * Pow2(n - 1 - pos))
  {
    assert Pow2(n - pos) == 2 * Pow2(n - 1 - pos);
    Pow2Add(n - pos, pos);
    assert n - pos + pos == n;
  }

  /** Two indices that agree on every other qubit and differ on qubit pos
      are exactly an index and its flip at pos. */
  lemma SameOtherQubitsFlip(x: int, y: int, n: nat, pos: nat)
    requires pos < n && 0 <= x < Pow2(n) && 0 <= y < Pow2(n)
    ensures (SameOtherQubits(x, y, n, pos) && QubitBit(x, n, pos) != QubitBit(y, n, pos))
            <==> y == FlipQubit(x, n, pos)
  {
    Decompose(x, n, pos);
    Decompose(y, n, pos);
    FlipQubitInvolution(x, n, pos);
  }

  // Entries of the tensor-product operators

  /** Kronecker products of blocks of the identity pass entries through. */
  lemma MulUnits(a: Gauss)
    ensures Mul(One, a) == a && Mul(a, One) == a
    ensures Mul(Zero, a) == Zero && Mul(a, Zero) == Zero
  {
  }

  /** Entry (i, j) of a Kronecker product, by block and offset. */
  lemma KronEntryAt(a: Matrix, b: Matrix, i: int, j: int)
    requires IsSquare(a) && IsSquare(b) && |b| > 0
    requires 0 <= i < |a| * |b| && 0 <= j < |a| * |b|
    ensures 0 <= i / |b| < |a| && 0 <= j / |b| < |a|
    ensures 0 <= i % |b| < |b| && 0 <= j % |b| < |b|
    ensures Kron(a, b)[i][j] == Mul(a[i / |b|][j / |b|], b[i % |b|][j % |b|])
  {
    DivBelow(i, |b|, |a|);
    DivBelow(j, |b|, |a|);
  }

  /** A tensor product of several factors peels off its first factor. */
  lemma TensorCons(ops: seq<Matrix>)
    requires |ops| > 1 && forall k :: 0 <= k < |ops| ==> IsQubitOp(ops[k])
    ensures Tensor(ops) == Kron(ops[0], Tensor(ops[1..]))
  {
  }

  /** The tensor product of n single-qubit identities is the 2^n x 2^n identity. */
  lemma {:induction false} IdentityEntry(n: nat, x: int, y: int)
    requires n >= 1 && 0 <= x < Pow2(n) && 0 <= y < Pow2(n)
    ensures Tensor(Eyes(n))[x][y] == if x == y then One else Zero
  {
    if n > 1 {
      var d := Pow2(n - 1);
      var rest := Tensor(Eyes(n - 1));
      assert Eyes(n)[1..] == Eyes(n - 1);
      TensorCons(Eyes(n));
      assert Tensor(Eyes(n)) == Kron(QEye, rest);
      assert |rest| == d && |QEye| * d == Pow2(n);
      KronEntryAt(QEye, rest, x, y);
      assert Tensor(Eyes(n))[x][y] == Mul(QEye[x / d][y / d], rest[x % d][y % d]);
      assert QEye[x / d][y / d] == if x / d == y / d then One else Zero;
      IdentityEntry(n - 1, x % d, y % d);
      MulUnits(rest[x % d][y % d]);
      EqualByDivMod(x, y, d);
    }
  }

  /** The widths around qubit pos > 0 of an n-qubit register, in terms of
      the widths around qubit pos - 1 of the last n - 1 qubits. */
  lemma Pow2Widths(n: nat, pos: nat)
    requires 0 < pos < n
    ensures Pow2(n - pos) == 2 * Pow2(n - 1 - pos)
    ensures Pow2(n - 1) == 2 * Pow2(n - 1 - pos) * Pow2(pos - 1)
  {
    Pow2Add(n - pos, pos - 1);
    assert n - pos + (pos - 1) == n - 1;
  }

  /** Embedding at qubit pos > 0 is an identity block on qubit 0 around
      the embedding at pos - 1 in the remaining n - 1 qubits. */
  lemma EmbedStep(op: Matrix, n: nat, pos: nat, x: int, y: int)
    requires IsQubitOp(op) && 0 < pos < n
    requires 0 <= x < Pow2(n) && 0 <= y < Pow2(n)
    ensures 0 <= x % Pow2(n - 1) < Pow2(n - 1) && 0 <= y % Pow2(n - 1) < Pow2(n - 1)
    ensures Embed(op, n, pos)[x][y] ==
      if x / Pow2(n - 1) == y / Pow2(n - 1)
      then Embed(op, n - 1, pos - 1)[x % Pow2(n - 1)][y % Pow2(n - 1)]
      else Zero
  {
    var list := EmbedList(op, n, pos);
    var d := Pow2(n - 1);
    var rest := Embed(op, n - 1, pos - 1);
    assert list[0] == QEye && list[1..] == EmbedList(op, n - 1, pos - 1);
    TensorCons(list);
    KronEntryAt(QEye, rest, x, y);
    assert QEye[x / d][y / d] == if x / d == y / d then One else Zero;
    MulUnits(rest[x % d][y % d]);
  }

  /** On qubit 0 of n > 1 qubits the embedding is op ⊗ I. */
  lemma EmbedFirstStep(op: Matrix, n: nat, x: int, y: int)
    requires IsQubitOp(op) && 1 < n
    requires 0 <= x < Pow2(n) && 0 <= y < Pow2(n)
    ensures 0 <= x / Pow2(n - 1) < 2 && 0 <= y / Pow2(n - 1) < 2
    ensures Embed(op, n, 0)[x][y] ==
      if x % Pow2(n - 1) == y % Pow2(n - 1) then op[x / Pow2(n - 1)][y / Pow2(n - 1)] else Zero
  {
    var list := EmbedList(op, n, 0);
    var d := Pow2(n - 1);
    var rest := Tensor(Eyes(n - 1));
    assert list[0] == op && list[1..] == Eyes(n - 1);
    TensorCons(list);
    KronEntryAt(op, rest, x, y);
    IdentityEntry(n - 1, x % d, y % d);
    MulUnits(op[x / d][y / d]);
  }

  /** On qubit 0 the embedding is op ⊗ I: the entry of op picked by the
      leading bits, provided the remaining bits agree. */
  lemma EmbedFirstEntry(op: Matrix, n: nat, x: int, y: int)
    requires IsQubitOp(op) && 0 < n
    requires 0 <= x < Pow2(n) && 0 <= y < Pow2(n)
    ensures 0 <= QubitBit(x, n, 0) <= 1 && 0 <= QubitBit(y, n, 0) <= 1
    ensures Embed(op, n, 0)[x][y] ==
      if SameOtherQubits(x, y, n, 0) then op[QubitBit(x, n, 0)][QubitBit(y, n, 0)] else Zero
  {
    var d := Pow2(n - 1);
    assert Pow2(n) == 2 * d;
    DivModUnique(x, Pow2(n), 0, x);
    DivModUnique(y, Pow2(n), 0, y);
    DivBelow(x, d, 2);
    DivBelow(y, d, 2);
    assert QubitBit(x, n, 0) == x / d && QubitBit(y, n, 0) == y / d;
    if n == 1 {
      assert d == 1;
      assert x / d == x && y / d == y && x % d == 0 && y % d == 0;
      assert Embed(op, n, 0) == op by {
        assert EmbedList(op, n, 0) == [op];
      }
    } else {
      EmbedFirstStep(op, n, x, y);
    }
  }

  /** Entry (x, y) of op embedded at qubit pos: the entry of op selected by
      the two indices' bits at pos, provided they agree on every other qubit
      (where the identity factors act), and zero otherwise. */
  lemma {:induction false} EmbedEntry(op: Matrix, n: nat, pos: nat, x: int, y: int)
    requires IsQubitOp(op) && pos < n
    requires 0 <= x < Pow2(n) && 0 <= y < Pow2(n)
    ensures 0 <= QubitBit(x, n, pos) <= 1 && 0 <= QubitBit(y, n, pos) <= 1
    ensures Embed(op, n, pos)[x][y] ==
      if SameOtherQubits(x, y, n, pos) then op[QubitBit(x, n, pos)][QubitBit(y, n, pos)] else Zero
  {
    if pos == 0 {
      EmbedFirstEntry(op, n, x, y);
    } else {
      var d := Pow2(n - 1);
      EmbedStep(op, n, pos, x, y);
      EmbedEntry(op, n - 1, pos - 1, x % d, y % d);
      var low, p := Pow2(n - 1 - pos), Pow2(pos - 1);
      Pow2Widths(n, pos);
      assert n - 1 - (pos - 1) == n - pos && n - 1 - 1 - (pos - 1) == n - 1 - pos;
      RegroupBit(x, y, low, p);
      RegroupBit(y, x, low, p);
    }
  }

  // The three embedded Pauli operators, entry by entry

  /** X on qubit pos maps each basis index to its flip at pos: entry 1 where
      the row and column differ in that qubit alone, 0 elsewhere. */
  lemma SigmaXEntry(n: nat, pos: nat, x: int, y: int)
    requires pos < n && 0 <= x < Pow2(n) && 0 <= y < Pow2(n)
    ensures Embed(SigmaX, n, pos)[x][y] == if y == FlipQubit(x, n, pos) then One else Zero
  {
    EmbedEntry(SigmaX, n, pos, x, y);
    SameOtherQubitsFlip(x, y, n, pos);
  }

  /** Y on qubit pos: the same pattern as X, with -i in rows whose bit at
      pos is 0 and i in rows whose bit is 1. */
  lemma SigmaYEntry(n: nat, pos: nat, x: int, y: int)
    requires pos < n && 0 <= x < Pow2(n) && 0 <= y < Pow2(n)
    ensures Embed(SigmaY, n, pos)[x][y] ==
      if y == FlipQubit(x, n, pos) then (if QubitBit(x, n, pos) == 0 then MinusI else I) else Zero
  {
    EmbedEntry(SigmaY, n, pos, x, y);
    SameOtherQubitsFlip(x, y, n, pos);
  }

  /** Z on qubit pos is diagonal, +1 where the bit at pos is 0 and -1 where
      it is 1. */
  lemma SigmaZEntry(n: nat, pos: nat, x: int, y: int)
    requires pos < n && 0 <= x < Pow2(n) && 0 <= y < Pow2(n)
    ensures Embed(SigmaZ, n, pos)[x][y] ==
      if x == y then (if QubitBit(x, n, pos) == 0 then One else MinusOne) else Zero
  {
    EmbedEntry(SigmaZ, n, pos, x, y);
    SameOtherQubitsEqual(x, y, n, pos);
  }
}
