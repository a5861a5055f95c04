/** An operator acting on a register state, and the fact that the identity
    and the three Pauli operators on one qubit keep a normalised state
    normalised. */
module Action {
  import opened Arith
  import opened Operators
  import opened Amplitudes

  /** Every amplitude of v carries the same power k of 1/sqrt(2), so the
      amplitudes can be added exactly. */
  predicate AtLevel(v: Ket, k: nat) {
    forall x :: 0 <= x < |v| ==> v[x].k == k
  }

  /** g * a for a Gaussian-integer matrix entry g. */
  function Scale(g: Gauss, a: Amp): (r: Amp)
    ensures r.k == a.k
  {
    Amp(g.re as real * a.re - g.im as real * a.im, g.re as real * a.im + g.im as real * a.re, a.k)
  }

  /** The sum over y of row[y] * v[y]. */
  function RowTimes(row: seq<Gauss>, v: Ket, k: nat): (r: Amp)
    requires |row| == |v| && AtLevel(v, k)
    ensures r.k == k
    decreases |row|
  {
    if row == [] then Amp(0.0, 0.0, k)
    else AmpAdd(Scale(row[0], v[0]), RowTimes(row[1..], v[1..], k))
  }

  /** The state m v: the operator m applied to v. */
  function Apply(m: Matrix, v: Ket, k: nat): (w: Ket)
    requires IsSquare(m) && |m| == |v| && AtLevel(v, k)
    ensures |w| == |v| && AtLevel(w, k)
  {
    seq(|v|, x requires 0 <= x < |v| => RowTimes(m[x], v, k))
  }

  /** A phase of modulus one. */
  predicate IsUnit(g: Gauss) {
    g == One || g == MinusOne || g == I || g == MinusI
  }

  // Rows with a single non-zero entry

  /** A row of zeros sends every state to amplitude 0. */
  lemma {:induction false} RowTimesZero(row: seq<Gauss>, v: Ket, k: nat)
    requires |row| == |v| && AtLevel(v, k)
    requires forall y :: 0 <= y < |row| ==> row[y] == Zero
    ensures RowTimes(row, v, k) == Amp(0.0, 0.0, k)
    decreases |row|
  {
    if row != [] {
      RowTimesZero(row[1..], v[1..], k);
    }
  }

  /** A row whose only non-zero entry is at j picks out row[j] * v[j]. */
  lemma {:induction false} RowTimesSingle(row: seq<Gauss>, v: Ket, k: nat, j: int)
    requires |row| == |v| && AtLevel(v, k) && 0 <= j < |row|
    requires forall y :: 0 <= y < |row| && y != j ==> row[y] == Zero
    ensures RowTimes(row, v, k) == Scale(row[j], v[j])
    decreases |row|
  {
    if j == 0 {
      RowTimesZero(row[1..], v[1..], k);
    } else {
      assert row[0] == Zero;
      RowTimesSingle(row[1..], v[1..], k, j - 1);
    }
  }

  /** Multiplying by a phase of modulus one keeps the squared magnitude. */
  lemma ScaleUnit(g: Gauss, a: Amp)
    requires IsUnit(g)
    ensures SqMag(Scale(g, a)) == SqMag(a)
  {
    var re, im := a.re, a.im;
    var b := Scale(g, a);
    if g == One {
      assert g.re as real == 1.0 && g.im as real == 0.0;
      assert b == Amp(re, im, a.k);
    } else if g == MinusOne {
      assert g.re as real == -1.0 && g.im as real == 0.0;
      assert b == Amp(-re, -im, a.k);
      assert (-re) * (-re) + (-im) * (-im) == re * re + im * im;
    } else if g == I {
      assert g.re as real == 0.0 && g.im as real == 1.0;
      assert b == Amp(-im, re, a.k);
      assert (-im) * (-im) + re * re == re * re + im * im;
    } else {
      assert g.re as real == 0.0 && g.im as real == -1.0;
      assert b == Amp(im, -re, a.k);
      assert im * im + (-re) * (-re) == re * re + im * im;
    }
    SqMagOfParts(b, a);
  }

  /** Amplitudes at the same level with the same re^2 + im^2 have the same
      squared magnitude. */
  lemma SqMagOfParts(a: Amp, b: Amp)
    requires a.k == b.k && a.re * a.re + a.im * a.im == b.re * b.re + b.im * b.im
    ensures SqMag(a) == SqMag(b)
  {
  }

  // Sums over sets of indices

  /** The sum of g over the members of s below n. */
  function RangeSum(s: set<int>, g: int -> real, n: nat): real {
    if n == 0 then 0.0 else RangeSum(s, g, n - 1) + (if n - 1 in s then g(n - 1) else 0.0)
  }

  /** Two sets with the same members below n have the same sum below n. */
  lemma {:induction false} RangeSumAgree(s: set<int>, t: set<int>, g: int -> real, n: nat)
    requires forall x :: 0 <= x < n ==> (x in s <==> x in t)
    ensures RangeSum(s, g, n) == RangeSum(t, g, n)
  {
    if n > 0 {
      RangeSumAgree(s, t, g, n - 1);
    }
  }

  /** Any member below n can be taken out of the sum first. */
  lemma {:induction false} RangeSumRemove(s: set<int>, g: int -> real, n: nat, y: int)
    requires y in s && 0 <= y < n
    ensures RangeSum(s, g, n) == g(y) + RangeSum(s - {y}, g, n)
  {
    if y == n - 1 {
      RangeSumAgree(s, s - {y}, g, n - 1);
    } else {
      RangeSumRemove(s, g, n - 1, y);
    }
  }

  /** Re-indexing a sum by an involution f of s leaves it unchanged: when
      h(x) == g(f(x)) on s, h and g have the same sum over s. */
  lemma {:induction false} RangeSumInvolution(s: set<int>, g: int -> real, h: int -> real, f: int -> int, n: nat)
    requires forall x :: x in s ==> 0 <= x < n && f(x) in s && f(f(x)) == x && h(x) == g(f(x))
    ensures RangeSum(s, h, n) == RangeSum(s, g, n)
  {
    if n > 0 {
      var y := n - 1;
      if y !in s {
        RangeSumInvolution(s, g, h, f, n - 1);
      } else if f(y) == y {
        var t := s - {y};
        assert forall x :: x in t ==> f(x) in t;
        RangeSumAgree(s, t, h, n - 1);
        RangeSumAgree(s, t, g, n - 1);
        RangeSumInvolution(t, g, h, f, n - 1);
      } else {
        var z := f(y);
        var t := s - {y} - {z};
        assert forall x :: x in t ==> f(x) in t;
        RangeSumRemove(s, h, n - 1, z);
        RangeSumRemove(s, g, n - 1, z);
        RangeSumAgree(s - {z}, t, h, n - 1);
        RangeSumAgree(s - {z}, t, g, n - 1);
        assert h(z) == g(y);
        RangeSumInvolution(t, g, h, f, n - 1);
      }
    }
  }

  /** The indices 0 .. n - 1 of a register of dimension n. */
  function Indices(n: nat): (s: set<int>)
    ensures forall x :: x in s <==> 0 <= x < n
  {
    if n == 0 then {} else Indices(n - 1) + {n - 1}
  }

  /** The squared norm splits off its last amplitude. */
  lemma {:induction false} NormSqLast(v: Ket)
    requires v != []
    ensures NormSq(v) == NormSq(v[..|v| - 1]) + SqMag(v[|v| - 1])
  {
    if |v| > 1 {
      assert v[1..][..|v[1..]| - 1] == v[..|v| - 1][1..];
      NormSqLast(v[1..]);
    } else {
      assert v[1..] == [] && v[..0] == [];
    }
  }

  /** The squared norm is the sum of the squared magnitudes over any set
      holding every index of the state. */
  lemma {:induction false} NormSqAsRangeSum(v: Ket, s: set<int>, g: int -> real)
    requires forall x :: 0 <= x < |v| ==> x in s && g(x) == SqMag(v[x])
    ensures NormSq(v) == RangeSum(s, g, |v|)
    decreases |v|
  {
    if v != [] {
      NormSqLast(v);
      NormSqAsRangeSum(v[..|v| - 1], s, g);
    }
  }

  // Operators that move each basis state to one basis state

  /** An operator whose row x has a single non-zero entry, a phase of
      modulus one in column f(x), sends the amplitude at f(x) to x with its
      squared magnitude unchanged. */
  lemma MonomialRows(m: Matrix, v: Ket, k: nat, f: int -> int)
    requires IsSquare(m) && |m| == |v| && AtLevel(v, k)
    requires forall x :: 0 <= x < |v| ==> 0 <= f(x) < |v| && IsUnit(m[x][f(x)])
    requires forall x, y :: 0 <= x < |v| && 0 <= y < |v| && y != f(x) ==> m[x][y] == Zero
    ensures forall x :: 0 <= x < |v| ==> SqMag(Apply(m, v, k)[x]) == SqMag(v[f(x)])
  {
    forall x | 0 <= x < |v|
      ensures SqMag(Apply(m, v, k)[x]) == SqMag(v[f(x)])
    {
      RowTimesSingle(m[x], v, k, f(x));
      ScaleUnit(m[x][f(x)], v[f(x)]);
    }
  }

  /** Such an operator keeps the squared norm of every state when f is an
      involution of the basis indices. */
  lemma ApplyMonomial(m: Matrix, v: Ket, k: nat, f: int -> int)
    requires IsSquare(m) && |m| == |v| && AtLevel(v, k)
    requires forall x :: 0 <= x < |v| ==> 0 <= f(x) < |v| && f(f(x)) == x && IsUnit(m[x][f(x)])
    requires forall x, y :: 0 <= x < |v| && 0 <= y < |v| && y != f(x) ==> m[x][y] == Zero
    ensures NormSq(Apply(m, v, k)) == NormSq(v)
  {
    var w := Apply(m, v, k);
    var gv := (x: int) => if 0 <= x < |v| then SqMag(v[x]) else 0.0;
    var gw := (x: int) => if 0 <= x < |w| then SqMag(w[x]) else 0.0;
    var s := Indices(|v|);
    MonomialRows(m, v, k, f);
    NormSqAsRangeSum(v, s, gv);
    NormSqAsRangeSum(w, s, gw);
    RangeSumInvolution(s, gv, gw, f, |v|);
  }

  /** The n-qubit identity keeps every state, and so its squared norm. */
  lemma IdentityKeepsNorm(n: nat, v: Ket, k: nat)
    requires n >= 1 && |v| == Pow2(n) && AtLevel(v, k)
    ensures NormSq(Apply(Tensor(Eyes(n)), v, k)) == NormSq(v)
  {
    var m := Tensor(Eyes(n));
    forall x, y | 0 <= x < |v| && 0 <= y < |v|
      ensures m[x][y] == if x == y then One else Zero
    {
      IdentityEntry(n, x, y);
    }
    ApplyMonomial(m, v, k, x => x);
  }

  /** X on one qubit keeps the squared norm of every state. */
  lemma SigmaXKeepsNorm(n: nat, pos: nat, v: Ket, k: nat)
    requires pos < n && |v| == Pow2(n) && AtLevel(v, k)
    ensures NormSq(Apply(Embed(SigmaX, n, pos), v, k)) == NormSq(v)
  {
    var m := Embed(SigmaX, n, pos);
    var f := (x: int) => FlipQubit(x, n, pos);
    forall x, y | 0 <= x < |v| && 0 <= y < |v|
      ensures m[x][y] == if y == f(x) then One else Zero
    {
      SigmaXEntry(n, pos, x, y);
    }
    forall x | 0 <= x < |v|
      ensures 0 <= f(x) < |v| && f(f(x)) == x
    {
      FlipQubitInvolution(x, n, pos);
    }
    ApplyMonomial(m, v, k, f);
  }

  /** Y on one qubit keeps the squared norm of every state. */
  lemma SigmaYKeepsNorm(n: nat, pos: nat, v: Ket, k: nat)
    requires pos < n && |v| == Pow2(n) && AtLevel(v, k)
    ensures NormSq(Apply(Embed(SigmaY, n, pos), v, k)) == NormSq(v)
  {
    var m := Embed(SigmaY, n, pos);
    var f := (x: int) => FlipQubit(x, n, pos);
    forall x, y | 0 <= x < |v| && 0 <= y < |v|
      ensures m[x][y] == if y == f(x) then (if QubitBit(x, n, pos) == 0 then MinusI else I) else Zero
    {
      SigmaYEntry(n, pos, x, y);
    }
    forall x | 0 <= x < |v|
      ensures 0 <= f(x) < |v| && f(f(x)) == x
    {
      FlipQubitInvolution(x, n, pos);
    }
    ApplyMonomial(m, v, k, f);
  }

  /** Z on one qubit keeps the squared norm of every state. */
  lemma SigmaZKeepsNorm(n: nat, pos: nat, v: Ket, k: nat)
    requires pos < n && |v| == Pow2(n) && AtLevel(v, k)
    ensures NormSq(Apply(Embed(SigmaZ, n, pos), v, k)) == NormSq(v)
  {
    var m := Embed(SigmaZ, n, pos);
    forall x, y | 0 <= x < |v| && 0 <= y < |v|
      ensures m[x][y] == if x == y then (if QubitBit(x, n, pos) == 0 then One else MinusOne) else Zero
    {
      SigmaZEntry(n, pos, x, y);
    }
    ApplyMonomial(m, v, k, x => x);
  }
}
