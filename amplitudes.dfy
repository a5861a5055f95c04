/** Register states with exact amplitudes. Every amplitude the core builds is
    a complex number with rational parts times a power of 1/sqrt(2), so an
    amplitude is kept as that pair and no square root is ever taken. */
module Amplitudes {
  import opened Arith

  /** The amplitude (re + i * im) / sqrt(2)^k. */
  datatype Amp = Amp(re: real, im: real, k: nat)

  function AmpMul(a: Amp, b: Amp): Amp {
    Amp(a.re * b.re - a.im * b.im, a.re * b.im + a.im * b.re, a.k + b.k)
  }

  /** Sum of two amplitudes carrying the same power of 1/sqrt(2). */
  function AmpAdd(a: Amp, b: Amp): Amp
    requires a.k == b.k
  {
    Amp(a.re + b.re, a.im + b.im, a.k)
  }

  /** |a|^2 = (re^2 + im^2) / 2^k: the Born-rule weight of an amplitude. */
  function SqMag(a: Amp): (r: real)
    ensures r >= 0.0
  {
    (a.re * a.re + a.im * a.im) / (Pow2(a.k) as real)
  }

  /** A state vector; entry x is the amplitude of computational basis state x. */
  type Ket = seq<Amp>

  /** The squared norm: the sum of all squared magnitudes. */
  function NormSq(v: Ket): real {
    if v == [] then 0.0 else SqMag(v[0]) + NormSq(v[1..])
  }

  /** The single-qubit basis state |b>. */
  function Basis(b: nat): (v: Ket)
    requires b < 2
    ensures |v| == 2 && v[b] == Amp(1.0, 0.0, 0) && v[1 - b] == Amp(0.0, 0.0, 0)
    ensures NormSq(v) == 1.0
  {
    SqMagOne();
    if b == 0 then [Amp(1.0, 0.0, 0), Amp(0.0, 0.0, 0)] else [Amp(0.0, 0.0, 0), Amp(1.0, 0.0, 0)]
  }

  function KetAdd(u: Ket, v: Ket): (w: Ket)
    requires |u| == |v| && forall x :: 0 <= x < |u| ==> u[x].k == v[x].k
    ensures |w| == |u|
  {
    seq(|u|, x requires 0 <= x < |u| => AmpAdd(u[x], v[x]))
  }

  /** v / sqrt(2): the normalisation `.unit()` performs on a vector whose
      squared norm is 2. */
  function DivSqrt2(v: Ket): (u: Ket)
    ensures |u| == |v|
    ensures forall x :: 0 <= x < |v| ==> SqMag(u[x]) == SqMag(v[x]) / 2.0
  {
    var u := seq(|v|, x requires 0 <= x < |v| => Amp(v[x].re, v[x].im, v[x].k + 1));
    assert forall x :: 0 <= x < |v| ==> SqMag(u[x]) == SqMag(v[x]) / 2.0 by {
      forall x | 0 <= x < |v| {
        SqMagDivSqrt2(v[x]);
      }
    }
    u
  }

  lemma HalveQuotient(s: real, p: real)
    requires p > 0.0
    ensures s / (2.0 * p) == (s / p) / 2.0
  {
    var h := (s / p) / 2.0;
    assert h * 2.0 == s / p;
    assert (s / p) * p == s;
    MulAssoc(h, 2.0, p);
    DivByProduct(s, 2.0 * p, h);
  }

  lemma MulAssoc(x: real, y: real, z: real)
    ensures (x * y) * z == x * (y * z)
  {
  }

  /** A quotient is the number that multiplies the divisor back. */
  lemma DivByProduct(s: real, t: real, h: real)
    requires t != 0.0 && h * t == s
    ensures s / t == h
  {
  }

  /** Dividing by sqrt(2) halves every squared magnitude. */
  lemma SqMagDivSqrt2(a: Amp)
    ensures SqMag(Amp(a.re, a.im, a.k + 1)) == SqMag(a) / 2.0
  {
    var s, p := a.re * a.re + a.im * a.im, Pow2(a.k) as real;
    assert Pow2(a.k + 1) as real == 2.0 * p;
    assert SqMag(a) == s / p;
    assert SqMag(Amp(a.re, a.im, a.k + 1)) == s / (2.0 * p);
    HalveQuotient(s, p);
  }

  lemma {:induction false} NormSqDivSqrt2(v: Ket)
    ensures NormSq(DivSqrt2(v)) == NormSq(v) / 2.0
  {
    if v != [] {
      assert DivSqrt2(v)[1..] == DivSqrt2(v[1..]);
      NormSqDivSqrt2(v[1..]);
      SqMagDivSqrt2(v[0]);
    }
  }

  /** (|0> + |1>).unit(): the uniform single-qubit superposition, both
      amplitudes 1 / sqrt(2). */
  const UniformQubit: Ket := [Amp(1.0, 0.0, 1), Amp(1.0, 0.0, 1)]

  /** Amplitude 1 has squared magnitude 1. */
  lemma SqMagOne()
    ensures SqMag(Amp(1.0, 0.0, 0)) == 1.0
  {
    assert Pow2(0) == 1;
  }

  /** |0> + |1> has both amplitudes 1 and squared norm 2. */
  lemma BasisSum()
    ensures KetAdd(Basis(0), Basis(1)) == [Amp(1.0, 0.0, 0), Amp(1.0, 0.0, 0)]
    ensures NormSq([Amp(1.0, 0.0, 0), Amp(1.0, 0.0, 0)]) == 2.0
  {
    var one := Amp(1.0, 0.0, 0);
    var v := [one, one];
    assert KetAdd(Basis(0), Basis(1)) == v;
    SqMagOne();
    assert v[1..] == [one] && [one][1..] == [];
    assert NormSq([one]) == 1.0;
  }

  /** Normalising |0> + |1> gives the uniform qubit, whose squared norm is 1. */
  lemma UniformQubitIsUnit()
    ensures UniformQubit == DivSqrt2(KetAdd(Basis(0), Basis(1)))
    ensures NormSq(UniformQubit) == 1.0
  {
    BasisSum();
    NormSqDivSqrt2(KetAdd(Basis(0), Basis(1)));
  }

  /** The Kronecker product u ⊗ v of two state vectors. */
  function KronKet(u: Ket, v: Ket): (w: Ket)
    requires |v| > 0
    ensures |w| == |u| * |v|
  {
    seq(|u| * |v|, x requires 0 <= x < |u| * |v| =>
      DivBelow(x, |v|, |u|);
      AmpMul(u[x / |v|], v[x % |v|]))
  }

  /** The tensor product of a non-empty list of single-qubit states, the
      first one on qubit 0 (the most significant bit). */
  function TensorKets(qs: seq<Ket>): (w: Ket)
    requires |qs| >= 1 && forall t :: 0 <= t < |qs| ==> |qs[t]| == 2
    ensures |w| == Pow2(|qs|)
    decreases |qs|
  {
    assert |qs[0]| == 2;
    if |qs| == 1 then qs[0] else KronKet(qs[0], TensorKets(qs[1..]))
  }

  /** The tensor product of m uniform qubits has 2^m amplitudes, each
      1 / sqrt(2)^m. */
  lemma {:induction false} UniformTensor(qs: seq<Ket>)
    requires |qs| >= 1 && forall t :: 0 <= t < |qs| ==> qs[t] == UniformQubit
    ensures forall x :: 0 <= x < |TensorKets(qs)| ==> TensorKets(qs)[x] == Amp(1.0, 0.0, |qs|)
  {
    if |qs| > 1 {
      var rest := TensorKets(qs[1..]);
      UniformTensor(qs[1..]);
      forall x | 0 <= x < |TensorKets(qs)|
        ensures TensorKets(qs)[x] == Amp(1.0, 0.0, |qs|)
      {
        DivBelow(x, |rest|, 2);
        assert TensorKets(qs)[x] == AmpMul(qs[0][x / |rest|], rest[x % |rest|]);
      }
    }
  }

  /** A vector whose amplitudes all equal a has squared norm |v| * |a|^2. */
  lemma {:induction false} NormSqConstant(v: Ket, a: Amp)
    requires forall x :: 0 <= x < |v| ==> v[x] == a
    ensures NormSq(v) == (|v| as real) * SqMag(a)
  {
    if v != [] {
      NormSqConstant(v[1..], a);
    }
  }
}
