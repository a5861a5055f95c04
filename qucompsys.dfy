/** Register operators and the computational-basis probability list:
    `n_qeye`, `n_sigmax`, `n_sigmay`, `n_sigmaz` and `comp_basis_prob_dist`. */
module QuCompSys {
  import opened Arith
  import opened Results
  import opened Operators
  import opened Amplitudes
  import opened Action

  /** n_qeye: the identity on n qubits, as the tensor product of n
      single-qubit identities. Fewer than one qubit is a ValueError. */
  function NQEye(nQubits: int): (r: Result<Matrix>)
    ensures r.Err? <==> nQubits < 1
    ensures r.Err? ==> r.error == ValueError
    ensures r.Ok? ==> nQubits >= 1 && |r.value| == Pow2(nQubits) && IsSquare(r.value)
    ensures r.Ok? ==> forall x, y :: 0 <= x < |r.value| && 0 <= y < |r.value| ==>
      r.value[x][y] == if x == y then One else Zero
    ensures r.Ok? ==> forall v: Ket, k: nat :: |v| == Pow2(nQubits) && AtLevel(v, k) ==>
      NormSq(Apply(r.value, v, k)) == NormSq(v)
  {
    if nQubits < 1 then Err(ValueError)
    else
      var m := Tensor(Eyes(nQubits));
      assert forall x, y :: 0 <= x < |m| && 0 <= y < |m| ==> m[x][y] == if x == y then One else Zero by {
        forall x, y | 0 <= x < |m| && 0 <= y < |m| {
          IdentityEntry(nQubits, x, y);
        }
      }
      assert forall v: Ket, k: nat :: |v| == Pow2(nQubits) && AtLevel(v, k) ==>
          NormSq(Apply(m, v, k)) == NormSq(v) by {
        forall v: Ket, k: nat | |v| == Pow2(nQubits) && AtLevel(v, k) {
          IdentityKeepsNorm(nQubits, v, k);
        }
      }
      Ok(m)
  }

  /** The shared body of n_sigmax, n_sigmay and n_sigmaz: check the
      arguments, build the embedding of op at every qubit position in turn,
      and return the one at qubitPos. */
  method NSigma(op: Matrix, nQubits: int, qubitPos: int) returns (r: Result<Matrix>)
    requires IsQubitOp(op)
    ensures r.Err? <==> nQubits < 1 || qubitPos < 0 || qubitPos > nQubits - 1
    ensures r.Err? ==> r.error == ValueError
    ensures r.Ok? ==> 0 <= qubitPos < nQubits && r.value == Embed(op, nQubits, qubitPos)
  {
    if nQubits < 1 {
      return Err(ValueError);
    }
    if qubitPos < 0 || qubitPos > nQubits - 1 {
      return Err(ValueError);
    }
    var embeddings: seq<Matrix> := [];
    for i := 0 to nQubits
      invariant |embeddings| == i
      invariant forall k :: 0 <= k < i ==> embeddings[k] == Embed(op, nQubits, k)
    {
      embeddings := embeddings + [Tensor(EmbedList(op, nQubits, i))];
    }
    return Ok(embeddings[qubitPos]);
  }

  /** n_sigmax: Pauli X on one qubit of an n-qubit register. Its entry is 1
      exactly where the column index is the row index with that qubit's bit
      flipped, and 0 elsewhere. */
  method NSigmaX(nQubits: int, qubitPos: int) returns (r: Result<Matrix>)
    ensures r.Err? <==> nQubits < 1 || qubitPos < 0 || qubitPos > nQubits - 1
    ensures r.Err? ==> r.error == ValueError
    ensures r.Ok? ==> 0 <= qubitPos < nQubits && r.value == Embed(SigmaX, nQubits, qubitPos)
    ensures r.Ok? ==> (|r.value| == Pow2(nQubits) && IsSquare(r.value) &&
      forall x, y :: 0 <= x < |r.value| && 0 <= y < |r.value| ==>
        r.value[x][y] == if y == FlipQubit(x, nQubits, qubitPos) then One else Zero)
    ensures r.Ok? ==> forall v: Ket, k: nat :: |v| == Pow2(nQubits) && AtLevel(v, k) ==>
      NormSq(Apply(r.value, v, k)) == NormSq(v)
  {
    r := NSigma(SigmaX, nQubits, qubitPos);
    if r.Ok? {
      forall x, y | 0 <= x < |r.value| && 0 <= y < |r.value|
        ensures r.value[x][y] == if y == FlipQubit(x, nQubits, qubitPos) then One else Zero
      {
        SigmaXEntry(nQubits, qubitPos, x, y);
      }
      forall v: Ket, k: nat | |v| == Pow2(nQubits) && AtLevel(v, k)
        ensures NormSq(Apply(r.value, v, k)) == NormSq(v)
      {
        SigmaXKeepsNorm(nQubits, qubitPos, v, k);
      }
    }
  }

  /** n_sigmay: Pauli Y on one qubit. Same pattern as X, with -i in rows
      where that qubit is 0 and i in rows where it is 1. */
  method NSigmaY(nQubits: int, qubitPos: int) returns (r: Result<Matrix>)
    ensures r.Err? <==> nQubits < 1 || qubitPos < 0 || qubitPos > nQubits - 1
    ensures r.Err? ==> r.error == ValueError
    ensures r.Ok? ==> 0 <= qubitPos < nQubits && r.value == Embed(SigmaY, nQubits, qubitPos)
    ensures r.Ok? ==> (|r.value| == Pow2(nQubits) && IsSquare(r.value) &&
      forall x, y :: 0 <= x < |r.value| && 0 <= y < |r.value| ==>
        r.value[x][y] ==
          if y == FlipQubit(x, nQubits, qubitPos)
          then (if QubitBit(x, nQubits, qubitPos) == 0 then MinusI else I)
          else Zero)
    ensures r.Ok? ==> forall v: Ket, k: nat :: |v| == Pow2(nQubits) && AtLevel(v, k) ==>
      NormSq(Apply(r.value, v, k)) == NormSq(v)
  {
    r := NSigma(SigmaY, nQubits, qubitPos);
    if r.Ok? {
      forall x, y | 0 <= x < |r.value| && 0 <= y < |r.value|
        ensures r.value[x][y] ==
          if y == FlipQubit(x, nQubits, qubitPos)
          then (if QubitBit(x, nQubits, qubitPos) == 0 then MinusI else I)
          else Zero
      {
        SigmaYEntry(nQubits, qubitPos, x, y);
      }
      forall v: Ket, k: nat | |v| == Pow2(nQubits) && AtLevel(v, k)
        ensures NormSq(Apply(r.value, v, k)) == NormSq(v)
      {
        SigmaYKeepsNorm(nQubits, qubitPos, v, k);
      }
    }
  }

  /** n_sigmaz: Pauli Z on one qubit. Diagonal, +1 where that qubit is 0
      and -1 where it is 1. */
  method NSigmaZ(nQubits: int, qubitPos: int) returns (r: Result<Matrix>)
    ensures r.Err? <==> nQubits < 1 || qubitPos < 0 || qubitPos > nQubits - 1
    ensures r.Err? ==> r.error == ValueError
    ensures r.Ok? ==> 0 <= qubitPos < nQubits && r.value == Embed(SigmaZ, nQubits, qubitPos)
    ensures r.Ok? ==> (|r.value| == Pow2(nQubits) && IsSquare(r.value) &&
      forall x, y :: 0 <= x < |r.value| && 0 <= y < |r.value| ==>
        r.value[x][y] ==
          if x == y then (if QubitBit(x, nQubits, qubitPos) == 0 then One else MinusOne) else Zero)
    ensures r.Ok? ==> forall v: Ket, k: nat :: |v| == Pow2(nQubits) && AtLevel(v, k) ==>
      NormSq(Apply(r.value, v, k)) == NormSq(v)
  {
    r := NSigma(SigmaZ, nQubits, qubitPos);
    if r.Ok? {
      forall x, y | 0 <= x < |r.value| && 0 <= y < |r.value|
        ensures r.value[x][y] ==
          if x == y then (if QubitBit(x, nQubits, qubitPos) == 0 then One else MinusOne) else Zero
      {
        SigmaZEntry(nQubits, qubitPos, x, y);
      }
      forall v: Ket, k: nat | |v| == Pow2(nQubits) && AtLevel(v, k)
        ensures NormSq(Apply(r.value, v, k)) == NormSq(v)
      {
        SigmaZKeepsNorm(nQubits, qubitPos, v, k);
      }
    }
  }

  /** comp_basis_prob_dist: the Born-rule probability of every computational
      basis state, in the order of the state's components. */
  method CompBasisProbDist(qstate: Ket) returns (probDist: seq<real>)
    ensures |probDist| == |qstate|
    ensures forall x :: 0 <= x < |qstate| ==> probDist[x] == SqMag(qstate[x]) && probDist[x] >= 0.0
    ensures Sum(probDist) == NormSq(qstate)
  {
    probDist := [];
    for x := 0 to |qstate|
      invariant |probDist| == x
      invariant forall t :: 0 <= t < x ==> probDist[t] == SqMag(qstate[t])
    {
      probDist := probDist + [SqMag(qstate[x])];
    }
    SumOfSqMags(qstate, probDist);
  }

  /** The sum of a list of probabilities. NormSq sums the squared
      magnitudes of a state directly; this sums the list the loop builds,
      and SumOfSqMags shows the two agree. */
  function Sum(s: seq<real>): real {
    if s == [] then 0.0 else s[0] + Sum(s[1..])
  }

  /** A list holding the squared magnitudes of a state sums to its squared
      norm, so a normalised state gives a distribution summing to 1. */
  lemma {:induction false} SumOfSqMags(v: Ket, probs: seq<real>)
    requires |probs| == |v| && forall x :: 0 <= x < |v| ==> probs[x] == SqMag(v[x])
    ensures Sum(probs) == NormSq(v)
  {
    if v != [] {
      SumOfSqMags(v[1..], probs[1..]);
    }
  }
}
