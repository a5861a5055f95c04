/** The MaxCut objective and the initial register state: `evaluate_obj` and
    `initial_state`. */
module Qaoa {
  import opened Arith
  import opened Results
  import opened Amplitudes

  /** A graph edge: the pair of node indices (edge[0], edge[1]). */
  datatype Edge = Edge(u: int, v: int)

  // Python semantics of the expressions evaluate_obj is built from

  /** z_list[k]: a negative index counts from the end; anything outside
      -|z| .. |z| - 1 is an IndexError. */
  function PyIndex(z: string, k: int): (r: Result<char>)
    ensures r.Ok? <==> -|z| <= k < |z|
    ensures r.Ok? ==> r.value in z
    ensures 0 <= k < |z| ==> r == Ok(z[k])
    ensures -|z| <= k < 0 ==> r == Ok(z[k + |z|])
  {
    if 0 <= k < |z| then Ok(z[k])
    else if -|z| <= k < 0 then Ok(z[k + |z|])
    else Err(IndexError)
  }

  predicate IsDigit(c: char) {
    '0' <= c <= '9'
  }

  /** int(c) of a one-character string: its decimal value, or a ValueError
      when c is not a decimal digit. */
  function IntOfChar(c: char): (r: Result<int>)
    ensures r.Ok? <==> IsDigit(c)
    ensures r.Ok? ==> 0 <= r.value <= 9 && r.value == c as int - '0' as int
    ensures r.Err? ==> r.error == ValueError
  {
    if IsDigit(c) then Ok(c as int - '0' as int) else Err(ValueError)
  }

  /** (int(z_list[edge[0]]) - int(z_list[edge[1]]))**2, evaluated left to
      right, so the first failing step decides the exception. */
  function EdgeTerm(z: string, e: Edge): (r: Result<int>)
    ensures r.Ok? <==> (-|z| <= e.u < |z| && -|z| <= e.v < |z| &&
      IsDigit(PyIndex(z, e.u).value) && IsDigit(PyIndex(z, e.v).value))
    ensures r.Ok? ==> 0 <= r.value <= 81
  {
    var cu :- PyIndex(z, e.u);
    var a :- IntOfChar(cu);
    var cv :- PyIndex(z, e.v);
    var b :- IntOfChar(cv);
    Ok((a - b) * (a - b))
  }

  /** The exception a failing term raises is decided by the first step that
      fails: an index out of range is an IndexError, a non-digit a
      ValueError, the first endpoint before the second. */
  lemma EdgeTermError(z: string, e: Edge)
    requires EdgeTerm(z, e).Err?
    ensures EdgeTerm(z, e).error ==
      if !(-|z| <= e.u < |z|) then IndexError
      else if !IsDigit(PyIndex(z, e.u).value) then ValueError
      else if !(-|z| <= e.v < |z|) then IndexError
      else ValueError
  {
  }

  /** The value of `obj` after the loop of evaluate_obj has run over all of
      edges, or the exception it stops at. */
  function Objective(z: string, edges: seq<Edge>): (r: Result<int>)
    ensures r.Ok? ==> 0 <= r.value <= 81 * |edges|
    decreases |edges|
  {
    if edges == [] then Ok(0)
    else
      var acc :- Objective(z, edges[..|edges| - 1]);
      var t :- EdgeTerm(z, edges[|edges| - 1]);
      Ok(acc + t)
  }

  // Reference definitions

  /** A bit string: every character is '0' or '1'. */
  predicate IsBitString(z: string) {
    forall i :: 0 <= i < |z| ==> z[i] == '0' || z[i] == '1'
  }

  /** Every endpoint is a non-negative position of z. */
  predicate EndpointsInRange(z: string, edges: seq<Edge>) {
    forall e :: e in edges ==> 0 <= e.u < |z| && 0 <= e.v < |z|
  }

  /** The number of edges whose endpoints carry different characters: the
      size of the cut z describes. */
  function CutCount(z: string, edges: seq<Edge>): nat
    requires EndpointsInRange(z, edges)
  {
    if edges == [] then 0
    else (if z[edges[0].u] != z[edges[0].v] then 1 else 0) + CutCount(z, edges[1..])
  }

  /** Every bit inverted: the complementary side of the same cut. */
  function Complement(z: string): (c: string)
    ensures |c| == |z|
  {
    seq(|z|, i requires 0 <= i < |z| => if z[i] == '0' then '1' else if z[i] == '1' then '0' else z[i])
  }

  /** Every edge's term can be evaluated. */
  predicate AllTermsOk(z: string, edges: seq<Edge>) {
    forall e :: e in edges ==> EdgeTerm(z, e).Ok?
  }

  /** The sum of the edge terms, taken from the front of the list. The
      same total as Objective (ObjectiveIsTermSum), kept as a second
      definition because the permutation proof takes an arbitrary edge out
      of the list, which this form and TermSumRemove make easy. */
  function TermSum(z: string, edges: seq<Edge>): int
    requires AllTermsOk(z, edges)
  {
    if edges == [] then 0 else EdgeTerm(z, edges[0]).value + TermSum(z, edges[1..])
  }

  // evaluate_obj

  /** evaluate_obj: sum (z[u] - z[v])^2 over the edges, stopping at the
      first edge whose endpoint is out of range or not a digit. */
  method EvaluateObj(zStr: string, edges: seq<Edge>) returns (r: Result<int>)
    ensures r == Objective(zStr, edges)
    ensures r.Ok? <==> AllTermsOk(zStr, edges)
    ensures IsBitString(zStr) && EndpointsInRange(zStr, edges) ==> r == Ok(CutCount(zStr, edges))
  {
    var obj := 0;
    var zList := zStr;
    for k := 0 to |edges|
      invariant Objective(zStr, edges[..k]) == Ok(obj)
    {
      var term := EdgeTerm(zList, edges[k]);
      if term.Err? {
        assert edges[..k + 1][..k] == edges[..k];
        ObjectiveStopsAtError(zStr, edges, k + 1);
        ObjectiveOkIff(zStr, edges);
        return Err(term.error);
      }
      assert edges[..k + 1][..k] == edges[..k];
      obj := obj + term.value;
    }
    assert edges[..|edges|] == edges;
    ObjectiveOkIff(zStr, edges);
    if IsBitString(zStr) && EndpointsInRange(zStr, edges) {
      ObjectiveIsCutCount(zStr, edges);
    }
    return Ok(obj);
  }

  /** Once a prefix of the edges raises, the whole loop raises the same
      exception. */
  lemma {:induction false} ObjectiveStopsAtError(z: string, edges: seq<Edge>, k: nat)
    requires k <= |edges| && Objective(z, edges[..k]).Err?
    ensures Objective(z, edges) == Objective(z, edges[..k])
    decreases |edges|
  {
    if k < |edges| {
      var init := edges[..|edges| - 1];
      assert init[..k] == edges[..k];
      ObjectiveStopsAtError(z, init, k);
    } else {
      assert edges[..k] == edges;
    }
  }

  /** evaluate_obj returns a value exactly when every edge's term can be
      evaluated. */
  lemma {:induction false} ObjectiveOkIff(z: string, edges: seq<Edge>)
    ensures Objective(z, edges).Ok? <==> AllTermsOk(z, edges)
    decreases |edges|
  {
    if edges != [] {
      var init := edges[..|edges| - 1];
      ObjectiveOkIff(z, init);
      assert edges == init + [edges[|edges| - 1]];
    }
  }

  // Properties of the objective

  /** On a bit string, an edge between two valid positions contributes 1 if
      its endpoints differ and 0 otherwise. */
  lemma BitTerm(z: string, e: Edge)
    requires IsBitString(z) && 0 <= e.u < |z| && 0 <= e.v < |z|
    ensures EdgeTerm(z, e) == Ok(if z[e.u] != z[e.v] then 1 else 0)
  {
  }

  /** On a bit string every term that evaluates is 0 or 1, and a term
      evaluates exactly when both endpoints are valid Python indices. */
  lemma BitTermBound(z: string, e: Edge)
    requires IsBitString(z)
    ensures EdgeTerm(z, e).Ok? <==> -|z| <= e.u < |z| && -|z| <= e.v < |z|
    ensures EdgeTerm(z, e).Ok? ==> 0 <= EdgeTerm(z, e).value <= 1
  {
    if -|z| <= e.u < |z| && -|z| <= e.v < |z| {
      var cu, cv := PyIndex(z, e.u).value, PyIndex(z, e.v).value;
      assert cu == '0' || cu == '1';
      assert cv == '0' || cv == '1';
    }
  }

  lemma {:induction false} CutCountAppend(z: string, s: seq<Edge>, t: seq<Edge>)
    requires EndpointsInRange(z, s) && EndpointsInRange(z, t)
    ensures EndpointsInRange(z, s + t)
    ensures CutCount(z, s + t) == CutCount(z, s) + CutCount(z, t)
  {
    if s != [] {
      assert (s + t)[1..] == s[1..] + t;
      CutCountAppend(z, s[1..], t);
    } else {
      assert s + t == t;
    }
  }

  /** On a bit string whose edges have valid endpoints, evaluate_obj is the
      number of cut edges: those whose endpoints carry different bits. */
  lemma {:induction false} ObjectiveIsCutCount(z: string, edges: seq<Edge>)
    requires IsBitString(z) && EndpointsInRange(z, edges)
    ensures Objective(z, edges) == Ok(CutCount(z, edges))
    decreases |edges|
  {
    if edges != [] {
      var init, last := edges[..|edges| - 1], edges[|edges| - 1];
      assert edges == init + [last];
      ObjectiveIsCutCount(z, init);
      BitTerm(z, last);
      CutCountAppend(z, init, [last]);
    }
  }

  /** On a bit string the objective lies between 0 and the number of edges
      (0 for no edges); it fails only when an endpoint is out of range. */
  lemma {:induction false} ObjectiveBounds(z: string, edges: seq<Edge>)
    requires IsBitString(z)
    ensures Objective(z, edges).Ok? <==>
      forall e :: e in edges ==> -|z| <= e.u < |z| && -|z| <= e.v < |z|
    ensures Objective(z, edges).Ok? ==> 0 <= Objective(z, edges).value <= |edges|
    decreases |edges|
  {
    if edges != [] {
      var init, last := edges[..|edges| - 1], edges[|edges| - 1];
      assert edges == init + [last];
      ObjectiveBounds(z, init);
      BitTermBound(z, last);
    }
  }

  /** Complementing a bit string describes the same cut, so every edge term,
      and therefore evaluate_obj's result or exception, is unchanged. */
  lemma {:induction false} ObjectiveComplement(z: string, edges: seq<Edge>)
    requires IsBitString(z)
    ensures IsBitString(Complement(z))
    ensures Objective(Complement(z), edges) == Objective(z, edges)
    decreases |edges|
  {
    if edges != [] {
      ObjectiveComplement(z, edges[..|edges| - 1]);
      TermComplement(z, edges[|edges| - 1]);
    }
  }

  /** Complementing a bit string leaves each edge term, or its exception,
      unchanged. */
  lemma TermComplement(z: string, e: Edge)
    requires IsBitString(z)
    ensures EdgeTerm(Complement(z), e) == EdgeTerm(z, e)
  {
    var c := Complement(z);
    if PyIndex(z, e.u).Ok? && PyIndex(z, e.v).Ok? {
      var a, b := IntOfChar(PyIndex(z, e.u).value).value, IntOfChar(PyIndex(z, e.v).value).value;
      assert IntOfChar(PyIndex(c, e.u).value) == Ok(1 - a);
      assert IntOfChar(PyIndex(c, e.v).value) == Ok(1 - b);
      assert ((1 - a) - (1 - b)) * ((1 - a) - (1 - b)) == (a - b) * (a - b);
    }
  }

  /** The edge with its endpoints exchanged. */
  function Reversed(e: Edge): Edge {
    Edge(e.v, e.u)
  }

  /** Two edge lists whose terms agree position by position (both evaluate,
      to the same value, or neither does) give the same objective. */
  lemma {:induction false} ObjectiveTermwise(z: string, a: seq<Edge>, b: seq<Edge>)
    requires |a| == |b|
    requires forall k :: 0 <= k < |a| ==> EdgeTerm(z, a[k]).Ok? == EdgeTerm(z, b[k]).Ok?
    requires forall k :: 0 <= k < |a| && EdgeTerm(z, a[k]).Ok? ==> EdgeTerm(z, a[k]).value == EdgeTerm(z, b[k]).value
    ensures Objective(z, a).Ok? == Objective(z, b).Ok?
    ensures Objective(z, a).Ok? ==> Objective(z, a).value == Objective(z, b).value
    decreases |a|
  {
    if a != [] {
      ObjectiveTermwise(z, a[..|a| - 1], b[..|b| - 1]);
    }
  }

  /** Exchanging the endpoints of any one edge leaves evaluate_obj's value,
      and whether it raises, unchanged. */
  lemma ObjectiveSwapEndpoints(z: string, edges: seq<Edge>, k: nat)
    requires k < |edges|
    ensures Objective(z, edges[k := Reversed(edges[k])]).Ok? == Objective(z, edges).Ok?
    ensures Objective(z, edges).Ok? ==>
      Objective(z, edges[k := Reversed(edges[k])]).value == Objective(z, edges).value
  {
    var e := edges[k];
    var swapped := edges[k := Reversed(e)];
    if EdgeTerm(z, e).Ok? {
      var a, b := IntOfChar(PyIndex(z, e.u).value).value, IntOfChar(PyIndex(z, e.v).value).value;
      assert (b - a) * (b - a) == (a - b) * (a - b);
    }
    assert EdgeTerm(z, Reversed(e)).Ok? == EdgeTerm(z, e).Ok?;
    ObjectiveTermwise(z, swapped, edges);
  }

  /** Two edge lists with the same term, or the same exception, at every
      position give the same result, exception included. */
  lemma {:induction false} ObjectiveSameTerms(z: string, a: seq<Edge>, b: seq<Edge>)
    requires |a| == |b|
    requires forall k :: 0 <= k < |a| ==> EdgeTerm(z, a[k]) == EdgeTerm(z, b[k])
    ensures Objective(z, a) == Objective(z, b)
    decreases |a|
  {
    if a != [] {
      ObjectiveSameTerms(z, a[..|a| - 1], b[..|b| - 1]);
    }
  }

  /** Naming the first endpoint of an edge by its negative alias u - len(z),
      which Python's list indexing reads as the same bit, leaves
      evaluate_obj's result, exception included, unchanged. */
  lemma ObjectiveNegativeAlias(z: string, edges: seq<Edge>, k: nat)
    requires k < |edges| && 0 <= edges[k].u < |z|
    ensures Objective(z, edges[k := Edge(edges[k].u - |z|, edges[k].v)]) == Objective(z, edges)
  {
    var e := edges[k];
    var aliased := edges[k := Edge(e.u - |z|, e.v)];
    assert EdgeTerm(z, aliased[k]) == EdgeTerm(z, e);
    ObjectiveSameTerms(z, aliased, edges);
  }

  lemma {:induction false} TermSumAppend(z: string, s: seq<Edge>, t: seq<Edge>)
    requires AllTermsOk(z, s) && AllTermsOk(z, t)
    ensures AllTermsOk(z, s + t)
    ensures TermSum(z, s + t) == TermSum(z, s) + TermSum(z, t)
  {
    if s != [] {
      assert (s + t)[1..] == s[1..] + t;
      TermSumAppend(z, s[1..], t);
    } else {
      assert s + t == t;
    }
  }

  /** When every term evaluates, evaluate_obj is their sum. */
  lemma {:induction false} ObjectiveIsTermSum(z: string, edges: seq<Edge>)
    requires AllTermsOk(z, edges)
    ensures Objective(z, edges) == Ok(TermSum(z, edges))
    decreases |edges|
  {
    if edges != [] {
      var init, last := edges[..|edges| - 1], edges[|edges| - 1];
      assert edges == init + [last];
      ObjectiveIsTermSum(z, init);
      TermSumAppend(z, init, [last]);
    }
  }

  /** Removing the element at k from b removes a[0] from a's multiset. */
  lemma RemoveMatching(a: seq<Edge>, b: seq<Edge>, k: nat)
    requires multiset(a) == multiset(b) && a != [] && k < |b| && b[k] == a[0]
    ensures multiset(a[1..]) == multiset(b[..k] + b[k + 1..])
  {
    var e, rest := a[0], b[..k] + b[k + 1..];
    assert a == [e] + a[1..];
    assert b == b[..k] + [e] + b[k + 1..];
    assert multiset(a) == multiset{e} + multiset(a[1..]);
    assert multiset(b) == multiset(b[..k]) + multiset{e} + multiset(b[k + 1..]);
    assert multiset(rest) == multiset(b[..k]) + multiset(b[k + 1..]);
    assert multiset(b) == multiset{e} + multiset(rest);
    assert multiset(a[1..]) == multiset(a) - multiset{e};
    assert multiset(rest) == multiset(b) - multiset{e};
  }

  /** The sum with the term at k taken out and added separately. */
  lemma TermSumRemove(z: string, b: seq<Edge>, k: nat)
    requires AllTermsOk(z, b) && k < |b|
    ensures AllTermsOk(z, b[..k] + b[k + 1..])
    ensures TermSum(z, b) == EdgeTerm(z, b[k]).value + TermSum(z, b[..k] + b[k + 1..])
  {
    assert b == b[..k] + [b[k]] + b[k + 1..];
    assert forall e :: e in b[..k] || e in b[k + 1..] ==> e in b;
    TermSumAppend(z, b[..k], [b[k]]);
    TermSumAppend(z, b[..k] + [b[k]], b[k + 1..]);
    TermSumAppend(z, b[..k], b[k + 1..]);
  }

  /** Reordering the edges does not change the sum of their terms. */
  lemma {:induction false} TermSumPermutation(z: string, a: seq<Edge>, b: seq<Edge>)
    requires multiset(a) == multiset(b) && AllTermsOk(z, a)
    ensures AllTermsOk(z, b) && TermSum(z, a) == TermSum(z, b)
    decreases |a|
  {
    assert forall e :: e in b ==> e in multiset(a);
    if a != [] {
      assert a[0] in multiset(b);
      var k :| 0 <= k < |b| && b[k] == a[0];
      RemoveMatching(a, b, k);
      TermSumRemove(z, b, k);
      TermSumPermutation(z, a[1..], b[..k] + b[k + 1..]);
    } else {
      assert |multiset(b)| == 0;
    }
  }

  /** Permuting the edge list leaves evaluate_obj's value, and whether it
      raises, unchanged. */
  lemma ObjectivePermutation(z: string, a: seq<Edge>, b: seq<Edge>)
    requires multiset(a) == multiset(b)
    ensures Objective(z, a).Ok? == Objective(z, b).Ok?
    ensures Objective(z, a).Ok? ==> Objective(z, a).value == Objective(z, b).value
  {
    ObjectiveOkIff(z, a);
    ObjectiveOkIff(z, b);
    assert forall e :: e in a <==> e in multiset(b);
    if AllTermsOk(z, a) {
      TermSumPermutation(z, a, b);
      ObjectiveIsTermSum(z, a);
      ObjectiveIsTermSum(z, b);
    }
  }

  // initial_state

  /** initial_state: the tensor product of n copies of (|0> + |1>).unit().
      Fewer than one qubit is a ValueError. Every one of the 2^n amplitudes
      is 1 / sqrt(2)^n, so each basis state has probability 1 / 2^n and the
      state is normalised. */
  method InitialState(nVertices: int) returns (r: Result<Ket>)
    ensures r.Err? <==> nVertices < 1
    ensures r.Err? ==> r.error == ValueError
    ensures r.Ok? ==> nVertices >= 1 && |r.value| == Pow2(nVertices) && NormSq(r.value) == 1.0
    ensures r.Ok? ==> forall x :: 0 <= x < |r.value| ==>
      r.value[x] == Amp(1.0, 0.0, nVertices) && SqMag(r.value[x]) == 1.0 / (Pow2(nVertices) as real)
  {
    if nVertices < 1 {
      return Err(ValueError);
    }
    var listS: seq<Ket> := [];
    var i := 0;
    while i < nVertices
      invariant 0 <= i <= nVertices
      invariant |listS| == i && forall t :: 0 <= t < i ==> listS[t] == UniformQubit
    {
      UniformQubitIsUnit();
      listS := listS + [DivSqrt2(KetAdd(Basis(0), Basis(1)))];
      i := i + 1;
    }
    var initState := TensorKets(listS);
    UniformTensor(listS);
    var a := Amp(1.0, 0.0, nVertices);
    NormSqConstant(initState, a);
    var p := Pow2(nVertices) as real;
    assert SqMag(a) == 1.0 / p;
    assert p * (1.0 / p) == 1.0;
    return Ok(initState);
  }
}
