/** The graph read by the driver script: the node list, the qubit count, and
    the edge list parsed from the configured edges string. */
module Execution {
  import opened Results
  import opened Qaoa

  // str.split

  /** s.split(sep): the pieces between separators, in order; there is always
      at least one piece, and no piece contains the separator. */
  function Split(s: string, sep: char): (parts: seq<string>)
    ensures |parts| >= 1
    ensures forall k :: 0 <= k < |parts| ==> sep !in parts[k]
  {
    if s == [] then [""]
    else
      var rest := Split(s[1..], sep);
      if s[0] == sep then [""] + rest
      else [[s[0]] + rest[0]] + rest[1..]
  }

  /** sep.join(parts). */
  function Join(parts: seq<string>, sep: char): string
    requires |parts| >= 1
  {
    if |parts| == 1 then parts[0] else parts[0] + [sep] + Join(parts[1..], sep)
  }

  /** The number of occurrences of c in s. */
  function Count(s: string, c: char): nat {
    if s == [] then 0 else (if s[0] == c then 1 else 0) + Count(s[1..], c)
  }

  /** Splitting gives one more piece than there are separators. */
  lemma {:induction false} SplitCount(s: string, sep: char)
    ensures |Split(s, sep)| == Count(s, sep) + 1
  {
    if s != [] {
      SplitCount(s[1..], sep);
    }
  }

  /** Joining the pieces with the separator gives back the string. */
  lemma {:induction false} JoinSplit(s: string, sep: char)
    ensures Join(Split(s, sep), sep) == s
  {
    if s != [] {
      var rest := Split(s[1..], sep);
      JoinSplit(s[1..], sep);
      if s[0] == sep {
        assert ([""] + rest)[1..] == rest;
        assert s == [sep] + s[1..];
      } else {
        var parts := [[s[0]] + rest[0]] + rest[1..];
        assert parts[1..] == rest[1..];
        assert s == [s[0]] + s[1..];
      }
    }
  }

  /** A prefix without separators joins the first piece of what follows. */
  lemma {:induction false} SplitPrefix(p: string, t: string, sep: char)
    requires sep !in p
    ensures Split(p + t, sep) == [p + Split(t, sep)[0]] + Split(t, sep)[1..]
  {
    if p != [] {
      assert (p + t)[0] == p[0] && (p + t)[1..] == p[1..] + t;
      SplitPrefix(p[1..], t, sep);
      assert [p[0]] + (p[1..] + Split(t, sep)[0]) == p + Split(t, sep)[0];
    } else {
      assert p + t == t && p + Split(t, sep)[0] == Split(t, sep)[0];
    }
  }

  /** Splitting pieces that contain no separator, once joined, gives the
      pieces back. */
  lemma {:induction false} SplitJoin(parts: seq<string>, sep: char)
    requires |parts| >= 1 && forall k :: 0 <= k < |parts| ==> sep !in parts[k]
    ensures Split(Join(parts, sep), sep) == parts
    decreases |parts|
  {
    if |parts| == 1 {
      SplitPrefix(parts[0], "", sep);
      assert parts[0] + "" == parts[0];
    } else {
      var tail := Join(parts[1..], sep);
      SplitJoin(parts[1..], sep);
      assert Join(parts, sep) == parts[0] + ([sep] + tail);
      SplitPrefix(parts[0], [sep] + tail, sep);
      assert ([sep] + tail)[0] == sep && ([sep] + tail)[1..] == tail;
      assert Split([sep] + tail, sep) == [""] + parts[1..];
      assert parts[0] + "" == parts[0];
      assert parts == [parts[0]] + parts[1..];
    }
  }

  // Edge segments

  /** The decimal digit character for 0 <= d <= 9. */
  function DigitChar(d: int): char
    requires 0 <= d <= 9
  {
    ('0' as int + d) as char
  }

  /** (int(edge[1]), int(edge[3])) for one segment, left to right: a
      segment shorter than 2 or than 4 characters is an IndexError, a
      non-digit at position 1 or 3 a ValueError. */
  function ParseSegment(seg: string): (r: Result<Edge>)
    ensures r.Ok? <==> |seg| >= 4 && IsDigit(seg[1]) && IsDigit(seg[3])
    ensures r.Ok? ==> 0 <= r.value.u <= 9 && 0 <= r.value.v <= 9
    ensures r.Ok? ==> seg[1] == DigitChar(r.value.u) && seg[3] == DigitChar(r.value.v)
    ensures r.Err? ==> r.error == if |seg| < 2 || (IsDigit(seg[1]) && |seg| < 4) then IndexError else ValueError
  {
    if |seg| < 2 then Err(IndexError)
    else
      var u :- IntOfChar(seg[1]);
      if |seg| < 4 then Err(IndexError)
      else
        var v :- IntOfChar(seg[3]);
        Ok(Edge(u, v))
  }

  /** The edge list the loop builds from the segments, or the exception of
      the first segment that cannot be read. */
  function ParseSegments(segs: seq<string>): (r: Result<seq<Edge>>)
    ensures r.Ok? <==> forall k :: 0 <= k < |segs| ==> ParseSegment(segs[k]).Ok?
    ensures r.Ok? ==> (|r.value| == |segs| &&
      forall k :: 0 <= k < |segs| ==> ParseSegment(segs[k]) == Ok(r.value[k]))
    decreases |segs|
  {
    if segs == [] then Ok([])
    else
      var init :- ParseSegments(segs[..|segs| - 1]);
      var e :- ParseSegment(segs[|segs| - 1]);
      Ok(init + [e])
  }

  /** Once a prefix of the segments raises, the whole loop raises the same
      exception. */
  lemma {:induction false} ParseStopsAtError(segs: seq<string>, k: nat)
    requires k <= |segs| && ParseSegments(segs[..k]).Err?
    ensures ParseSegments(segs) == ParseSegments(segs[..k])
    decreases |segs|
  {
    if k < |segs| {
      var init := segs[..|segs| - 1];
      assert init[..k] == segs[..k];
      ParseStopsAtError(init, k);
    } else {
      assert segs[..k] == segs;
    }
  }

  /** The edges string parsed as the driver does: split on ';', then one
      edge per segment. */
  function ParseEdgeList(strEdges: string): (r: Result<seq<Edge>>)
    ensures r.Ok? ==> |r.value| == Count(strEdges, ';') + 1
  {
    SplitCount(strEdges, ';');
    ParseSegments(Split(strEdges, ';'))
  }

  /** The node list 0, 1, ..., nNodes - 1 (np.arange(0, nNodes, 1)). */
  function Nodes(nNodes: int): (r: seq<int>)
    ensures |r| == if nNodes > 0 then nNodes else 0
    ensures forall i, j :: 0 <= i < j < |r| ==> r[i] < r[j]
    ensures forall x :: x in r <==> 0 <= x < nNodes
  {
    if nNodes <= 0 then []
    else
      var r := seq(nNodes, i => i);
      assert forall x :: x in r <==> 0 <= x < nNodes by {
        forall x | 0 <= x < nNodes
          ensures x in r
        {
          assert r[x] == x;
        }
        forall x | x in r
          ensures 0 <= x < nNodes
        {
          var i :| 0 <= i < |r| && r[i] == x;
        }
      }
      r
  }

  /** What the driver reads before simulating: one qubit per node, the
      node list and the edge list. */
  datatype GraphInput = GraphInput(nQubits: int, nodes: seq<int>, edges: seq<Edge>)

  /** The driver's graph set-up: N_QUBITS = N_NODES, the node range, and the
      edge list built segment by segment from the edges string. */
  method ReadGraph(nNodes: int, strEdges: string) returns (r: Result<GraphInput>)
    ensures r.Ok? <==> ParseEdgeList(strEdges).Ok?
    ensures r.Err? ==> r.error == ParseEdgeList(strEdges).error
    ensures r.Ok? ==> r.value.nQubits == nNodes && r.value.nodes == Nodes(nNodes)
    ensures r.Ok? ==> r.value.edges == ParseEdgeList(strEdges).value
    ensures r.Ok? ==> |r.value.edges| == Count(strEdges, ';') + 1
  {
    var nQubits := nNodes;
    var nodes := Nodes(nNodes);
    var segments := Split(strEdges, ';');
    var edges: seq<Edge> := [];
    for k := 0 to |segments|
      invariant ParseSegments(segments[..k]) == Ok(edges)
    {
      var edge := ParseSegment(segments[k]);
      if edge.Err? {
        assert segments[..k + 1][..k] == segments[..k];
        ParseStopsAtError(segments, k + 1);
        return Err(edge.error);
      }
      assert segments[..k + 1][..k] == segments[..k];
      edges := edges + [edge.value];
    }
    assert segments[..|segments|] == segments;
    SplitCount(strEdges, ';');
    return Ok(GraphInput(nQubits, nodes, edges));
  }

  // Round trip with the configuration format

  /** An edge written as the configuration file writes it: "(u,v)". */
  function FormatEdge(e: Edge): string
    requires 0 <= e.u <= 9 && 0 <= e.v <= 9
  {
    ['(', DigitChar(e.u), ',', DigitChar(e.v), ')']
  }

  /** Edges written as "(u,v);(u,v);...". */
  function FormatEdges(edges: seq<Edge>): string
    requires |edges| >= 1 && forall e :: e in edges ==> 0 <= e.u <= 9 && 0 <= e.v <= 9
  {
    Join(seq(|edges|, k requires 0 <= k < |edges| => FormatEdge(edges[k])), ';')
  }

  /** Every non-empty list of single-digit edges, written in the
      configuration format, is parsed back to itself. */
  lemma ParseFormatRoundTrip(edges: seq<Edge>)
    requires |edges| >= 1 && forall e :: e in edges ==> 0 <= e.u <= 9 && 0 <= e.v <= 9
    ensures ParseEdgeList(FormatEdges(edges)) == Ok(edges)
  {
    var segs := seq(|edges|, k requires 0 <= k < |edges| => FormatEdge(edges[k]));
    assert forall k :: 0 <= k < |segs| ==> ';' !in segs[k];
    SplitJoin(segs, ';');
    assert forall k :: 0 <= k < |segs| ==> ParseSegment(segs[k]) == Ok(edges[k]);
    var r := ParseSegments(segs);
    assert r.Ok?;
    assert r.value == edges;
  }
}
