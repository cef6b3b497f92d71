/** The fracture face-block maps built when a fracture mesh is imported
  * (src/coreComponents/mesh/generators/VTKFaceBlockUtilities.cpp).
  *
  * An `ArrayOfArrays` is a `seq<seq<int>>` whose rows only grow by
  * `emplaceBack`, written `rows[r := rows[r] + [v]]`. What the mesh library
  * extracts (cells, edges, global ids) is given as input. */
module FaceBlockUtilities {
  import opened Wrappers

  /** The rows of `rows` can all be indexed by `s`'s entries. */
  predicate EntriesBelow(table: seq<seq<int>>, m: int) {
    forall f, j | 0 <= f < |table| && 0 <= j < |table[f]| :: 0 <= table[f][j] < m
  }

  predicate NonDecreasing(s: seq<int>) {
    forall i, j | 0 <= i < j < |s| :: s[i] <= s[j]
  }

  predicate StrictlyIncreasing(s: seq<int>) {
    forall i, j | 0 <= i < j < |s| :: s[i] < s[j]
  }

  // ---------------------------------------------------------------------
  // Collocated nodes
  // ---------------------------------------------------------------------

  /** The valid (`> -1`) ids of one tuple, in component order. */
  function ValidIds(tuple: seq<int>): seq<int> {
    if |tuple| == 0 then []
    else ValidIds(tuple[..|tuple| - 1]) + (if tuple[|tuple| - 1] > -1 then [tuple[|tuple| - 1]] else [])
  }

  /** `ValidIds` keeps exactly the valid ids, never adding one. */
  lemma {:induction false} ValidIdsMeaning(tuple: seq<int>)
    ensures forall x :: x in ValidIds(tuple) <==> x in tuple && x > -1
    ensures |ValidIds(tuple)| <= |tuple|
  {
    if |tuple| > 0 {
      ValidIdsMeaning(tuple[..|tuple| - 1]);
      assert tuple == tuple[..|tuple| - 1] + [tuple[|tuple| - 1]];
    }
  }

  /** `CollocatedNodes::init`: each tuple of the collocated-nodes array
    * becomes the list of its valid components. */
  method CollocatedNodesInit(tuples: seq<seq<int>>) returns (collocated: seq<seq<int>>)
    ensures |collocated| == |tuples|
    ensures forall i | 0 <= i < |tuples| :: collocated[i] == ValidIds(tuples[i])
  {
    collocated := seq(|tuples|, _ => []);
    var i := 0;
    while i < |tuples|
      invariant 0 <= i <= |tuples|
      invariant |collocated| == |tuples|
      invariant forall t | 0 <= t < i :: collocated[t] == ValidIds(tuples[t])
      invariant forall t | i <= t < |tuples| :: collocated[t] == []
    {
      var j := 0;
      while j < |tuples[i]|
        invariant 0 <= j <= |tuples[i]|
        invariant |collocated| == |tuples|
        invariant collocated[i] == ValidIds(tuples[i][..j])
        invariant forall t | 0 <= t < i :: collocated[t] == ValidIds(tuples[t])
        invariant forall t | i < t < |tuples| :: collocated[t] == []
      {
        assert tuples[i][..j + 1][..j] == tuples[i][..j];
        var tmp := tuples[i][j];
        if tmp > -1 {
          collocated := collocated[i := collocated[i] + [tmp]];
        }
        j := j + 1;
      }
      assert tuples[i][..j] == tuples[i];
      i := i + 1;
    }
  }

  /** `buildCollocatedNodesMap`: row `i` receives the collocated nodes of
    * face-block node `i`, in order. */
  method BuildCollocatedNodesMap(dn: seq<seq<int>>) returns (result: seq<seq<int>>)
    ensures |result| == |dn|
    ensures forall i | 0 <= i < |dn| :: result[i] == dn[i]
  {
    result := seq(|dn|, _ => []);
    var i := 0;
    while i < |dn|
      invariant 0 <= i <= |dn|
      invariant |result| == |dn|
      invariant forall t | 0 <= t < i :: result[t] == dn[t]
      invariant forall t | i <= t < |dn| :: result[t] == []
    {
      var j := 0;
      while j < |dn[i]|
        invariant 0 <= j <= |dn[i]|
        invariant |result| == |dn|
        invariant result[i] == dn[i][..j]
        invariant forall t | 0 <= t < i :: result[t] == dn[t]
        invariant forall t | i < t < |dn| :: result[t] == []
      {
        assert dn[i][..j + 1] == dn[i][..j] + [dn[i][j]];
        result := result[i := result[i] + [dn[i][j]]];
        j := j + 1;
      }
      assert dn[i][..j] == dn[i];
      i := i + 1;
    }
  }

  /** The collocated nodes of a list of face-block nodes, concatenated in
    * node order. */
  function CollocatedOfNodes(nodes: seq<int>, table: seq<seq<int>>): seq<int>
    requires forall k | 0 <= k < |nodes| :: 0 <= nodes[k] < |table|
  {
    if |nodes| == 0 then []
    else CollocatedOfNodes(nodes[..|nodes| - 1], table) + table[nodes[|nodes| - 1]]
  }

  /** A node is in the bucket of an element exactly when it is collocated
    * with one of the element's nodes. */
  lemma {:induction false} CollocatedOfNodesMeaning(nodes: seq<int>, table: seq<seq<int>>)
    requires forall k | 0 <= k < |nodes| :: 0 <= nodes[k] < |table|
    ensures forall x :: x in CollocatedOfNodes(nodes, table) <==>
      exists k | 0 <= k < |nodes| :: x in table[nodes[k]]
  {
    if |nodes| > 0 {
      var n := |nodes| - 1;
      var prefix := nodes[..n];
      CollocatedOfNodesMeaning(prefix, table);
      var before := CollocatedOfNodes(prefix, table);
      assert CollocatedOfNodes(nodes, table) == before + table[nodes[n]];
      forall x
        ensures x in CollocatedOfNodes(nodes, table) <==> exists k | 0 <= k < |nodes| :: x in table[nodes[k]]
      {
        if x in before {
          var k :| 0 <= k < n && x in table[prefix[k]];
          assert prefix[k] == nodes[k];
        } else if x !in table[nodes[n]] {
          forall k | 0 <= k < |nodes|
            ensures x !in table[nodes[k]]
          {
            if k < n {
              assert prefix[k] == nodes[k];
            }
          }
        }
      }
    }
  }

  /** `buildCollocatedNodesOf2dElemsMap`: row `e` is the concatenation of
    * the collocated lists of `e`'s nodes. */
  method BuildCollocatedNodesOf2dElemsMap(elem2dTo2dNodes: seq<seq<int>>, nodes2dToCollocatedNodes: seq<seq<int>>)
    returns (result: seq<seq<int>>)
    requires EntriesBelow(elem2dTo2dNodes, |nodes2dToCollocatedNodes|)
    ensures |result| == |elem2dTo2dNodes|
    ensures forall e | 0 <= e < |elem2dTo2dNodes| ::
      result[e] == CollocatedOfNodes(elem2dTo2dNodes[e], nodes2dToCollocatedNodes)
  {
    var table := nodes2dToCollocatedNodes;
    result := seq(|elem2dTo2dNodes|, _ => []);
    var e := 0;
    while e < |elem2dTo2dNodes|
      invariant 0 <= e <= |elem2dTo2dNodes|
      invariant |result| == |elem2dTo2dNodes|
      invariant forall t | 0 <= t < e :: result[t] == CollocatedOfNodes(elem2dTo2dNodes[t], table)
      invariant forall t | e <= t < |elem2dTo2dNodes| :: result[t] == []
    {
      var nodes := elem2dTo2dNodes[e];
      var a := 0;
      while a < |nodes|
        invariant 0 <= a <= |nodes|
        invariant |result| == |elem2dTo2dNodes|
        invariant result[e] == CollocatedOfNodes(nodes[..a], table)
        invariant forall t | 0 <= t < e :: result[t] == CollocatedOfNodes(elem2dTo2dNodes[t], table)
        invariant forall t | e < t < |elem2dTo2dNodes| :: result[t] == []
      {
        assert nodes[..a + 1][..a] == nodes[..a];
        var collocated := table[nodes[a]];
        var c := 0;
        while c < |collocated|
          invariant 0 <= c <= |collocated|
          invariant |result| == |elem2dTo2dNodes|
          invariant result[e] == CollocatedOfNodes(nodes[..a], table) + collocated[..c]
          invariant forall t | 0 <= t < e :: result[t] == CollocatedOfNodes(elem2dTo2dNodes[t], table)
          invariant forall t | e < t < |elem2dTo2dNodes| :: result[t] == []
        {
          assert collocated[..c + 1] == collocated[..c] + [collocated[c]];
          result := result[e := result[e] + [collocated[c]]];
          c := c + 1;
        }
        assert collocated[..c] == collocated;
        a := a + 1;
      }
      assert nodes[..a] == nodes;
      e := e + 1;
    }
  }

  // ---------------------------------------------------------------------
  // Inversion of a mapping
  // ---------------------------------------------------------------------

  function Count(s: seq<int>, x: int): nat {
    if |s| == 0 then 0 else Count(s[..|s| - 1], x) + (if s[|s| - 1] == x then 1 else 0)
  }

  lemma {:induction false} CountPositiveIffMember(s: seq<int>, x: int)
    ensures Count(s, x) > 0 <==> x in s
  {
    if |s| > 0 {
      CountPositiveIffMember(s[..|s| - 1], x);
      assert s == s[..|s| - 1] + [s[|s| - 1]];
    }
  }

  /** Row `e` of the inverse of the first `n` rows of `table`: each row index
    * `f < n` appears once per occurrence of `e` in `table[f]`, in
    * increasing order of `f`. */
  function InverseRow(table: seq<seq<int>>, e: int, n: nat): seq<int>
    requires n <= |table|
  {
    if n == 0 then [] else InverseRow(table, e, n - 1) + seq(Count(table[n - 1], e), _ => n - 1)
  }

  /** `f` is in row `e` of the inverse exactly when `e` is in row `f` of the
    * table, and the inverse rows are listed in increasing order. */
  lemma {:induction false} InverseRowMeaning(table: seq<seq<int>>, e: int, n: nat)
    requires n <= |table|
    ensures forall f :: f in InverseRow(table, e, n) <==> 0 <= f < n && e in table[f]
    ensures NonDecreasing(InverseRow(table, e, n))
    ensures forall i | 0 <= i < |InverseRow(table, e, n)| :: 0 <= InverseRow(table, e, n)[i] < n
  {
    if n > 0 {
      InverseRowMeaning(table, e, n - 1);
      CountPositiveIffMember(table[n - 1], e);
      var tail := seq(Count(table[n - 1], e), _ => n - 1);
      if |tail| > 0 {
        assert tail[0] == n - 1;
      }
      assert forall f :: f in tail <==> e in table[n - 1] && f == n - 1;
    }
  }

  /** When no row of the table repeats an entry, each row of its inverse
    * lists distinct rows. */
  lemma {:induction false} InverseRowStrictlyIncreasing(table: seq<seq<int>>, e: int, n: nat)
    requires n <= |table|
    requires forall f | 0 <= f < |table| :: Count(table[f], e) <= 1
    ensures StrictlyIncreasing(InverseRow(table, e, n))
  {
    if n > 0 {
      InverseRowStrictlyIncreasing(table, e, n - 1);
      InverseRowMeaning(table, e, n - 1);
    }
  }

  /** The loop shared by `buildFace2dToElems2d` and `buildElem2dToFace2d`:
    * for every row `f` of `table`, in order, and every entry `e` of that row,
    * `emplaceBack(e, f)` into an `ArrayOfArrays` of `numRows` empty rows. */
  method EmplaceInverse(table: seq<seq<int>>, numRows: nat) returns (rows: seq<seq<int>>)
    requires EntriesBelow(table, numRows)
    ensures |rows| == numRows
    ensures forall e | 0 <= e < numRows :: rows[e] == InverseRow(table, e, |table|)
  {
    rows := seq(numRows, _ => []);
    var f := 0;
    while f < |table|
      invariant 0 <= f <= |table|
      invariant |rows| == numRows
      invariant forall e | 0 <= e < numRows :: rows[e] == InverseRow(table, e, f)
    {
      var j := 0;
      while j < |table[f]|
        invariant 0 <= j <= |table[f]|
        invariant |rows| == numRows
        invariant forall e | 0 <= e < numRows :: rows[e] == InverseRow(table, e, f) + seq(Count(table[f][..j], e), _ => f)
      {
        assert table[f][..j + 1][..j] == table[f][..j];
        var e0 := table[f][j];
        rows := rows[e0 := rows[e0] + [f]];
        forall e | 0 <= e < numRows
          ensures rows[e] == InverseRow(table, e, f) + seq(Count(table[f][..j + 1], e), _ => f)
        {
          if e == e0 {
            assert seq(Count(table[f][..j + 1], e), _ => f) == seq(Count(table[f][..j], e), _ => f) + [f];
          }
        }
        j := j + 1;
      }
      assert table[f][..j] == table[f];
      f := f + 1;
    }
  }

  /** `buildElem2dToFace2d`: the inverse of the 2d face to 2d elements
    * map. */
  method BuildElem2dToFace2d(num2dElements: nat, face2dToElems2d: seq<seq<int>>) returns (elem2dToFace2d: seq<seq<int>>)
    requires EntriesBelow(face2dToElems2d, num2dElements)
    ensures |elem2dToFace2d| == num2dElements
    ensures forall e | 0 <= e < num2dElements :: elem2dToFace2d[e] == InverseRow(face2dToElems2d, e, |face2dToElems2d|)
  {
    elem2dToFace2d := EmplaceInverse(face2dToElems2d, num2dElements);
  }

  // ---------------------------------------------------------------------
  // 2d faces (edges of the fracture mesh)
  // ---------------------------------------------------------------------

  /** An edge by its two point ids. */
  datatype Edge = Edge(p0: int, p1: int)

  /** `std::minmax` of the two point ids. */
  function EdgeKey(e: Edge): (k: (int, int))
    ensures k.0 <= k.1
    ensures (k.0 == e.p0 && k.1 == e.p1) || (k.0 == e.p1 && k.1 == e.p0)
  {
    if e.p0 <= e.p1 then (e.p0, e.p1) else (e.p1, e.p0)
  }

  /** The key does not depend on the order of the endpoints, and two edges
    * share a key exactly when they have the same endpoints. */
  lemma EdgeKeyIgnoresOrder(a: Edge, b: Edge)
    ensures EdgeKey(Edge(a.p1, a.p0)) == EdgeKey(a)
    ensures EdgeKey(a) == EdgeKey(b) <==> (a.p0 == b.p0 && a.p1 == b.p1) || (a.p0 == b.p1 && a.p1 == b.p0)
  {
  }

  /** The map `face2dIds` after its first `n` insertions: a later edge with
    * the same key overwrites an earlier one. */
  function EdgeIds(edges: seq<Edge>, n: nat): map<(int, int), int>
    requires n <= |edges|
  {
    if n == 0 then map[] else EdgeIds(edges, n - 1)[EdgeKey(edges[n - 1]) := n - 1]
  }

  /** A key is in the map exactly when one of the edges has it, and it maps
    * to the last such edge. */
  lemma {:induction false} EdgeIdsMeaning(edges: seq<Edge>, n: nat)
    requires n <= |edges|
    ensures forall k :: k in EdgeIds(edges, n) <==> exists i | 0 <= i < n :: EdgeKey(edges[i]) == k
    ensures forall k | k in EdgeIds(edges, n) ::
      0 <= EdgeIds(edges, n)[k] < n && EdgeKey(edges[EdgeIds(edges, n)[k]]) == k &&
      forall i | EdgeIds(edges, n)[k] < i < n :: EdgeKey(edges[i]) != k
  {
    if n > 0 {
      EdgeIdsMeaning(edges, n - 1);
    }
  }

  /** The first loop of `buildFace2dToElems2d`. */
  method BuildEdgeIds(edges: seq<Edge>) returns (face2dIds: map<(int, int), int>)
    ensures face2dIds == EdgeIds(edges, |edges|)
  {
    face2dIds := map[];
    var i := 0;
    while i < |edges|
      invariant 0 <= i <= |edges|
      invariant face2dIds == EdgeIds(edges, i)
    {
      face2dIds := face2dIds[EdgeKey(edges[i]) := i];
      i := i + 1;
    }
  }

  /** Every edge of every cell has a known key (else `at` throws). */
  predicate AllEdgesKnown(ids: map<(int, int), int>, cellEdges: seq<seq<Edge>>) {
    forall i, j | 0 <= i < |cellEdges| && 0 <= j < |cellEdges[i]| :: EdgeKey(cellEdges[i][j]) in ids
  }

  /** The 2d face id of each edge of each cell. */
  function FaceIdsOfCells(ids: map<(int, int), int>, cellEdges: seq<seq<Edge>>): (t: seq<seq<int>>)
    requires AllEdgesKnown(ids, cellEdges)
    ensures |t| == |cellEdges|
    ensures forall i | 0 <= i < |cellEdges| :: |t[i]| == |cellEdges[i]|
  {
    seq(|cellEdges|, i requires 0 <= i < |cellEdges| =>
      seq(|cellEdges[i]|, j requires 0 <= j < |cellEdges[i]| => ids[EdgeKey(cellEdges[i][j])]))
  }

  /** `buildFace2dToElems2d`: `edges` are the edges of the fracture mesh and
    * `cellEdges[i]` the edges of its cell `i`. Row `f` lists the cells one
    * of whose edges has the key of edge `f` (as `face2dIds` resolves it).
    * `None` when a cell edge is not among the edges, where `at` throws. */
  method BuildFace2dToElems2d(edges: seq<Edge>, cellEdges: seq<seq<Edge>>) returns (r: Option<seq<seq<int>>>)
    ensures r.None? <==> !AllEdgesKnown(EdgeIds(edges, |edges|), cellEdges)
    ensures r.Some? ==> |r.value| == |edges|
    ensures r.Some? ==> forall f | 0 <= f < |edges| ::
      r.value[f] == InverseRow(FaceIdsOfCells(EdgeIds(edges, |edges|), cellEdges), f, |cellEdges|)
  {
    var face2dIds := BuildEdgeIds(edges);
    EdgeIdsMeaning(edges, |edges|);
    var table: seq<seq<int>> := [];
    var i := 0;
    while i < |cellEdges|
      invariant 0 <= i <= |cellEdges|
      invariant |table| == i
      invariant AllEdgesKnown(face2dIds, cellEdges[..i])
      invariant forall t | 0 <= t < i :: table[t] == FaceIdsOfCells(face2dIds, cellEdges[..i])[t]
    {
      var row: seq<int> := [];
      var j := 0;
      while j < |cellEdges[i]|
        invariant 0 <= j <= |cellEdges[i]|
        invariant |row| == j
        invariant forall t | 0 <= t < j :: EdgeKey(cellEdges[i][t]) in face2dIds && row[t] == face2dIds[EdgeKey(cellEdges[i][t])]
      {
        var key := EdgeKey(cellEdges[i][j]);
        if key !in face2dIds {
          assert !AllEdgesKnown(face2dIds, cellEdges);
          return None;
        }
        row := row + [face2dIds[key]];
        j := j + 1;
      }
      assert cellEdges[..i + 1][..i] == cellEdges[..i];
      table := table + [row];
      i := i + 1;
    }
    assert cellEdges[..i] == cellEdges;
    assert table == FaceIdsOfCells(face2dIds, cellEdges);
    var rows := EmplaceInverse(table, |edges|);
    r := Some(rows);
  }

  /** Each cell listed for a 2d face has an edge with the endpoints of that
    * face, taken in either order; the cells are listed in increasing order. */
  lemma Face2dToElems2dMeaning(edges: seq<Edge>, cellEdges: seq<seq<Edge>>, f: nat)
    requires AllEdgesKnown(EdgeIds(edges, |edges|), cellEdges)
    requires f < |edges|
    ensures forall i | i in InverseRow(FaceIdsOfCells(EdgeIds(edges, |edges|), cellEdges), f, |cellEdges|) ::
      0 <= i < |cellEdges| && exists j | 0 <= j < |cellEdges[i]| :: EdgeKey(cellEdges[i][j]) == EdgeKey(edges[f])
    ensures NonDecreasing(InverseRow(FaceIdsOfCells(EdgeIds(edges, |edges|), cellEdges), f, |cellEdges|))
  {
    var ids := EdgeIds(edges, |edges|);
    var table := FaceIdsOfCells(ids, cellEdges);
    InverseRowMeaning(table, f, |cellEdges|);
    EdgeIdsMeaning(edges, |edges|);
    forall i | i in InverseRow(table, f, |cellEdges|)
      ensures 0 <= i < |cellEdges| && exists j | 0 <= j < |cellEdges[i]| :: EdgeKey(cellEdges[i][j]) == EdgeKey(edges[f])
    {
      assert f in table[i];
      var j :| 0 <= j < |table[i]| && table[i][j] == f;
      assert EdgeKey(cellEdges[i][j]) == EdgeKey(edges[f]);
    }
  }

  // ---------------------------------------------------------------------
  // 2d elements to edges and to nodes
  // ---------------------------------------------------------------------

  /** `buildElem2dToEdges`: row `e` is `face2dToEdge` mapped over row `e` of
    * the 2d element to 2d face map; rows past the input stay empty. */
  method BuildElem2dToEdges(num2dElements: nat, face2dToEdge: seq<int>, elem2dToFace2d: seq<seq<int>>)
    returns (elem2dToEdges: seq<seq<int>>)
    requires |elem2dToFace2d| <= num2dElements
    requires EntriesBelow(elem2dToFace2d, |face2dToEdge|)
    ensures |elem2dToEdges| == num2dElements
    ensures forall e | 0 <= e < |elem2dToFace2d| ::
      |elem2dToEdges[e]| == |elem2dToFace2d[e]| &&
      forall k | 0 <= k < |elem2dToFace2d[e]| :: elem2dToEdges[e][k] == face2dToEdge[elem2dToFace2d[e][k]]
    ensures forall e | |elem2dToFace2d| <= e < num2dElements :: elem2dToEdges[e] == []
  {
    elem2dToEdges := seq(num2dElements, _ => []);
    var e := 0;
    while e < |elem2dToFace2d|
      invariant 0 <= e <= |elem2dToFace2d|
      invariant |elem2dToEdges| == num2dElements
      invariant forall t | 0 <= t < e ::
        |elem2dToEdges[t]| == |elem2dToFace2d[t]| &&
        forall k | 0 <= k < |elem2dToFace2d[t]| :: elem2dToEdges[t][k] == face2dToEdge[elem2dToFace2d[t][k]]
      invariant forall t | e <= t < num2dElements :: elem2dToEdges[t] == []
    {
      var k := 0;
      while k < |elem2dToFace2d[e]|
        invariant 0 <= k <= |elem2dToFace2d[e]|
        invariant |elem2dToEdges| == num2dElements
        invariant |elem2dToEdges[e]| == k
        invariant forall m | 0 <= m < k :: elem2dToEdges[e][m] == face2dToEdge[elem2dToFace2d[e][m]]
        invariant forall t | 0 <= t < e ::
          |elem2dToEdges[t]| == |elem2dToFace2d[t]| &&
          forall m | 0 <= m < |elem2dToFace2d[t]| :: elem2dToEdges[t][m] == face2dToEdge[elem2dToFace2d[t][m]]
        invariant forall t | e < t < num2dElements :: elem2dToEdges[t] == []
      {
        elem2dToEdges := elem2dToEdges[e := elem2dToEdges[e] + [face2dToEdge[elem2dToFace2d[e][k]]]];
        k := k + 1;
      }
      e := e + 1;
    }
  }

  /** `std::set::insert` into the sorted contents of a set. */
  function InsertSorted(t: seq<int>, x: int): seq<int> {
    if |t| == 0 then [x]
    else if x < t[0] then [x] + t
    else if x == t[0] then t
    else [t[0]] + InsertSorted(t[1..], x)
  }

  /** A value below every entry of an increasing list can lead it. */
  lemma LeadIncreasing(a: int, r: seq<int>)
    requires StrictlyIncreasing(r) && forall y | y in r :: a < y
    ensures StrictlyIncreasing([a] + r)
  {
    var s := [a] + r;
    forall i, j | 0 <= i < j < |s| ensures s[i] < s[j] {
      assert s[j] == r[j - 1] && r[j - 1] in r;
      if i > 0 {
        assert s[i] == r[i - 1];
      }
    }
  }

  lemma {:induction false} InsertSortedMeaning(t: seq<int>, x: int)
    requires StrictlyIncreasing(t)
    ensures StrictlyIncreasing(InsertSorted(t, x))
    ensures forall y :: y in InsertSorted(t, x) <==> y in t || y == x
  {
    if |t| > 0 && x < t[0] {
      LeadIncreasing(x, t);
    } else if |t| > 0 && x > t[0] {
      var rest := t[1..];
      assert t == [t[0]] + rest;
      assert StrictlyIncreasing(rest) by {
        forall i, j | 0 <= i < j < |rest| ensures rest[i] < rest[j] {
          assert rest[i] == t[i + 1] && rest[j] == t[j + 1];
        }
      }
      InsertSortedMeaning(rest, x);
      var r := InsertSorted(rest, x);
      forall y | y in r ensures t[0] < y {
        if y != x {
          var i :| 0 <= i < |rest| && rest[i] == y;
          assert t[i + 1] == y;
        }
      }
      LeadIncreasing(t[0], r);
      assert InsertSorted(t, x) == [t[0]] + r;
    }
  }

  /** The contents of the `std::set` filled with the entries of `s`, in
    * the set's increasing order. */
  function SortedUnique(s: seq<int>): seq<int> {
    if |s| == 0 then [] else InsertSorted(SortedUnique(s[..|s| - 1]), s[|s| - 1])
  }

  /** The set's contents are the distinct entries of `s`, increasing. */
  lemma {:induction false} SortedUniqueMeaning(s: seq<int>)
    ensures StrictlyIncreasing(SortedUnique(s))
    ensures forall y :: y in SortedUnique(s) <==> y in s
  {
    if |s| > 0 {
      SortedUniqueMeaning(s[..|s| - 1]);
      InsertSortedMeaning(SortedUnique(s[..|s| - 1]), s[|s| - 1]);
      assert s == s[..|s| - 1] + [s[|s| - 1]];
    }
  }

  /** Every non-negative face of a 2d element can be looked up. */
  predicate FacesKnown(faces: seq<int>, numFaces: int) {
    forall k | 0 <= k < |faces| :: faces[k] < numFaces
  }

  /** The nodes of a 2d element's faces: negative faces are skipped and
    * each other face contributes its distinct nodes in increasing order. */
  function NodesOfFaces(faces: seq<int>, faceToNodes: seq<seq<int>>): seq<int>
    requires FacesKnown(faces, |faceToNodes|)
  {
    if |faces| == 0 then []
    else
      var f := faces[|faces| - 1];
      NodesOfFaces(faces[..|faces| - 1], faceToNodes) + (if f < 0 then [] else SortedUnique(faceToNodes[f]))
  }

  /** A node is listed for a 2d element exactly when it is a node of one of
    * the element's non-negative faces. */
  lemma {:induction false} NodesOfFacesMeaning(faces: seq<int>, faceToNodes: seq<seq<int>>)
    requires FacesKnown(faces, |faceToNodes|)
    ensures forall x :: x in NodesOfFaces(faces, faceToNodes) <==>
      exists k | 0 <= k < |faces| :: faces[k] >= 0 && x in faceToNodes[faces[k]]
  {
    if |faces| > 0 {
      var n := |faces| - 1;
      var f := faces[n];
      NodesOfFacesMeaning(faces[..n], faceToNodes);
      var prev := NodesOfFaces(faces[..n], faceToNodes);
      var last := if f < 0 then [] else SortedUnique(faceToNodes[f]);
      assert NodesOfFaces(faces, faceToNodes) == prev + last;
      assert forall x | x in last :: f >= 0 && x in faceToNodes[f] by {
        if f >= 0 {
          SortedUniqueMeaning(faceToNodes[f]);
        }
      }
      assert f >= 0 ==> forall x | x in faceToNodes[f] :: x in last by {
        if f >= 0 {
          SortedUniqueMeaning(faceToNodes[f]);
        }
      }
      forall x | x in prev + last
        ensures exists k | 0 <= k < |faces| :: faces[k] >= 0 && x in faceToNodes[faces[k]]
      {
        if x in prev {
          var k :| 0 <= k < n && faces[..n][k] >= 0 && x in faceToNodes[faces[..n][k]];
          assert faces[..n][k] == faces[k];
        } else {
          assert faces[n] >= 0 && x in faceToNodes[faces[n]];
        }
      }
      forall x | exists k | 0 <= k < |faces| :: faces[k] >= 0 && x in faceToNodes[faces[k]]
        ensures x in prev + last
      {
        var k :| 0 <= k < |faces| && faces[k] >= 0 && x in faceToNodes[faces[k]];
        if k < n {
          assert faces[..n][k] == faces[k];
          assert x in prev;
        } else {
          assert x in last;
        }
      }
    }
  }

  /** `buildElem2dToNodes`. */
  method BuildElem2dToNodes(num2dElements: nat, faceToNodes: seq<seq<int>>, elem2dToFaces: seq<seq<int>>)
    returns (elem2dToNodes: seq<seq<int>>)
    requires |elem2dToFaces| <= num2dElements
    requires forall e | 0 <= e < |elem2dToFaces| :: FacesKnown(elem2dToFaces[e], |faceToNodes|)
    ensures |elem2dToNodes| == num2dElements
    ensures forall e | 0 <= e < |elem2dToFaces| :: elem2dToNodes[e] == NodesOfFaces(elem2dToFaces[e], faceToNodes)
    ensures forall e | |elem2dToFaces| <= e < num2dElements :: elem2dToNodes[e] == []
  {
    elem2dToNodes := seq(num2dElements, _ => []);
    var e := 0;
    while e < |elem2dToFaces|
      invariant 0 <= e <= |elem2dToFaces|
      invariant |elem2dToNodes| == num2dElements
      invariant forall t | 0 <= t < e :: elem2dToNodes[t] == NodesOfFaces(elem2dToFaces[t], faceToNodes)
      invariant forall t | e <= t < num2dElements :: elem2dToNodes[t] == []
    {
      var row := ElementNodes(elem2dToFaces[e], faceToNodes, elem2dToNodes[e]);
      elem2dToNodes := elem2dToNodes[e := row];
      e := e + 1;
    }
  }

  /** The face loop of `buildElem2dToNodes` for one 2d element: the nodes of
    * each non-negative face are appended to the element's (empty) row. */
  method ElementNodes(faces: seq<int>, faceToNodes: seq<seq<int>>, row0: seq<int>) returns (row: seq<int>)
    requires FacesKnown(faces, |faceToNodes|)
    requires row0 == []
    ensures row == NodesOfFaces(faces, faceToNodes)
  {
    row := row0;
    var k := 0;
    while k < |faces|
      invariant 0 <= k <= |faces|
      invariant row == NodesOfFaces(faces[..k], faceToNodes)
    {
      assert faces[..k + 1][..k] == faces[..k];
      var faceIndex := faces[k];
      if faceIndex >= 0 {
        var tmp := SortedNodeSet(faceToNodes[faceIndex]);
        row := AppendNodes(row, tmp);
      }
      k := k + 1;
    }
    assert faces[..k] == faces;
  }

  /** The `std::set` of one face's nodes, iterated in increasing order. */
  method SortedNodeSet(nodes: seq<int>) returns (tmp: seq<int>)
    ensures tmp == SortedUnique(nodes)
  {
    tmp := [];
    var j := 0;
    while j < |nodes|
      invariant 0 <= j <= |nodes|
      invariant tmp == SortedUnique(nodes[..j])
    {
      assert nodes[..j + 1][..j] == nodes[..j];
      tmp := InsertSorted(tmp, nodes[j]);
      j := j + 1;
    }
    assert nodes[..j] == nodes;
  }

  /** `emplaceBack` of each node of `tmp`, in order. */
  method AppendNodes(row0: seq<int>, tmp: seq<int>) returns (row: seq<int>)
    ensures row == row0 + tmp
  {
    row := row0;
    var m := 0;
    while m < |tmp|
      invariant 0 <= m <= |tmp|
      invariant row == row0 + tmp[..m]
    {
      assert tmp[..m + 1] == tmp[..m] + [tmp[m]];
      row := row + [tmp[m]];
      m := m + 1;
    }
    assert tmp[..m] == tmp;
  }

  // ---------------------------------------------------------------------
  // Local to global ids of the 2d elements
  // ---------------------------------------------------------------------

  function Max(a: int, b: int): int { if a < b then b else a }

  /** The largest value of `ids`, `-1` when there is none. */
  function MaxValue(ids: seq<int>): (m: int)
    ensures forall i | 0 <= i < |ids| :: ids[i] <= m
    ensures |ids| > 0 ==> m in ids
  {
    if |ids| == 0 then -1
    else if |ids| == 1 then ids[0]
    else
      assert ids == ids[..|ids| - 1] + [ids[|ids| - 1]];
      Max(MaxValue(ids[..|ids| - 1]), ids[|ids| - 1])
  }

  /** `vtkDataArray::GetMaxId`: the index of the last value, not the largest
    * value. */
  function GetMaxId(ids: seq<int>): int {
    |ids| - 1
  }

  /** `MpiWrapper::max` over the ranks of a per-rank value. */
  function MaxOverRanks(values: seq<int>): (m: int)
    requires |values| > 0
    ensures forall r | 0 <= r < |values| :: values[r] <= m
  {
    if |values| == 1 then values[0] else Max(MaxOverRanks(values[..|values| - 1]), values[|values| - 1])
  }

  /** The offset of `buildLocalToGlobal` as written: one more than the
    * largest `GetMaxId()` over the ranks' 3d cell global ids. */
  function CellGlobalOffsetAsWritten(rankCellIds: seq<seq<int>>): int
    requires |rankCellIds| > 0
  {
    MaxOverRanks(seq(|rankCellIds|, r requires 0 <= r < |rankCellIds| => GetMaxId(rankCellIds[r]))) + 1
  }

  /** As written, the shifted id of a 2d element can equal a 3d cell's id:
    * one rank whose 3d cells have the global ids 0 and 7 gives the offset 2,
    * and the 2d element of global id 5 becomes 7. */
  lemma AsWrittenOffsetCollides()
    ensures CellGlobalOffsetAsWritten([[0, 7]]) == 2
    ensures 5 + CellGlobalOffsetAsWritten([[0, 7]]) in [0, 7]
  {
    assert seq(1, r requires 0 <= r < 1 => GetMaxId([[0, 7]][r])) == [1];
  }

  /** The offset as evidently intended: one more than the largest 3d cell
    * global id over the ranks. */
  function CellGlobalOffset(rankCellIds: seq<seq<int>>): int
    requires |rankCellIds| > 0
  {
    MaxOverRanks(seq(|rankCellIds|, r requires 0 <= r < |rankCellIds| => MaxValue(rankCellIds[r]))) + 1
  }

  /** With the intended offset, every shifted id of a 2d element with a
    * non-negative global id exceeds every 3d cell global id on every rank. */
  lemma ShiftedIdsExceedCellIds(rankCellIds: seq<seq<int>>, faceId: int, r: nat, i: nat)
    requires |rankCellIds| > 0 && faceId >= 0
    requires r < |rankCellIds| && i < |rankCellIds[r]|
    ensures faceId + CellGlobalOffset(rankCellIds) > rankCellIds[r][i]
  {
    var maxima := seq(|rankCellIds|, q requires 0 <= q < |rankCellIds| => MaxValue(rankCellIds[q]));
    assert maxima[r] == MaxValue(rankCellIds[r]);
  }

  /** `buildLocalToGlobal` with the intended offset: each 2d element's vtk
    * global id shifted past every 3d cell id. */
  method BuildLocalToGlobal(faceCellIds: seq<int>, rankCellIds: seq<seq<int>>) returns (l2g: seq<int>)
    requires |rankCellIds| > 0
    ensures |l2g| == |faceCellIds|
    ensures forall i | 0 <= i < |faceCellIds| :: l2g[i] == faceCellIds[i] + CellGlobalOffset(rankCellIds)
  {
    var cellGlobalOffset := CellGlobalOffset(rankCellIds);
    l2g := seq(|faceCellIds|, _ => 0);
    var i := 0;
    while i < |l2g|
      invariant 0 <= i <= |l2g| == |faceCellIds|
      invariant forall t | 0 <= t < i :: l2g[t] == faceCellIds[t] + cellGlobalOffset
    {
      l2g := l2g[i := faceCellIds[i] + cellGlobalOffset];
      i := i + 1;
    }
  }

  /** Distinct 2d element ids stay distinct after the shift. */
  lemma LocalToGlobalKeepsIdsDistinct(faceCellIds: seq<int>, rankCellIds: seq<seq<int>>, l2g: seq<int>)
    requires |rankCellIds| > 0
    requires |l2g| == |faceCellIds|
    requires forall i | 0 <= i < |faceCellIds| :: l2g[i] == faceCellIds[i] + CellGlobalOffset(rankCellIds)
    ensures forall i, j | 0 <= i < |l2g| && 0 <= j < |l2g| :: l2g[i] == l2g[j] <==> faceCellIds[i] == faceCellIds[j]
  {
  }
}
