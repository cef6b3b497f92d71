/** The fracture splitter of the mesh doctor
  * (src/coreComponents/python/modules/geosx_mesh_doctor/checks/generate_fractures_2.py):
  * it finds the faces between cells of two different field values, duplicates
  * the nodes of those faces once per connected group of cells around them,
  * rewrites the cells with the new node numbers and builds the fracture mesh
  * with its `collocated_nodes` table. VTK accessors, `networkx` and `numpy`
  * are replaced by their results, given as sequences and maps. */
module FractureSplit {
  import opened Wrappers
  import FaceBlockUtilities

  // ---------------------------------------------------------------------
  // NewIndex (lines 182-198)
  // ---------------------------------------------------------------------

  /** How many of `calls` are on an index that already occurred earlier. */
  function Repeats(calls: seq<int>): nat {
    if |calls| == 0 then 0
    else Repeats(calls[..|calls| - 1]) + (if calls[|calls| - 1] in calls[..|calls| - 1] then 1 else 0)
  }

  /** The values returned by the successive calls `calls` of one
    * `NewIndex(numNodes)` object. */
  function NewIndexOutputs(numNodes: int, calls: seq<int>): (r: seq<int>)
    ensures |r| == |calls|
  {
    if |calls| == 0 then []
    else
      var prev := calls[..|calls| - 1];
      var last := calls[|calls| - 1];
      NewIndexOutputs(numNodes, prev) + [if last in prev then numNodes + Repeats(prev) else last]
  }

  /** `NewIndex`: hands out an index for a node, the node itself the first
    * time and a fresh one after the last handed out on every later call. */
  class NewIndex {
    var currentLastIndex: int
    var seen: set<int>

    constructor(numNodes: int)
      ensures currentLastIndex == numNodes - 1 && seen == {}
    {
      currentLastIndex := numNodes - 1;
      seen := {};
    }

    /** `__call__`. */
    method Call(index: int) returns (r: int)
      modifies this
      ensures old(index in seen) ==>
        currentLastIndex == old(currentLastIndex) + 1 && r == currentLastIndex && seen == old(seen)
      ensures old(index !in seen) ==>
        r == index && seen == old(seen) + {index} && currentLastIndex == old(currentLastIndex)
    {
      if index in seen {
        currentLastIndex := currentLastIndex + 1;
        r := currentLastIndex;
      } else {
        seen := seen + {index};
        r := index;
      }
    }
  }

  /** Runs a fresh `NewIndex(numNodes)` over `calls`, collecting its answers. */
  method RunNewIndex(numNodes: int, calls: seq<int>) returns (outputs: seq<int>)
    ensures outputs == NewIndexOutputs(numNodes, calls)
  {
    var b := new NewIndex(numNodes);
    outputs := [];
    var i := 0;
    while i < |calls|
      invariant 0 <= i <= |calls|
      invariant b.seen == set x | x in calls[..i]
      invariant b.currentLastIndex == numNodes - 1 + Repeats(calls[..i])
      invariant outputs == NewIndexOutputs(numNodes, calls[..i])
    {
      assert calls[..i + 1][..i] == calls[..i];
      assert calls[..i + 1][i] == calls[i];
      var r := b.Call(calls[i]);
      outputs := outputs + [r];
      i := i + 1;
    }
    assert calls[..|calls|] == calls;
  }

  lemma {:induction false} NewIndexOutputsPrefix(numNodes: int, calls: seq<int>, k: nat)
    requires k <= |calls|
    ensures NewIndexOutputs(numNodes, calls)[..k] == NewIndexOutputs(numNodes, calls[..k])
    decreases |calls|
  {
    if k < |calls| {
      var prev := calls[..|calls| - 1];
      NewIndexOutputsPrefix(numNodes, prev, k);
      assert prev[..k] == calls[..k];
      assert NewIndexOutputs(numNodes, calls)[..|calls| - 1] == NewIndexOutputs(numNodes, prev);
    } else {
      assert calls[..k] == calls;
    }
  }

  lemma {:induction false} RepeatsMonotone(calls: seq<int>, k: nat)
    requires k <= |calls|
    ensures Repeats(calls[..k]) <= Repeats(calls)
    decreases |calls|
  {
    if k < |calls| {
      var prev := calls[..|calls| - 1];
      RepeatsMonotone(prev, k);
      assert prev[..k] == calls[..k];
    } else {
      assert calls[..k] == calls;
    }
  }

  /** Call `k` returns its own index the first time that index occurs, and
    * `numNodes` plus the number of earlier repeats otherwise. */
  lemma NewIndexOutputsMeaning(numNodes: int, calls: seq<int>, k: nat)
    requires k < |calls|
    ensures calls[k] !in calls[..k] ==> NewIndexOutputs(numNodes, calls)[k] == calls[k]
    ensures calls[k] in calls[..k] ==> NewIndexOutputs(numNodes, calls)[k] == numNodes + Repeats(calls[..k])
  {
    NewIndexOutputsPrefix(numNodes, calls, k + 1);
    assert calls[..k + 1][..k] == calls[..k];
    assert NewIndexOutputs(numNodes, calls)[k] == NewIndexOutputs(numNodes, calls)[..k + 1][k];
  }

  /** When every call is on an index of an existing node (in
    * `[0, numNodes)`), all answers are distinct: a repeat gets an index in
    * `[numNodes, numNodes + Repeats(calls))`, never handed out before. */
  lemma NewIndexOutputsAreDistinct(numNodes: int, calls: seq<int>)
    requires forall k | 0 <= k < |calls| :: 0 <= calls[k] < numNodes
    ensures forall k | 0 <= k < |calls| && calls[k] in calls[..k] ::
      numNodes <= NewIndexOutputs(numNodes, calls)[k] < numNodes + Repeats(calls)
    ensures forall k1, k2 | 0 <= k1 < k2 < |calls| ::
      NewIndexOutputs(numNodes, calls)[k1] != NewIndexOutputs(numNodes, calls)[k2]
  {
    var out := NewIndexOutputs(numNodes, calls);
    forall k | 0 <= k < |calls| && calls[k] in calls[..k]
      ensures numNodes <= out[k] < numNodes + Repeats(calls)
    {
      NewIndexOutputsMeaning(numNodes, calls, k);
      RepeatsMonotone(calls, k + 1);
      assert calls[..k + 1][..k] == calls[..k];
    }
    forall k1, k2 | 0 <= k1 < k2 < |calls|
      ensures out[k1] != out[k2]
    {
      NewIndexOutputsMeaning(numNodes, calls, k1);
      NewIndexOutputsMeaning(numNodes, calls, k2);
      if calls[k1] in calls[..k1] && calls[k2] in calls[..k2] {
        var c2 := calls[..k2];
        RepeatsMonotone(c2, k1 + 1);
        assert c2[..k1 + 1] == calls[..k1 + 1];
        assert calls[..k1 + 1][..k1] == calls[..k1];
      } else if calls[k1] !in calls[..k1] && calls[k2] !in calls[..k2] {
        assert calls[k1] == calls[..k2][k1];
      }
    }
  }

  // ---------------------------------------------------------------------
  // __identify_split (lines 200-210)
  // ---------------------------------------------------------------------

  /** A fracture node with the connected components of the cells around it
    * (the result of `networkx.connected_components`, an input here). */
  datatype NodeCells = NodeCells(node: int, components: seq<seq<int>>)

  /** What `networkx` and `sorted` guarantee of the input: nodes strictly
    * increasing, and the components around one node pairwise disjoint. */
  predicate SplitInput(nodes: seq<NodeCells>) {
    (forall a, b | 0 <= a < b < |nodes| :: nodes[a].node < nodes[b].node) &&
    (forall a, j1, j2, c | 0 <= a < |nodes| && 0 <= j1 < j2 < |nodes[a].components| ::
      c in nodes[a].components[j1] ==> c !in nodes[a].components[j2])
  }

  /** The number of duplicates made for the nodes before `nodes[i]`: one per
    * component after the first. */
  function ExtraBefore(nodes: seq<NodeCells>, i: nat): nat
    requires i <= |nodes|
  {
    if i == 0 then 0
    else ExtraBefore(nodes, i - 1) + (if |nodes[i - 1].components| > 0 then |nodes[i - 1].components| - 1 else 0)
  }

  /** The index given to component `j` of `nodes[i]`: the node itself for the
    * first component, the next fresh index for every later one. */
  function SplitIndex(numPoints: int, nodes: seq<NodeCells>, i: nat, j: nat): int
    requires i < |nodes|
  {
    if j == 0 then nodes[i].node else numPoints + ExtraBefore(nodes, i) + j - 1
  }

  /** `cell` uses index `v` in place of `node`. */
  predicate Replaces(result: map<int, map<int, int>>, cell: int, node: int, v: int) {
    cell in result && node in result[cell] && result[cell][node] == v
  }

  /** The entries of `after` are those of `before`, except that every cell of
    * `cells` now uses `v` in place of `node`. */
  predicate AssignedFrom(before: map<int, map<int, int>>, after: map<int, map<int, int>>, cells: seq<int>, node: int, v: int) {
    (forall c | c in cells :: Replaces(after, c, node, v)) &&
    (forall c, n | c in after && n in after[c] ::
      (n == node && c in cells && after[c][n] == v) || Replaces(before, c, n, after[c][n])) &&
    (forall c, n | c in before && n in before[c] && !(n == node && c in cells) :: Replaces(after, c, n, before[c][n]))
  }

  /** The innermost loop of `__identify_split`: `result[cell][node] = new_index`
    * for every cell of one component. */
  method AssignComponent(result: map<int, map<int, int>>, cells: seq<int>, node: int, v: int)
    returns (r: map<int, map<int, int>>)
    ensures AssignedFrom(result, r, cells, node, v)
  {
    r := result;
    var k := 0;
    while k < |cells|
      invariant 0 <= k <= |cells|
      invariant AssignedFrom(result, r, cells[..k], node, v)
    {
      var cell := cells[k];
      var row := if cell in r then r[cell] else map[];
      r := r[cell := row[node := v]];
      assert cells[..k + 1] == cells[..k] + [cell];
      k := k + 1;
    }
    assert cells[..|cells|] == cells;
  }

  /** `result` holds the indices of every component of the nodes before
    * `nodes[i]`. */
  ghost predicate SplitComplete(result: map<int, map<int, int>>, numPoints: int, nodes: seq<NodeCells>, i: nat)
    requires i <= |nodes|
  {
    forall i', j, c | 0 <= i' < i && 0 <= j < |nodes[i'].components| && c in nodes[i'].components[j] ::
      Replaces(result, c, nodes[i'].node, SplitIndex(numPoints, nodes, i', j))
  }

  /** Every entry of `result` is the index of a component, among the first
    * `i` nodes, of the cell it is stored for. */
  ghost predicate SplitSound(result: map<int, map<int, int>>, numPoints: int, nodes: seq<NodeCells>, i: nat)
    requires i <= |nodes|
  {
    forall c, n | c in result && n in result[c] ::
      exists i' | 0 <= i' < i ::
        n == nodes[i'].node &&
        exists j | 0 <= j < |nodes[i'].components| ::
          c in nodes[i'].components[j] && result[c][n] == SplitIndex(numPoints, nodes, i', j)
  }

  /** The loop over the components around `nodes[i]`. */
  method SplitAroundNode(b: NewIndex, result: map<int, map<int, int>>, numPoints: int, nodes: seq<NodeCells>, i: nat)
    returns (r: map<int, map<int, int>>)
    modifies b
    requires SplitInput(nodes) && i < |nodes|
    requires forall x | x in b.seen :: x < nodes[i].node
    requires forall c, n | c in result && n in result[c] :: n < nodes[i].node
    requires b.currentLastIndex == numPoints - 1 + ExtraBefore(nodes, i)
    ensures forall x | x in b.seen :: x <= nodes[i].node
    ensures b.currentLastIndex == numPoints - 1 + ExtraBefore(nodes, i + 1)
    ensures forall j, c | 0 <= j < |nodes[i].components| && c in nodes[i].components[j] ::
      Replaces(r, c, nodes[i].node, SplitIndex(numPoints, nodes, i, j))
    ensures forall c, n | c in r && n in r[c] ::
      || Replaces(result, c, n, r[c][n])
      || (n == nodes[i].node && exists j | 0 <= j < |nodes[i].components| ::
            c in nodes[i].components[j] && r[c][n] == SplitIndex(numPoints, nodes, i, j))
    ensures forall c, n | c in result && n in result[c] :: Replaces(r, c, n, result[c][n])
  {
    var node := nodes[i].node;
    var components := nodes[i].components;
    r := result;
    var j := 0;
    while j < |components|
      invariant 0 <= j <= |components|
      invariant forall x | x in b.seen :: x <= node
      invariant j == 0 ==> node !in b.seen
      invariant j > 0 ==> node in b.seen
      invariant b.currentLastIndex == numPoints - 1 + ExtraBefore(nodes, i) + (if j > 0 then j - 1 else 0)
      invariant forall j', c | 0 <= j' < j && c in components[j'] :: Replaces(r, c, node, SplitIndex(numPoints, nodes, i, j'))
      invariant forall c, n | c in r && n in r[c] ::
        || Replaces(result, c, n, r[c][n])
        || (n == node && exists j' | 0 <= j' < j :: c in components[j'] && r[c][n] == SplitIndex(numPoints, nodes, i, j'))
      invariant forall c, n | c in result && n in result[c] :: Replaces(r, c, n, result[c][n])
    {
      var newIndex := b.Call(node);
      assert newIndex == SplitIndex(numPoints, nodes, i, j);
      var r' := AssignComponent(r, components[j], node, newIndex);
      forall j', c | 0 <= j' < j && c in components[j']
        ensures Replaces(r', c, node, SplitIndex(numPoints, nodes, i, j'))
      {
        assert c !in components[j];
      }
      r := r';
      j := j + 1;
    }
  }

  /** `__identify_split`: visits the nodes in ascending order and, around each,
    * asks `NewIndex` for one index per connected component, which all the
    * cells of that component then use in place of the node. The result holds
    * these indices and nothing else. */
  method IdentifySplit(numPoints: int, nodes: seq<NodeCells>) returns (result: map<int, map<int, int>>)
    requires SplitInput(nodes)
    ensures SplitComplete(result, numPoints, nodes, |nodes|)
    ensures SplitSound(result, numPoints, nodes, |nodes|)
  {
    var b := new NewIndex(numPoints);
    result := map[];
    var i := 0;
    while i < |nodes|
      invariant 0 <= i <= |nodes|
      invariant i < |nodes| ==> forall x | x in b.seen :: x < nodes[i].node
      invariant b.currentLastIndex == numPoints - 1 + ExtraBefore(nodes, i)
      invariant SplitComplete(result, numPoints, nodes, i)
      invariant SplitSound(result, numPoints, nodes, i)
    {
      forall c, n | c in result && n in result[c]
        ensures n < nodes[i].node
      {
        var i' :| 0 <= i' < i && n == nodes[i'].node;
      }
      var r := SplitAroundNode(b, result, numPoints, nodes, i);
      forall i', j, c | 0 <= i' < i + 1 && 0 <= j < |nodes[i'].components| && c in nodes[i'].components[j]
        ensures Replaces(r, c, nodes[i'].node, SplitIndex(numPoints, nodes, i', j))
      {
        if i' < i {
          assert Replaces(result, c, nodes[i'].node, SplitIndex(numPoints, nodes, i', j));
        }
      }
      forall c, n | c in r && n in r[c]
        ensures exists i' | 0 <= i' < i + 1 ::
          n == nodes[i'].node &&
          exists j | 0 <= j < |nodes[i'].components| ::
            c in nodes[i'].components[j] && r[c][n] == SplitIndex(numPoints, nodes, i', j)
      {
        if !Replaces(result, c, n, r[c][n]) {
          assert n == nodes[i].node;
        }
      }
      result := r;
      i := i + 1;
    }
  }

  lemma {:induction false} ExtraBeforeGrows(nodes: seq<NodeCells>, i1: nat, i2: nat)
    requires i1 < i2 <= |nodes|
    ensures ExtraBefore(nodes, i1) + (if |nodes[i1].components| > 0 then |nodes[i1].components| - 1 else 0) <= ExtraBefore(nodes, i2)
    decreases i2
  {
    if i1 + 1 < i2 {
      ExtraBeforeGrows(nodes, i1, i2 - 1);
    }
  }

  /** Over nodes of the mesh (in `[0, numPoints)`), no two components share an
    * index: the first component around a node keeps the node, and every
    * later one gets its own index in `[numPoints, numPoints + ExtraBefore(nodes, |nodes|))`. */
  lemma SplitIndicesAreDistinct(numPoints: int, nodes: seq<NodeCells>)
    requires SplitInput(nodes)
    requires forall i | 0 <= i < |nodes| :: 0 <= nodes[i].node < numPoints
    ensures forall i, j | 0 <= i < |nodes| && 0 < j < |nodes[i].components| ::
      numPoints <= SplitIndex(numPoints, nodes, i, j) < numPoints + ExtraBefore(nodes, |nodes|)
    ensures forall i1, j1, i2, j2 |
      && 0 <= i1 < |nodes| && 0 <= j1 < |nodes[i1].components|
      && 0 <= i2 < |nodes| && 0 <= j2 < |nodes[i2].components|
      && (i1 != i2 || j1 != j2) ::
      SplitIndex(numPoints, nodes, i1, j1) != SplitIndex(numPoints, nodes, i2, j2)
  {
    forall i, j | 0 <= i < |nodes| && 0 < j < |nodes[i].components|
      ensures numPoints <= SplitIndex(numPoints, nodes, i, j) < numPoints + ExtraBefore(nodes, |nodes|)
    {
      ExtraBeforeGrows(nodes, i, |nodes|);
    }
    forall i1, j1, i2, j2 |
      && 0 <= i1 < |nodes| && 0 <= j1 < |nodes[i1].components|
      && 0 <= i2 < |nodes| && 0 <= j2 < |nodes[i2].components|
      && (i1 != i2 || j1 != j2)
      ensures SplitIndex(numPoints, nodes, i1, j1) != SplitIndex(numPoints, nodes, i2, j2)
    {
      if 0 < j1 && 0 < j2 {
        if i1 < i2 {
          ExtraBeforeGrows(nodes, i1, i2);
        } else if i2 < i1 {
          ExtraBeforeGrows(nodes, i2, i1);
        }
      }
    }
  }

  // ---------------------------------------------------------------------
  // __perform_polyhedron_split and __perform_split (lines 252-315, 317-380)
  // ---------------------------------------------------------------------

  /** A replacement `i -> o` of `cell_to_node_mapping` that duplicates `i`. */
  predicate Moves(mapping: map<int, map<int, int>>, c: int, i: int) {
    c in mapping && i in mapping[c] && mapping[c][i] != i
  }

  /** `added_points`: the outputs of the replacements that change a node. */
  function AddedPoints(mapping: map<int, map<int, int>>): set<int> {
    set c, i | c in mapping && i in mapping[c] && mapping[c][i] != i :: mapping[c][i]
  }

  /** No new index stands for two different original nodes. */
  ghost predicate Consistent(mapping: map<int, map<int, int>>) {
    forall c1, i1, c2, i2 | Moves(mapping, c1, i1) && Moves(mapping, c2, i2) && mapping[c1][i1] == mapping[c2][i2] ::
      i1 == i2
  }

  /** The mapping built by `__identify_split` moves exactly the nodes of the
    * later components, and never sends two nodes to one new index. */
  lemma IdentifiedSplitIsConsistent(numPoints: int, nodes: seq<NodeCells>, result: map<int, map<int, int>>)
    requires SplitInput(nodes)
    requires forall i | 0 <= i < |nodes| :: 0 <= nodes[i].node < numPoints
    requires SplitSound(result, numPoints, nodes, |nodes|)
    ensures Consistent(result)
    ensures forall o | o in AddedPoints(result) :: numPoints <= o < numPoints + ExtraBefore(nodes, |nodes|)
  {
    SplitIndicesAreDistinct(numPoints, nodes);
    forall c1, i1, c2, i2 | Moves(result, c1, i1) && Moves(result, c2, i2) && result[c1][i1] == result[c2][i2]
      ensures i1 == i2
    {
      var a1, j1 :| 0 <= a1 < |nodes| && i1 == nodes[a1].node && 0 <= j1 < |nodes[a1].components| &&
        c1 in nodes[a1].components[j1] && result[c1][i1] == SplitIndex(numPoints, nodes, a1, j1);
      var a2, j2 :| 0 <= a2 < |nodes| && i2 == nodes[a2].node && 0 <= j2 < |nodes[a2].components| &&
        c2 in nodes[a2].components[j2] && result[c2][i2] == SplitIndex(numPoints, nodes, a2, j2);
    }
    forall o | o in AddedPoints(result)
      ensures numPoints <= o < numPoints + ExtraBefore(nodes, |nodes|)
    {
      var c, i :| c in result && i in result[c] && result[c][i] != i && result[c][i] == o;
      var a, j :| 0 <= a < |nodes| && i == nodes[a].node && 0 <= j < |nodes[a].components| &&
        c in nodes[a].components[j] && result[c][i] == SplitIndex(numPoints, nodes, a, j);
    }
  }

  /** A non-empty set has an element, so the dictionary loops below can
    * pick their next key. */
  lemma PickableFromNonEmpty(s: set<int>)
    requires s != {}
    ensures exists x :: x in s
  {
    if forall x :: x !in s {
      assert false;
    }
  }

  /** The loop that collects `added_points`, over the cells and then their
    * replacements in whatever order the dictionaries yield them. */
  method ComputeAddedPoints(mapping: map<int, map<int, int>>) returns (added: set<int>)
    ensures added == AddedPoints(mapping)
  {
    added := {};
    var cells := mapping.Keys;
    while cells != {}
      invariant cells <= mapping.Keys
      invariant added <= AddedPoints(mapping)
      invariant forall c, i | Moves(mapping, c, i) && c !in cells :: mapping[c][i] in added
      decreases cells
    {
      PickableFromNonEmpty(cells);
      var c :| c in cells;
      var nodeMapping := mapping[c];
      var keys := nodeMapping.Keys;
      while keys != {}
        invariant keys <= nodeMapping.Keys
        invariant added <= AddedPoints(mapping)
        invariant forall c', i | Moves(mapping, c', i) && c' !in cells :: mapping[c'][i] in added
        invariant forall i | Moves(mapping, c, i) && i !in keys :: mapping[c][i] in added
        decreases keys
      {
        PickableFromNonEmpty(keys);
        var i :| i in keys;
        if i != nodeMapping[i] {
          added := added + {nodeMapping[i]};
        }
        keys := keys - {i};
      }
      cells := cells - {c};
    }
  }

  /** `num_new_points`. */
  function NumNewPoints(numOldPoints: nat, mapping: map<int, map<int, int>>): nat {
    numOldPoints + |AddedPoints(mapping)|
  }

  /** `i` is an original node that some cell replaces by `o`. */
  ghost predicate IsOriginOf(mapping: map<int, map<int, int>>, o: int, i: int) {
    exists c | c in mapping :: i in mapping[c] && mapping[c][i] == o && i != o
  }

  /** What `collocated_nodes` holds once built: each new point one of its
    * original nodes, each other old point itself, and -1 elsewhere. */
  ghost predicate IsCollocation(numOldPoints: nat, mapping: map<int, map<int, int>>, collocated: seq<int>) {
    && |collocated| == NumNewPoints(numOldPoints, mapping)
    && (forall p | 0 <= p < |collocated| && p in AddedPoints(mapping) :: IsOriginOf(mapping, p, collocated[p]))
    && (forall p | 0 <= p < |collocated| && p !in AddedPoints(mapping) :: collocated[p] == (if p < numOldPoints then p else -1))
  }

  /** The new indices must lie inside the new point array (`SetPoint` and
    * the `numpy` assignment index with them). */
  predicate TargetsInRange(numOldPoints: nat, mapping: map<int, map<int, int>>) {
    forall c, i | c in mapping && i in mapping[c] && mapping[c][i] != i :: 0 <= mapping[c][i] < NumNewPoints(numOldPoints, mapping)
  }

  /** `collocated_nodes`: -1 everywhere, then every old point maps to itself,
    * then each replacement `i -> o` with `i != o` writes `i` at `o`. */
  method CollocatedNodes(numOldPoints: nat, mapping: map<int, map<int, int>>) returns (collocated: seq<int>)
    requires TargetsInRange(numOldPoints, mapping)
    ensures IsCollocation(numOldPoints, mapping, collocated)
  {
    var numNewPoints := numOldPoints + |AddedPoints(mapping)|;
    collocated := seq(numNewPoints, _ => -1);
    var p := 0;
    while p < numOldPoints && p < numNewPoints
      invariant 0 <= p <= numOldPoints
      invariant |collocated| == numNewPoints
      invariant forall q | 0 <= q < numNewPoints :: collocated[q] == (if q < p then q else -1)
    {
      collocated := collocated[p := p];
      p := p + 1;
    }
    ghost var done: set<int> := {};
    var cells := mapping.Keys;
    while cells != {}
      invariant cells <= mapping.Keys
      invariant |collocated| == numNewPoints
      invariant done <= AddedPoints(mapping)
      invariant forall c, i | Moves(mapping, c, i) && c !in cells :: mapping[c][i] in done
      invariant forall q | 0 <= q < numNewPoints && q in done :: IsOriginOf(mapping, q, collocated[q])
      invariant forall q | 0 <= q < numNewPoints && q !in done :: collocated[q] == (if q < numOldPoints then q else -1)
      decreases cells
    {
      PickableFromNonEmpty(cells);
      var c :| c in cells;
      var nodeMapping := mapping[c];
      var keys := nodeMapping.Keys;
      while keys != {}
        invariant keys <= nodeMapping.Keys
        invariant |collocated| == numNewPoints
        invariant done <= AddedPoints(mapping)
        invariant forall c', i | Moves(mapping, c', i) && c' !in cells :: mapping[c'][i] in done
        invariant forall i | Moves(mapping, c, i) && i !in keys :: mapping[c][i] in done
        invariant forall q | 0 <= q < numNewPoints && q in done :: IsOriginOf(mapping, q, collocated[q])
        invariant forall q | 0 <= q < numNewPoints && q !in done :: collocated[q] == (if q < numOldPoints then q else -1)
        decreases keys
      {
        PickableFromNonEmpty(keys);
        var i :| i in keys;
        var o := nodeMapping[i];
        if i != o {
          assert Moves(mapping, c, i);
          collocated := collocated[o := i];
          done := done + {o};
        }
        keys := keys - {i};
      }
      cells := cells - {c};
    }
  }

  /** Once no new index stands for two nodes, each new point is collocated
    * with exactly the node it duplicates, whatever order the replacements
    * were visited in. */
  lemma CollocationOfConsistentMapping(numOldPoints: nat, mapping: map<int, map<int, int>>, collocated: seq<int>)
    requires Consistent(mapping) && TargetsInRange(numOldPoints, mapping)
    requires IsCollocation(numOldPoints, mapping, collocated)
    ensures forall c, i | Moves(mapping, c, i) :: collocated[mapping[c][i]] == i
    ensures forall p | 0 <= p < numOldPoints && p < |collocated| && p !in AddedPoints(mapping) :: collocated[p] == p
  {
    forall c, i | Moves(mapping, c, i)
      ensures collocated[mapping[c][i]] == i
    {
      var o := mapping[c][i];
      assert o in AddedPoints(mapping);
      var c' :| c' in mapping && collocated[o] in mapping[c'] && mapping[c'][collocated[o]] == o && collocated[o] != o;
      assert Moves(mapping, c', collocated[o]);
    }
  }

  /** `node_mapping.get(id, id)` over the point ids of one face. */
  function MapIds(ids: seq<int>, nodeMapping: map<int, int>): (r: seq<int>)
    ensures |r| == |ids|
    ensures forall k | 0 <= k < |ids| :: r[k] == (if ids[k] in nodeMapping then nodeMapping[ids[k]] else ids[k])
  {
    if |ids| == 0 then []
    else MapIds(ids[..|ids| - 1], nodeMapping) + [var x := ids[|ids| - 1]; if x in nodeMapping then nodeMapping[x] else x]
  }

  /** A list of faces in VTK's polyhedron layout: for each face its point
    * count and then its point ids. */
  function EncodeFaces(faces: seq<seq<int>>): seq<int> {
    if |faces| == 0 then [] else [|faces[0]|] + faces[0] + EncodeFaces(faces[1..])
  }

  lemma {:induction false} EncodeFacesAppend(faces: seq<seq<int>>, f: seq<int>)
    ensures EncodeFaces(faces + [f]) == EncodeFaces(faces) + [|f|] + f
    decreases |faces|
  {
    if |faces| == 0 {
      assert faces + [f] == [f];
      assert [f][1..] == [];
    } else {
      assert (faces + [f])[1..] == faces[1..] + [f];
      EncodeFacesAppend(faces[1..], f);
    }
  }

  /** The faces of a cell with every point id passed through the cell's
    * mapping. */
  function MappedFaces(faces: seq<seq<int>>, nodeMapping: map<int, int>): (r: seq<seq<int>>)
    ensures |r| == |faces|
    ensures forall f | 0 <= f < |faces| :: r[f] == MapIds(faces[f], nodeMapping)
  {
    seq(|faces|, f requires 0 <= f < |faces| => MapIds(faces[f], nodeMapping))
  }

  /** The face stream handed to `InsertNextCell`: the number of faces, then
    * each mapped face in the polyhedron layout. */
  function FaceStream(faces: seq<seq<int>>, nodeMapping: map<int, int>): seq<int> {
    [|faces|] + EncodeFaces(MappedFaces(faces, nodeMapping))
  }

  /** The per-cell loop of `__perform_polyhedron_split`: the new face stream
    * of one cell, `nodeMapping` being `cell_to_node_mapping.get(c, {})`. */
  method RewriteCell(faces: seq<seq<int>>, nodeMapping: map<int, int>) returns (faceIds: seq<int>)
    ensures faceIds == FaceStream(faces, nodeMapping)
  {
    ghost var mapped := MappedFaces(faces, nodeMapping);
    faceIds := [|faces|];
    var f := 0;
    while f < |faces|
      invariant 0 <= f <= |faces|
      invariant faceIds == [|faces|] + EncodeFaces(mapped[..f])
    {
      var face := faces[f];
      faceIds := faceIds + [|face|];
      var k := 0;
      while k < |face|
        invariant 0 <= k <= |face|
        invariant faceIds == [|faces|] + EncodeFaces(mapped[..f]) + [|face|] + mapped[f][..k]
      {
        var newPointId := if face[k] in nodeMapping then nodeMapping[face[k]] else face[k];
        assert mapped[f][..k + 1] == mapped[f][..k] + [newPointId];
        faceIds := faceIds + [newPointId];
        k := k + 1;
      }
      assert mapped[f][..|face|] == mapped[f];
      assert mapped[..f + 1] == mapped[..f] + [mapped[f]];
      EncodeFacesAppend(mapped[..f], mapped[f]);
      f := f + 1;
    }
    assert mapped[..|faces|] == mapped;
  }

  /** Reads `n` faces in the polyhedron layout off the front of `s`, giving
    * them with what is left, or `None` when `s` is too short. */
  function ParseFaces(s: seq<int>, n: nat): Option<(seq<seq<int>>, seq<int>)>
    decreases n
  {
    if n == 0 then Some(([], s))
    else if |s| == 0 || s[0] < 0 || |s| - 1 < s[0] then None
    else match ParseFaces(s[1 + s[0]..], n - 1)
      case None => None
      case Some(r) => Some(([s[1..1 + s[0]]] + r.0, r.1))
  }

  /** Reads a whole face stream back into faces. */
  function ParseFaceStream(s: seq<int>): Option<seq<seq<int>>> {
    if |s| == 0 || s[0] < 0 then None
    else match ParseFaces(s[1..], s[0])
      case None => None
      case Some(r) => if r.1 == [] then Some(r.0) else None
  }

  lemma {:induction false} ParseEncodedFaces(faces: seq<seq<int>>, rest: seq<int>)
    ensures ParseFaces(EncodeFaces(faces) + rest, |faces|) == Some((faces, rest))
    decreases |faces|
  {
    if |faces| > 0 {
      var s := EncodeFaces(faces) + rest;
      var f := faces[0];
      assert s == [|f|] + f + (EncodeFaces(faces[1..]) + rest);
      assert s[0] == |f|;
      assert s[1..1 + |f|] == f;
      assert s[1 + |f|..] == EncodeFaces(faces[1..]) + rest;
      ParseEncodedFaces(faces[1..], rest);
      assert ParseFaces(s[1 + s[0]..], |faces| - 1) == Some((faces[1..], rest));
      assert [f] + faces[1..] == faces;
    } else {
      assert EncodeFaces(faces) + rest == rest;
      assert faces == [];
    }
  }

  /** The rewritten cell's face stream reads back as its faces with every
    * point id mapped, one stream entry per face plus one per point plus the
    * face count. */
  lemma FaceStreamRoundTrip(faces: seq<seq<int>>, nodeMapping: map<int, int>)
    ensures ParseFaceStream(FaceStream(faces, nodeMapping)) == Some(MappedFaces(faces, nodeMapping))
  {
    var s := FaceStream(faces, nodeMapping);
    var mapped := MappedFaces(faces, nodeMapping);
    ParseEncodedFaces(mapped, []);
    assert s[1..] == EncodeFaces(mapped) + [];
  }

  // ---------------------------------------------------------------------
  // __copy_fields (lines 213-249)
  // ---------------------------------------------------------------------

  /** The point-data loop of `__copy_fields`: new tuple `p` is the old tuple of
    * `collocated_nodes[p]`. Cell and field data are copied unchanged. */
  method CopyPointField<T>(oldTuples: seq<T>, collocated: seq<int>) returns (newTuples: seq<T>)
    requires forall p | 0 <= p < |collocated| :: 0 <= collocated[p] < |oldTuples|
    ensures |newTuples| == |collocated|
    ensures forall p | 0 <= p < |collocated| :: newTuples[p] == oldTuples[collocated[p]]
  {
    newTuples := [];
    var p := 0;
    while p < |collocated|
      invariant 0 <= p <= |collocated|
      invariant |newTuples| == p
      invariant forall q | 0 <= q < p :: newTuples[q] == oldTuples[collocated[q]]
    {
      newTuples := newTuples + [oldTuples[collocated[p]]];
      p := p + 1;
    }
  }

  /** With the `collocated_nodes` of a consistent split, each duplicate carries
    * the value of the node it duplicates and every other old point keeps its
    * own. */
  lemma CopiedFieldsFollowTheSplit<T>(numOldPoints: nat, mapping: map<int, map<int, int>>, collocated: seq<int>,
                                      oldTuples: seq<T>, newTuples: seq<T>)
    requires Consistent(mapping) && TargetsInRange(numOldPoints, mapping)
    requires IsCollocation(numOldPoints, mapping, collocated)
    requires forall p | 0 <= p < |collocated| :: 0 <= collocated[p] < |oldTuples|
    requires |newTuples| == |collocated|
    requires forall p | 0 <= p < |collocated| :: newTuples[p] == oldTuples[collocated[p]]
    ensures forall c, i | Moves(mapping, c, i) :: 0 <= i < |oldTuples| && newTuples[mapping[c][i]] == oldTuples[i]
    ensures forall p | 0 <= p < numOldPoints && p < |collocated| && p !in AddedPoints(mapping) :: newTuples[p] == oldTuples[p]
  {
    CollocationOfConsistentMapping(numOldPoints, mapping, collocated);
  }

  // ---------------------------------------------------------------------
  // build_node_to_cells (lines 65-80)
  // ---------------------------------------------------------------------

  /** The hash `frozenset(fn)` of a face, and the set of its nodes. */
  function NodeSet(face: seq<int>): set<int> {
    set x | x in face
  }

  lemma NodeSetAppend(face: seq<int>, x: int)
    ensures NodeSet(face + [x]) == NodeSet(face) + {x}
  {
  }

  /** The fracture nodes: every node of every fracture face. */
  function FractureNodes(faceNodes: seq<seq<int>>): set<int> {
    if |faceNodes| == 0 then {}
    else FractureNodes(faceNodes[..|faceNodes| - 1]) + NodeSet(faceNodes[|faceNodes| - 1])
  }

  lemma {:induction false} FractureNodesMeaning(faceNodes: seq<seq<int>>)
    ensures forall n :: n in FractureNodes(faceNodes) <==> exists f | f in faceNodes :: n in f
  {
    if |faceNodes| > 0 {
      var prev := faceNodes[..|faceNodes| - 1];
      FractureNodesMeaning(prev);
      assert faceNodes == prev + [faceNodes[|faceNodes| - 1]];
    }
  }

  /** `nodeToCells` has a key for each fracture node some cell uses, and it
    * maps that node to exactly the cells using it. */
  ghost predicate IsNodeToCells(nodeToCells: map<int, set<int>>, cellPoints: seq<seq<int>>, faceNodes: seq<seq<int>>) {
    && (forall n | n in nodeToCells :: n in FractureNodes(faceNodes) && nodeToCells[n] != {})
    && (forall n | n in nodeToCells :: forall c | c in nodeToCells[n] :: 0 <= c < |cellPoints| && n in cellPoints[c])
    && (forall n, c | 0 <= c < |cellPoints| && n in cellPoints[c] && n in FractureNodes(faceNodes) ::
          n in nodeToCells && c in nodeToCells[n])
  }

  /** One cell's step of `build_node_to_cells`: `c` joins the set of each of
    * its points that is a fracture node. */
  method AddCellToNodes(nodeToCells: map<int, set<int>>, points: seq<int>, c: int, fractureNodes: set<int>)
    returns (r: map<int, set<int>>)
    ensures forall n :: n in r <==> n in nodeToCells || (n in points && n in fractureNodes)
    ensures forall n | n in r ::
      r[n] == (if n in nodeToCells then nodeToCells[n] else {}) + (if n in points && n in fractureNodes then {c} else {})
  {
    r := nodeToCells;
    var k := 0;
    while k < |points|
      invariant 0 <= k <= |points|
      invariant forall n :: n in r <==> n in nodeToCells || (n in points[..k] && n in fractureNodes)
      invariant forall n | n in r ::
        r[n] == (if n in nodeToCells then nodeToCells[n] else {}) + (if n in points[..k] && n in fractureNodes then {c} else {})
    {
      var node := points[k];
      assert points[..k + 1] == points[..k] + [node];
      if node in fractureNodes {
        var cells := if node in r then r[node] else {};
        r := r[node := cells + {c}];
      }
      k := k + 1;
    }
    assert points[..|points|] == points;
  }

  /** `build_node_to_cells`. The intersection `cell_points & fracture_nodes`
    * is visited through the cell's point list; adding a cell twice to a set
    * changes nothing. */
  method BuildNodeToCells(cellPoints: seq<seq<int>>, faceNodes: seq<seq<int>>) returns (nodeToCells: map<int, set<int>>)
    ensures IsNodeToCells(nodeToCells, cellPoints, faceNodes)
  {
    var fractureNodes: set<int> := {};
    var a := 0;
    while a < |faceNodes|
      invariant 0 <= a <= |faceNodes|
      invariant fractureNodes == FractureNodes(faceNodes[..a])
    {
      var fns := faceNodes[a];
      var k := 0;
      while k < |fns|
        invariant 0 <= k <= |fns|
        invariant fractureNodes == FractureNodes(faceNodes[..a]) + NodeSet(fns[..k])
      {
        assert fns[..k + 1] == fns[..k] + [fns[k]];
        NodeSetAppend(fns[..k], fns[k]);
        fractureNodes := fractureNodes + {fns[k]};
        k := k + 1;
      }
      assert fns[..|fns|] == fns;
      assert faceNodes[..a + 1][..a] == faceNodes[..a];
      a := a + 1;
    }
    assert faceNodes[..|faceNodes|] == faceNodes;
    nodeToCells := map[];
    var c := 0;
    while c < |cellPoints|
      invariant 0 <= c <= |cellPoints|
      invariant forall n | n in nodeToCells :: n in fractureNodes && nodeToCells[n] != {}
      invariant forall n | n in nodeToCells :: forall c' | c' in nodeToCells[n] :: 0 <= c' < c && n in cellPoints[c']
      invariant forall n, c' | 0 <= c' < c && n in cellPoints[c'] && n in fractureNodes ::
        n in nodeToCells && c' in nodeToCells[n]
    {
      var r := AddCellToNodes(nodeToCells, cellPoints[c], c, fractureNodes);
      nodeToCells := r;
      c := c + 1;
    }
  }

  // ---------------------------------------------------------------------
  // build_fracture_info (lines 83-124)
  // ---------------------------------------------------------------------

  /** What the splitter finds: the cells around each fracture node and the
    * nodes of each fracture face. */
  datatype FractureInfo = FractureInfo(nodeToCells: map<int, set<int>>, faceNodes: seq<seq<int>>)

  /** The mesh as VTK describes it: per cell its faces (point ids) and, per
    * face, the neighbour cells across it (`GetCellNeighbors`). */
  predicate MeshShape(cellPoints: seq<seq<int>>, cellFaces: seq<seq<seq<int>>>, neighbours: seq<seq<seq<int>>>) {
    && |cellPoints| == |cellFaces| == |neighbours|
    && (forall c | 0 <= c < |cellFaces| :: |neighbours[c]| == |cellFaces[c]|)
    && (forall c, i, j | 0 <= c < |neighbours| && 0 <= i < |neighbours[c]| && 0 <= j < |neighbours[c][i]| ::
          0 <= neighbours[c][i][j] < |neighbours|)
  }

  /** The face between `cell` and `neighbour` is on the fracture: both field
    * values are among `fieldValues` and they differ. */
  predicate OnFracture(f: seq<int>, fieldValues: set<int>, cell: int, neighbour: int)
    requires 0 <= cell < |f| && 0 <= neighbour < |f|
  {
    f[cell] in fieldValues && f[neighbour] in fieldValues && f[neighbour] != f[cell]
  }

  /** The fracture faces among the first `m` faces of `cell`, as
    * `(cell, face)` pairs in face order. */
  function CellFractureFaces(f: seq<int>, fieldValues: set<int>, neighbours: seq<seq<seq<int>>>, cell: nat, m: nat)
    : (r: seq<(int, int)>)
    requires |f| == |neighbours| && cell < |neighbours| && m <= |neighbours[cell]|
    requires forall i, j | 0 <= i < |neighbours[cell]| && 0 <= j < |neighbours[cell][i]| :: 0 <= neighbours[cell][i][j] < |f|
    ensures forall k | 0 <= k < |r| :: r[k].0 == cell && 0 <= r[k].1 < m
  {
    if m == 0 then []
    else
      var ns := neighbours[cell][m - 1];
      CellFractureFaces(f, fieldValues, neighbours, cell, m - 1) +
        (if |ns| == 1 && OnFracture(f, fieldValues, cell, ns[0]) then [(cell, m - 1)] else [])
  }

  /** `cells_to_faces` flattened in its insertion order: the fracture faces
    * of the first `n` cells, by cell and then by face. */
  function FractureFaces(f: seq<int>, fieldValues: set<int>, neighbours: seq<seq<seq<int>>>, n: nat): (r: seq<(int, int)>)
    requires |f| == |neighbours| && n <= |neighbours|
    requires forall c, i, j | 0 <= c < |neighbours| && 0 <= i < |neighbours[c]| && 0 <= j < |neighbours[c][i]| ::
      0 <= neighbours[c][i][j] < |f|
    ensures forall k | 0 <= k < |r| :: 0 <= r[k].0 < n && 0 <= r[k].1 < |neighbours[r[k].0]|
  {
    if n == 0 then []
    else
      FractureFaces(f, fieldValues, neighbours, n - 1) +
        (if f[n - 1] in fieldValues then CellFractureFaces(f, fieldValues, neighbours, n - 1, |neighbours[n - 1]|) else [])
  }

  lemma {:induction false} CellFractureFacesMeaning(f: seq<int>, fieldValues: set<int>, neighbours: seq<seq<seq<int>>>, cell: nat, m: nat)
    requires |f| == |neighbours| && cell < |neighbours| && m <= |neighbours[cell]|
    requires forall i, j | 0 <= i < |neighbours[cell]| && 0 <= j < |neighbours[cell][i]| :: 0 <= neighbours[cell][i][j] < |f|
    ensures forall i :: (cell, i) in CellFractureFaces(f, fieldValues, neighbours, cell, m) <==>
      0 <= i < m && |neighbours[cell][i]| == 1 && OnFracture(f, fieldValues, cell, neighbours[cell][i][0])
  {
    if m > 0 {
      CellFractureFacesMeaning(f, fieldValues, neighbours, cell, m - 1);
    }
  }

  /** A `(cell, face)` pair is listed exactly when the cell's value is among
    * `fieldValues` and its single neighbour across that face has another
    * value that is too. */
  lemma {:induction false} FractureFacesMeaning(f: seq<int>, fieldValues: set<int>, neighbours: seq<seq<seq<int>>>, n: nat)
    requires |f| == |neighbours| && n <= |neighbours|
    requires forall c, i, j | 0 <= c < |neighbours| && 0 <= i < |neighbours[c]| && 0 <= j < |neighbours[c][i]| ::
      0 <= neighbours[c][i][j] < |f|
    ensures forall c, i :: (c, i) in FractureFaces(f, fieldValues, neighbours, n) <==>
      && 0 <= c < n && 0 <= i < |neighbours[c]| && |neighbours[c][i]| == 1
      && OnFracture(f, fieldValues, c, neighbours[c][i][0])
  {
    if n > 0 {
      FractureFacesMeaning(f, fieldValues, neighbours, n - 1);
      CellFractureFacesMeaning(f, fieldValues, neighbours, n - 1, |neighbours[n - 1]|);
    }
  }

  function NodeSets(faces: seq<seq<int>>): set<set<int>> {
    set g | g in faces :: NodeSet(g)
  }

  lemma NodeSetsAppend(faces: seq<seq<int>>, g: seq<int>)
    ensures NodeSets(faces + [g]) == NodeSets(faces) + {NodeSet(g)}
  {
    forall x | x in NodeSets(faces + [g])
      ensures x in NodeSets(faces) + {NodeSet(g)}
    {
      var h :| h in faces + [g] && x == NodeSet(h);
      if h != g {
        assert h in faces;
      }
    }
    forall x | x in NodeSets(faces)
      ensures x in NodeSets(faces + [g])
    {
      var h :| h in faces && x == NodeSet(h);
      assert h in faces + [g];
    }
    assert g in faces + [g];
  }

  /** The faces kept by the deduplication: each face whose node set was not
    * met before, in first-seen order. */
  function Dedup(faces: seq<seq<int>>): seq<seq<int>> {
    if |faces| == 0 then []
    else
      var kept := Dedup(faces[..|faces| - 1]);
      var last := faces[|faces| - 1];
      if NodeSet(last) in NodeSets(kept) then kept else kept + [last]
  }

  /** The deduplicated faces are faces of the input with pairwise different
    * node sets, and every input face has its node set among them. */
  lemma {:induction false} DedupMeaning(faces: seq<seq<int>>)
    ensures forall g | g in Dedup(faces) :: g in faces
    ensures NodeSets(Dedup(faces)) == NodeSets(faces)
    ensures forall a, b | 0 <= a < b < |Dedup(faces)| :: NodeSet(Dedup(faces)[a]) != NodeSet(Dedup(faces)[b])
  {
    if |faces| > 0 {
      var prev := faces[..|faces| - 1];
      var last := faces[|faces| - 1];
      DedupMeaning(prev);
      assert faces == prev + [last];
      assert NodeSets(faces) == NodeSets(prev) + {NodeSet(last)};
      var kept := Dedup(prev);
      if NodeSet(last) !in NodeSets(kept) {
        NodeSetsAppend(kept, last);
        forall a, b | 0 <= a < b < |kept + [last]|
          ensures NodeSet((kept + [last])[a]) != NodeSet((kept + [last])[b])
        {
          if b == |kept| {
            assert (kept + [last])[a] in kept;
          }
        }
      }
    }
  }

  /** The fracture faces' point lists, `cell.GetFace(face_id)` per pair. */
  function FacesOf(cellFaces: seq<seq<seq<int>>>, pairs: seq<(int, int)>): (r: seq<seq<int>>)
    requires forall k | 0 <= k < |pairs| :: 0 <= pairs[k].0 < |cellFaces| && 0 <= pairs[k].1 < |cellFaces[pairs[k].0]|
    ensures |r| == |pairs|
    ensures forall k | 0 <= k < |pairs| :: r[k] == cellFaces[pairs[k].0][pairs[k].1]
  {
    seq(|pairs|, k requires 0 <= k < |pairs| => cellFaces[pairs[k].0][pairs[k].1])
  }

  /** Some cell with a value among `fieldValues` has a face with two or more
    * neighbours, which fails the `assert` of `build_fracture_info`. */
  predicate TooManyNeighbours(f: seq<int>, fieldValues: set<int>, neighbours: seq<seq<seq<int>>>)
    requires |f| == |neighbours|
  {
    exists c, i | 0 <= c < |neighbours| && 0 <= i < |neighbours[c]| :: f[c] in fieldValues && |neighbours[c][i]| >= 2
  }

  /** The faces on the fracture of one cell whose value is among
    * `fieldValues`, or `None` when one of them has two or more neighbours
    * (the `assert`). */
  method CellFacesOnFracture(f: seq<int>, fieldValues: set<int>, neighbours: seq<seq<seq<int>>>, c: nat)
    returns (r: Option<seq<(int, int)>>)
    requires |f| == |neighbours| && c < |neighbours| && f[c] in fieldValues
    requires forall i, j | 0 <= i < |neighbours[c]| && 0 <= j < |neighbours[c][i]| :: 0 <= neighbours[c][i][j] < |f|
    ensures r.None? <==> exists i | 0 <= i < |neighbours[c]| :: |neighbours[c][i]| >= 2
    ensures r.Some? ==> r.value == CellFractureFaces(f, fieldValues, neighbours, c, |neighbours[c]|)
  {
    var faces: seq<(int, int)> := [];
    var i := 0;
    while i < |neighbours[c]|
      invariant 0 <= i <= |neighbours[c]|
      invariant faces == CellFractureFaces(f, fieldValues, neighbours, c, i)
      invariant forall i' | 0 <= i' < i :: |neighbours[c][i']| < 2
    {
      var neighborCellIds := neighbours[c][i];
      if |neighborCellIds| >= 2 {
        return None;
      }
      ghost var before := faces;
      var j := 0;
      while j < |neighborCellIds|
        invariant 0 <= j <= |neighborCellIds|
        invariant faces == before + (if j == 1 && OnFracture(f, fieldValues, c, neighborCellIds[0]) then [(c, i)] else [])
      {
        var neighborCellId := neighborCellIds[j];
        if f[neighborCellId] != f[c] && f[neighborCellId] in fieldValues {
          faces := faces + [(c, i)];
        }
        j := j + 1;
      }
      i := i + 1;
    }
    r := Some(faces);
  }

  /** The first loop of `build_fracture_info`: `cells_to_faces`, flattened. */
  method CollectFractureFaces(f: seq<int>, fieldValues: set<int>, neighbours: seq<seq<seq<int>>>)
    returns (r: Option<seq<(int, int)>>)
    requires |f| == |neighbours|
    requires forall c, i, j | 0 <= c < |neighbours| && 0 <= i < |neighbours[c]| && 0 <= j < |neighbours[c][i]| ::
      0 <= neighbours[c][i][j] < |f|
    ensures r.None? <==> TooManyNeighbours(f, fieldValues, neighbours)
    ensures r.Some? ==> r.value == FractureFaces(f, fieldValues, neighbours, |neighbours|)
  {
    var cellsToFaces: seq<(int, int)> := [];
    var c := 0;
    while c < |neighbours|
      invariant 0 <= c <= |neighbours|
      invariant cellsToFaces == FractureFaces(f, fieldValues, neighbours, c)
      invariant forall c', i | 0 <= c' < c && 0 <= i < |neighbours[c']| && f[c'] in fieldValues :: |neighbours[c'][i]| < 2
    {
      if f[c] in fieldValues {
        var faces := CellFacesOnFracture(f, fieldValues, neighbours, c);
        if faces.None? {
          return None;
        }
        cellsToFaces := cellsToFaces + faces.value;
      }
      c := c + 1;
    }
    r := Some(cellsToFaces);
  }

  /** The second loop of `build_fracture_info`: keeps each face whose node set
    * (`frozenset`) was not met before. */
  method DedupFaces(faces: seq<seq<int>>) returns (faceNodes: seq<seq<int>>)
    ensures faceNodes == Dedup(faces)
  {
    faceNodes := [];
    var faceNodesHashes: set<set<int>> := {};
    var k := 0;
    while k < |faces|
      invariant 0 <= k <= |faces|
      invariant faceNodes == Dedup(faces[..k])
      invariant faceNodesHashes == NodeSets(faceNodes)
    {
      var fn := faces[k];
      var fnh := NodeSet(fn);
      assert faces[..k + 1][..k] == faces[..k];
      if fnh !in faceNodesHashes {
        faceNodesHashes := faceNodesHashes + {fnh};
        NodeSetsAppend(faceNodes, fn);
        faceNodes := faceNodes + [fn];
      }
      k := k + 1;
    }
    assert faces[..|faces|] == faces;
  }

  /** `build_fracture_info`: the field must exist; the fracture faces are the
    * faces between cells of two different values of `fieldValues`,
    * deduplicated by node set in the order found; `node_to_cells` is then
    * built over them. */
  method BuildFractureInfo(field: Option<seq<int>>, fieldValues: set<int>, cellPoints: seq<seq<int>>,
                           cellFaces: seq<seq<seq<int>>>, neighbours: seq<seq<seq<int>>>)
    returns (r: Result<FractureInfo>)
    requires MeshShape(cellPoints, cellFaces, neighbours)
    requires field.Some? ==> |field.value| == |cellFaces|
    ensures field.None? ==> r.Err?
    ensures field.Some? ==> (r.Err? <==> TooManyNeighbours(field.value, fieldValues, neighbours))
    ensures r.Ok? ==>
      && field.Some?
      && r.value.faceNodes == Dedup(FacesOf(cellFaces, FractureFaces(field.value, fieldValues, neighbours, |neighbours|)))
    ensures r.Ok? ==> IsNodeToCells(r.value.nodeToCells, cellPoints, r.value.faceNodes)
  {
    if field.None? {
      return Err("Cell field does not exist in mesh, nothing done");
    }
    var cellsToFaces := CollectFractureFaces(field.value, fieldValues, neighbours);
    if cellsToFaces.None? {
      return Err("assertion failed: a face has more than one neighbour");
    }
    var pairs := cellsToFaces.value;
    var faces: seq<seq<int>> := [];
    var k := 0;
    while k < |pairs|
      invariant 0 <= k <= |pairs|
      invariant faces == FacesOf(cellFaces, pairs[..k])
    {
      faces := faces + [cellFaces[pairs[k].0][pairs[k].1]];
      k := k + 1;
    }
    assert pairs[..|pairs|] == pairs;
    var faceNodes := DedupFaces(faces);
    var nodeToCells := BuildNodeToCells(cellPoints, faceNodes);
    r := Ok(FractureInfo(nodeToCells, faceNodes));
  }

  // ---------------------------------------------------------------------
  // __generate_fracture_mesh (lines 409-458)
  // ---------------------------------------------------------------------

  /** `node_3d_to_node_2d`: the fracture nodes (the keys of `node_to_cells`,
    * hence distinct) numbered by position. */
  method Node3dTo2d(fractureNodes: seq<int>) returns (m: map<int, int>)
    requires forall a, b | 0 <= a < b < |fractureNodes| :: fractureNodes[a] != fractureNodes[b]
    ensures m.Keys == NodeSet(fractureNodes)
    ensures forall i | 0 <= i < |fractureNodes| :: m[fractureNodes[i]] == i
    ensures forall n | n in m :: 0 <= m[n] < |fractureNodes| && fractureNodes[m[n]] == n
  {
    m := map[];
    var i := 0;
    while i < |fractureNodes|
      invariant 0 <= i <= |fractureNodes|
      invariant m.Keys == NodeSet(fractureNodes[..i])
      invariant forall i' | 0 <= i' < i :: m[fractureNodes[i']] == i'
      invariant forall n | n in m :: 0 <= m[n] < i && fractureNodes[m[n]] == n
    {
      assert fractureNodes[..i + 1] == fractureNodes[..i] + [fractureNodes[i]];
      NodeSetAppend(fractureNodes[..i], fractureNodes[i]);
      m := m[fractureNodes[i] := i];
      i := i + 1;
    }
    assert fractureNodes[..|fractureNodes|] == fractureNodes;
  }

  /** Every node of the fracture faces has a 2d number. */
  predicate AllNodesNumbered(faceNodes: seq<seq<int>>, m: map<int, int>) {
    forall f, k | 0 <= f < |faceNodes| && 0 <= k < |faceNodes[f]| :: faceNodes[f][k] in m
  }

  /** The polygons of the fracture mesh: each fracture face with its nodes
    * renumbered; a node without a number is a `KeyError`. */
  method BuildPolygons(faceNodes: seq<seq<int>>, m: map<int, int>) returns (r: Result<seq<seq<int>>>)
    ensures r.Err? <==> !AllNodesNumbered(faceNodes, m)
    ensures r.Ok? ==> |r.value| == |faceNodes| && forall f | 0 <= f < |faceNodes| ::
      |r.value[f]| == |faceNodes[f]| && forall k | 0 <= k < |faceNodes[f]| :: r.value[f][k] == m[faceNodes[f][k]]
  {
    var polygons: seq<seq<int>> := [];
    var f := 0;
    while f < |faceNodes|
      invariant 0 <= f <= |faceNodes|
      invariant |polygons| == f
      invariant forall f', k | 0 <= f' < f && 0 <= k < |faceNodes[f']| :: faceNodes[f'][k] in m
      invariant forall f' | 0 <= f' < f ::
        |polygons[f']| == |faceNodes[f']| && forall k | 0 <= k < |faceNodes[f']| :: polygons[f'][k] == m[faceNodes[f'][k]]
    {
      var ns := faceNodes[f];
      var polygon: seq<int> := [];
      var k := 0;
      while k < |ns|
        invariant 0 <= k <= |ns|
        invariant |polygon| == k
        invariant forall k' | 0 <= k' < k :: ns[k'] in m && polygon[k'] == m[ns[k']]
      {
        if ns[k] !in m {
          return Err("KeyError: a fracture face node is not a fracture node");
        }
        polygon := polygon + [m[ns[k]]];
        k := k + 1;
      }
      polygons := polygons + [polygon];
      f := f + 1;
    }
    r := Ok(polygons);
  }

  /** Numbered by `Node3dTo2d`, a polygon lists positions in the fracture
    * node list, and reading those positions back gives the face's own
    * nodes. */
  lemma PolygonsMapBack(fractureNodes: seq<int>, m: map<int, int>, faceNodes: seq<seq<int>>, polygons: seq<seq<int>>)
    requires forall n | n in m :: 0 <= m[n] < |fractureNodes| && fractureNodes[m[n]] == n
    requires AllNodesNumbered(faceNodes, m)
    requires |polygons| == |faceNodes| && forall f | 0 <= f < |faceNodes| ::
      |polygons[f]| == |faceNodes[f]| && forall k | 0 <= k < |faceNodes[f]| :: polygons[f][k] == m[faceNodes[f][k]]
    ensures forall f, k | 0 <= f < |polygons| && 0 <= k < |polygons[f]| ::
      0 <= polygons[f][k] < |fractureNodes| && fractureNodes[polygons[f][k]] == faceNodes[f][k]
  {
    forall f, k | 0 <= f < |polygons| && 0 <= k < |polygons[f]|
      ensures 0 <= polygons[f][k] < |fractureNodes| && fractureNodes[polygons[f][k]] == faceNodes[f][k]
    {
      var n := faceNodes[f][k];
      assert n in m && polygons[f][k] == m[n];
    }
  }

  function Min(a: int, b: int): int {
    if a <= b then a else b
  }

  /** Each replacement's smaller end has a 2d number (`node_3d_to_node_2d[min(i, o)]`). */
  predicate BucketKeysKnown(mapping: map<int, map<int, int>>, m: map<int, int>) {
    forall c, i | c in mapping && i in mapping[c] :: Min(i, mapping[c][i]) in m
  }

  /** The 2d node a replacement `i -> o` is filed under. */
  function BucketKey(mapping: map<int, map<int, int>>, m: map<int, int>, c: int, i: int): int
    requires c in mapping && i in mapping[c] && Min(i, mapping[c][i]) in m
  {
    m[Min(i, mapping[c][i])]
  }

  /** `buckets[k]`: both ends of every replacement filed under `k`. */
  function Bucket(mapping: map<int, map<int, int>>, m: map<int, int>, k: int): set<int>
    requires BucketKeysKnown(mapping, m)
  {
    (set c, i | c in mapping && i in mapping[c] && BucketKey(mapping, m, c, i) == k :: i) +
    (set c, i | c in mapping && i in mapping[c] && BucketKey(mapping, m, c, i) == k :: mapping[c][i])
  }

  /** The keys of `buckets`. */
  function BucketKeys(mapping: map<int, map<int, int>>, m: map<int, int>): set<int>
    requires BucketKeysKnown(mapping, m)
  {
    set c, i | c in mapping && i in mapping[c] :: BucketKey(mapping, m, c, i)
  }

  /** Both ends of every replacement `(c, i)` with `c` outside `pending` are
    * in the bucket they are filed under. */
  ghost predicate FiledAll(mapping: map<int, map<int, int>>, m: map<int, int>, buckets: map<int, set<int>>, pending: set<int>)
    requires BucketKeysKnown(mapping, m)
  {
    forall c, i | c in mapping && i in mapping[c] && c !in pending ::
      var k := BucketKey(mapping, m, c, i); k in buckets && i in buckets[k] && mapping[c][i] in buckets[k]
  }

  /** `buckets` holds nothing that is not in the buckets of the specification. */
  ghost predicate FiledOnly(mapping: map<int, map<int, int>>, m: map<int, int>, buckets: map<int, set<int>>)
    requires BucketKeysKnown(mapping, m)
  {
    buckets.Keys <= BucketKeys(mapping, m) && forall k | k in buckets :: buckets[k] <= Bucket(mapping, m, k)
  }

  /** The inner loop of the `buckets` construction, over the replacements of
    * cell `c`; `None` is the `KeyError` of an end without a 2d number. */
  method FileCell(mapping: map<int, map<int, int>>, m: map<int, int>, buckets: map<int, set<int>>, c: int)
    returns (r: Option<map<int, set<int>>>)
    requires c in mapping
    ensures r.None? ==> exists i | i in mapping[c] :: Min(i, mapping[c][i]) !in m
    ensures r.Some? ==> forall i | i in mapping[c] :: Min(i, mapping[c][i]) in m
    ensures r.Some? && BucketKeysKnown(mapping, m) ==>
      && (FiledOnly(mapping, m, buckets) ==> FiledOnly(mapping, m, r.value))
      && (forall i | i in mapping[c] ::
            var k := BucketKey(mapping, m, c, i); k in r.value && i in r.value[k] && mapping[c][i] in r.value[k])
      && (forall k | k in buckets :: k in r.value && buckets[k] <= r.value[k])
  {
    var nodeMapping := mapping[c];
    var b := buckets;
    var keys := nodeMapping.Keys;
    while keys != {}
      invariant keys <= nodeMapping.Keys
      invariant forall i | i in nodeMapping && i !in keys :: Min(i, nodeMapping[i]) in m
      invariant BucketKeysKnown(mapping, m) ==>
        && (FiledOnly(mapping, m, buckets) ==> FiledOnly(mapping, m, b))
        && (forall i | i in nodeMapping && i !in keys ::
              var k := BucketKey(mapping, m, c, i); k in b && i in b[k] && nodeMapping[i] in b[k])
        && (forall k | k in buckets :: k in b && buckets[k] <= b[k])
      decreases keys
    {
      PickableFromNonEmpty(keys);
      var i :| i in keys;
      var o := nodeMapping[i];
      if Min(i, o) !in m {
        return None;
      }
      var k := m[Min(i, o)];
      var bucket := if k in b then b[k] else {};
      b := b[k := bucket + {i, o}];
      keys := keys - {i};
    }
    r := Some(b);
  }

  /** Once every replacement is filed, `buckets` is exactly the specified one. */
  lemma BucketsComplete(mapping: map<int, map<int, int>>, m: map<int, int>, buckets: map<int, set<int>>)
    requires BucketKeysKnown(mapping, m)
    requires FiledOnly(mapping, m, buckets) && FiledAll(mapping, m, buckets, {})
    ensures buckets.Keys == BucketKeys(mapping, m)
    ensures forall k | k in buckets :: buckets[k] == Bucket(mapping, m, k)
  {
    forall k | k in BucketKeys(mapping, m)
      ensures k in buckets
    {
      var c, i :| c in mapping && i in mapping[c] && BucketKey(mapping, m, c, i) == k;
    }
    forall k | k in buckets
      ensures buckets[k] == Bucket(mapping, m, k)
    {
      forall x | x in Bucket(mapping, m, k)
        ensures x in buckets[k]
      {
        var c, i :| c in mapping && i in mapping[c] && BucketKey(mapping, m, c, i) == k && (x == i || x == mapping[c][i]);
      }
    }
  }

  /** The `buckets` loop, over the cells and their replacements in dictionary
    * order; an end without a 2d number is a `KeyError`. */
  method BuildBuckets(mapping: map<int, map<int, int>>, m: map<int, int>) returns (r: Result<map<int, set<int>>>)
    ensures r.Err? <==> !BucketKeysKnown(mapping, m)
    ensures r.Ok? ==> r.value.Keys == BucketKeys(mapping, m)
    ensures r.Ok? ==> forall k | k in r.value :: r.value[k] == Bucket(mapping, m, k)
  {
    var buckets: map<int, set<int>> := map[];
    var cells := mapping.Keys;
    while cells != {}
      invariant cells <= mapping.Keys
      invariant forall c, i | c in mapping && c !in cells && i in mapping[c] :: Min(i, mapping[c][i]) in m
      invariant BucketKeysKnown(mapping, m) ==> FiledOnly(mapping, m, buckets) && FiledAll(mapping, m, buckets, cells)
      decreases cells
    {
      PickableFromNonEmpty(cells);
      var c :| c in cells;
      var filed := FileCell(mapping, m, buckets, c);
      if filed.None? {
        return Err("KeyError: a split node is not a fracture node");
      }
      buckets := filed.value;
      cells := cells - {c};
    }
    BucketsComplete(mapping, m, buckets);
    r := Ok(buckets);
  }

  /** With every original node below `numPoints` and every new index at or
    * above it, each point lies in a single bucket: a node in the bucket of
    * its own 2d number, a duplicate in the bucket of the node it copies. */
  lemma BucketsPartitionPoints(numPoints: int, mapping: map<int, map<int, int>>, m: map<int, int>)
    requires BucketKeysKnown(mapping, m) && Consistent(mapping)
    requires forall c, i | c in mapping && i in mapping[c] ::
      0 <= i < numPoints && (mapping[c][i] == i || mapping[c][i] >= numPoints)
    ensures forall k, x | x in Bucket(mapping, m, k) && x < numPoints :: x in m && k == m[x]
    ensures forall k, c, i | Moves(mapping, c, i) && mapping[c][i] in Bucket(mapping, m, k) :: i in m && k == m[i]
  {
    forall k, x | x in Bucket(mapping, m, k) && x < numPoints
      ensures x in m && k == m[x]
    {
      var c, i :| c in mapping && i in mapping[c] && BucketKey(mapping, m, c, i) == k && (x == i || x == mapping[c][i]);
    }
    forall k, c, i | Moves(mapping, c, i) && mapping[c][i] in Bucket(mapping, m, k)
      ensures i in m && k == m[i]
    {
      var o := mapping[c][i];
      var c', i' :| c' in mapping && i' in mapping[c'] && BucketKey(mapping, m, c', i') == k && (o == i' || o == mapping[c'][i']);
      assert Moves(mapping, c', i');
    }
  }

  /** A set listed once each element, in the order a set iterates. */
  method EnumerateSet(s: set<int>) returns (xs: seq<int>)
    ensures NodeSet(xs) == s && |xs| == |s|
    ensures forall a, b | 0 <= a < b < |xs| :: xs[a] != xs[b]
  {
    xs := [];
    var rest := s;
    while rest != {}
      invariant NodeSet(xs) + rest == s && NodeSet(xs) !! rest
      invariant |xs| + |rest| == |s|
      invariant forall a, b | 0 <= a < b < |xs| :: xs[a] != xs[b]
      decreases rest
    {
      PickableFromNonEmpty(rest);
      var x :| x in rest;
      NodeSetAppend(xs, x);
      xs := xs + [x];
      rest := rest - {x};
    }
  }

  /** A row of the fracture's `collocated_nodes` array: the bucket's entries,
    * each once, then -1 up to `width`. */
  ghost predicate PaddedRow(row: seq<int>, bucket: set<int>, width: int) {
    && |bucket| <= |row| == width
    && NodeSet(row[..|bucket|]) == bucket
    && (forall a, b | 0 <= a < b < |bucket| :: row[a] != row[b])
    && (forall j | |bucket| <= j < width :: row[j] == -1)
  }

  /** The bucket keys are exactly `0..n-1`. */
  predicate KeysAreRange(buckets: map<int, set<int>>, n: nat) {
    (forall k | 0 <= k < n :: k in buckets) && (forall k | k in buckets :: 0 <= k < n)
  }

  /** `max(map(len, buckets.values()))` over the buckets `0..n-1`. */
  function MaxBucketSize(buckets: map<int, set<int>>, n: nat): (r: nat)
    requires forall k | 0 <= k < n :: k in buckets
    ensures forall k | 0 <= k < n :: |buckets[k]| <= r
    ensures n > 0 ==> exists k | 0 <= k < n :: |buckets[k]| == r
    ensures n == 0 ==> r == 0
  {
    if n == 0 then 0
    else
      var r := MaxBucketSize(buckets, n - 1);
      if |buckets[n - 1]| > r then |buckets[n - 1]| else r
  }

  /** The `collocated_nodes` array of the fracture mesh: the buckets must be
    * exactly `0..num_points-1` (the `assert`) and not none (`max` of nothing);
    * row `i` lists bucket `i` padded with -1 to the largest bucket size. */
  method CollocatedTable(buckets: map<int, set<int>>, numPoints: nat) returns (r: Result<seq<seq<int>>>)
    ensures r.Err? <==> !KeysAreRange(buckets, numPoints) || numPoints == 0
    ensures r.Ok? ==> |r.value| == numPoints
    ensures r.Ok? ==> forall i | 0 <= i < numPoints ::
      PaddedRow(r.value[i], buckets[i], MaxBucketSize(buckets, numPoints))
  {
    if !KeysAreRange(buckets, numPoints) {
      return Err("assertion failed: the buckets are not the fracture nodes");
    }
    if numPoints == 0 {
      return Err("ValueError: max() arg is an empty sequence");
    }
    var width := 0;
    var k := 0;
    while k < numPoints
      invariant 0 <= k <= numPoints
      invariant width == MaxBucketSize(buckets, k)
    {
      if |buckets[k]| > width {
        width := |buckets[k]|;
      }
      k := k + 1;
    }
    var table: seq<seq<int>> := seq(numPoints, _ => seq(width, _ => -1));
    var i := 0;
    while i < numPoints
      invariant 0 <= i <= numPoints
      invariant |table| == numPoints
      invariant forall t | 0 <= t < i :: PaddedRow(table[t], buckets[t], width)
    {
      var xs := EnumerateSet(buckets[i]);
      var row := xs + seq(width - |xs|, _ => -1);
      assert row[..|xs|] == xs;
      table := table[i := row];
      i := i + 1;
    }
    r := Ok(table);
  }

  lemma {:induction false} ValidIdsOfPadding(xs: seq<int>, n: nat)
    ensures FaceBlockUtilities.ValidIds(xs + seq(n, _ => -1)) == FaceBlockUtilities.ValidIds(xs)
  {
    if n > 0 {
      var s := xs + seq(n, _ => -1);
      assert s[..|s| - 1] == xs + seq(n - 1, _ => -1);
      ValidIdsOfPadding(xs, n - 1);
    } else {
      assert xs + seq(n, _ => -1) == xs;
    }
  }

  lemma {:induction false} ValidIdsOfValid(xs: seq<int>)
    requires forall j | 0 <= j < |xs| :: xs[j] > -1
    ensures FaceBlockUtilities.ValidIds(xs) == xs
  {
    if |xs| > 0 {
      ValidIdsOfValid(xs[..|xs| - 1]);
      assert xs == xs[..|xs| - 1] + [xs[|xs| - 1]];
    }
  }

  /** What the fracture splitter writes, the fracture-mesh import reads back:
    * `CollocatedNodes::init` recovers from each row exactly the bucket's
    * entries, each once, when they are all valid ids (`>= 0`). */
  lemma CollocatedRowsReadBack(row: seq<int>, bucket: set<int>, width: int)
    requires PaddedRow(row, bucket, width)
    requires forall x | x in bucket :: x >= 0
    ensures FaceBlockUtilities.ValidIds(row) == row[..|bucket|]
    ensures NodeSet(FaceBlockUtilities.ValidIds(row)) == bucket && |FaceBlockUtilities.ValidIds(row)| == |bucket|
  {
    var xs := row[..|bucket|];
    assert row == xs + seq(width - |bucket|, _ => -1);
    ValidIdsOfPadding(xs, width - |bucket|);
    forall j | 0 <= j < |xs|
      ensures xs[j] > -1
    {
      assert xs[j] in NodeSet(xs);
    }
    ValidIdsOfValid(xs);
  }
}
