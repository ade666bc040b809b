/** The refinement lattice of the rule-learning demo: nodes carrying an id and
    a status, edges from a rule to its specialisations, and
    `pruneLatticeSubtree`, which marks every still unexplored specialisation
    below a node as pruned. */
module Lattice {

  const Unexplored: string := "unexplored"
  const Pruned: string := "pruned"

  /** A lattice node, reduced to what pruning reads and writes. */
  datatype Node = Node(id: int, status: string)

  /** An edge `[from, to]`: `to` specialises `from`. */
  type Edge = (int, int)

  /** `edges.filter(([from, to]) => from === id).map(([from, to]) => to)` */
  function Children(edges: seq<Edge>, id: int): (kids: seq<int>)
    ensures forall c :: c in kids <==> exists e :: e in edges && e.0 == id && e.1 == c
  {
    if edges == [] then []
    else
      var rest := Children(edges[1..], id);
      assert forall e :: e in edges <==> e == edges[0] || e in edges[1..];
      if edges[0].0 == id then [edges[0].1] + rest else rest
  }

  /** `nodes.find(n => n.id === id)`, as the index of the first node with
      that id. */
  function Find(nodes: seq<Node>, id: int): (k: int)
    ensures -1 <= k < |nodes|
    ensures k >= 0 ==> nodes[k].id == id && forall j :: 0 <= j < k ==> nodes[j].id != id
    ensures k < 0 ==> forall j :: 0 <= j < |nodes| ==> nodes[j].id != id
  {
    if nodes == [] then -1
    else if nodes[0].id == id then 0
    else
      var k := Find(nodes[1..], id);
      if k < 0 then -1 else k + 1
  }

  /** How many nodes are still unexplored: each prune lowers it by one. */
  function UnexploredCount(nodes: seq<Node>): nat
  {
    if nodes == [] then 0
    else (if nodes[0].status == Unexplored then 1 else 0) + UnexploredCount(nodes[1..])
  }

  /** `after` differs from `before` only in statuses, and only where an
      unexplored node became pruned. */
  predicate PrunesOnly(before: seq<Node>, after: seq<Node>)
  {
    && |after| == |before|
    && forall k :: 0 <= k < |before| ==>
         after[k].id == before[k].id
         && (after[k].status == before[k].status
             || (before[k].status == Unexplored && after[k].status == Pruned))
  }

  /** The node found for `id` (if any) is no longer unexplored: the call
      that reaches it will leave it alone. */
  predicate Settled(nodes: seq<Node>, id: int)
  {
    var k := Find(nodes, id);
    k < 0 || nodes[k].status != Unexplored
  }

  /** The `children.forEach` of `pruneLatticeSubtree`: for each child in
      turn, the first node with its id, if unexplored, is pruned and its own
      subtree is pruned before the next child is looked at. */
  function PruneChildren(nodes: seq<Node>, edges: seq<Edge>, kids: seq<int>): (r: seq<Node>)
    ensures PrunesOnly(nodes, r)
    ensures UnexploredCount(r) <= UnexploredCount(nodes)
    decreases UnexploredCount(nodes), |kids|
  {
    if kids == [] then nodes
    else
      var k := Find(nodes, kids[0]);
      if k >= 0 && nodes[k].status == Unexplored then
        var marked := nodes[k := Node(nodes[k].id, Pruned)];
        PruneOneFewer(nodes, k);
        var below := PruneChildren(marked, edges, Children(edges, kids[0]));
        var r := PruneChildren(below, edges, kids[1..]);
        PrunesOnlyTransitive(nodes, marked, below);
        PrunesOnlyTransitive(nodes, below, r);
        r
      else
        PruneChildren(nodes, edges, kids[1..])
  }

  /** `pruneLatticeSubtree(nodeId)`, on the node list. */
  function PruneSubtree(nodes: seq<Node>, edges: seq<Edge>, nodeId: int): (r: seq<Node>)
  {
    PruneChildren(nodes, edges, Children(edges, nodeId))
  }

  /** Pruning one unexplored node lowers the count by one. */
  lemma {:induction false} PruneOneFewer(nodes: seq<Node>, k: nat)
    requires k < |nodes| && nodes[k].status == Unexplored
    ensures UnexploredCount(nodes[k := Node(nodes[k].id, Pruned)]) == UnexploredCount(nodes) - 1
    decreases k
  {
    var marked := nodes[k := Node(nodes[k].id, Pruned)];
    if k > 0 {
      PruneOneFewer(nodes[1..], k - 1);
      assert marked[1..] == nodes[1..][k - 1 := Node(nodes[k].id, Pruned)];
    } else {
      assert marked[1..] == nodes[1..];
    }
  }

  lemma PrunesOnlyTransitive(a: seq<Node>, b: seq<Node>, c: seq<Node>)
    requires PrunesOnly(a, b) && PrunesOnly(b, c)
    ensures PrunesOnly(a, c)
  {
  }

  /** Pruning keeps every id in place, so `find` keeps finding the same node. */
  lemma {:induction false} FindKept(before: seq<Node>, after: seq<Node>, id: int)
    requires |after| == |before|
    requires forall k :: 0 <= k < |before| ==> after[k].id == before[k].id
    ensures Find(after, id) == Find(before, id)
    decreases |before|
  {
    if before != [] && before[0].id != id {
      FindKept(before[1..], after[1..], id);
    }
  }

  /** A settled id stays settled: a pruned or otherwise explored node never
      becomes unexplored again. */
  lemma SettledKept(before: seq<Node>, after: seq<Node>, id: int)
    requires PrunesOnly(before, after) && Settled(before, id)
    ensures Settled(after, id)
  {
    FindKept(before, after, id);
  }

  /** What the recursion guarantees: every listed child ends up settled, and
      so does every child of each node this call pruned. */
  lemma {:induction false} PruneChildrenCloses(nodes: seq<Node>, edges: seq<Edge>, kids: seq<int>)
    ensures var r := PruneChildren(nodes, edges, kids);
      && (forall c :: c in kids ==> Settled(r, c))
      && (forall k :: 0 <= k < |r| && nodes[k].status == Unexplored && r[k].status == Pruned ==>
            forall c :: c in Children(edges, r[k].id) ==> Settled(r, c))
    decreases UnexploredCount(nodes), |kids|
  {
    var r := PruneChildren(nodes, edges, kids);
    if kids != [] {
      var k := Find(nodes, kids[0]);
      if k >= 0 && nodes[k].status == Unexplored {
        var marked := nodes[k := Node(nodes[k].id, Pruned)];
        PruneOneFewer(nodes, k);
        var grand := Children(edges, kids[0]);
        var below := PruneChildren(marked, edges, grand);
        PruneChildrenCloses(marked, edges, grand);
        PruneChildrenCloses(below, edges, kids[1..]);
        assert r == PruneChildren(below, edges, kids[1..]);
        FindKept(nodes, marked, kids[0]);
        assert Settled(marked, kids[0]);
        SettledKept(marked, below, kids[0]);
        SettledKept(below, r, kids[0]);
        forall c | c in grand
          ensures Settled(r, c)
        {
          SettledKept(below, r, c);
        }
        forall j | 0 <= j < |r| && nodes[j].status == Unexplored && r[j].status == Pruned
          ensures forall c :: c in Children(edges, r[j].id) ==> Settled(r, c)
        {
          if j != k && marked[j].status == Unexplored && below[j].status == Pruned {
            forall c | c in Children(edges, r[j].id)
              ensures Settled(r, c)
            {
              SettledKept(below, r, c);
            }
          }
        }
      } else {
        PruneChildrenCloses(nodes, edges, kids[1..]);
        SettledKept(nodes, r, kids[0]);
      }
    }
  }

  /** Every child of `nodeId`, and every child of a node the call pruned,
      is left settled: the unexplored part of the subtree is pruned through. */
  lemma PruneSubtreeCloses(nodes: seq<Node>, edges: seq<Edge>, nodeId: int)
    ensures var r := PruneSubtree(nodes, edges, nodeId);
      && (forall c :: c in Children(edges, nodeId) ==> Settled(r, c))
      && (forall k :: 0 <= k < |r| && nodes[k].status == Unexplored && r[k].status == Pruned ==>
            forall c :: c in Children(edges, r[k].id) ==> Settled(r, c))
  {
    PruneChildrenCloses(nodes, edges, Children(edges, nodeId));
  }

  /** Node `j` went from unexplored in `before` to pruned in `after`. */
  predicate PrunedBetween(before: seq<Node>, after: seq<Node>, j: int)
  {
    0 <= j < |before| && j < |after| && before[j].status == Unexplored && after[j].status == Pruned
  }

  /** The converse of closure: a node the call pruned is a listed child or a
      child of another node the same call pruned, so nothing outside the
      subtree is touched. */
  lemma {:induction false} PruneChildrenSources(nodes: seq<Node>, edges: seq<Edge>, kids: seq<int>, k: int)
    requires PrunedBetween(nodes, PruneChildren(nodes, edges, kids), k)
    ensures var r := PruneChildren(nodes, edges, kids);
      r[k].id in kids
      || exists j :: PrunedBetween(nodes, r, j) && r[k].id in Children(edges, r[j].id)
    decreases UnexploredCount(nodes), |kids|
  {
    var r := PruneChildren(nodes, edges, kids);
    assert kids != [];
    var f := Find(nodes, kids[0]);
    if f >= 0 && nodes[f].status == Unexplored {
      var marked := nodes[f := Node(nodes[f].id, Pruned)];
      PruneOneFewer(nodes, f);
      var grand := Children(edges, kids[0]);
      var below := PruneChildren(marked, edges, grand);
      assert r == PruneChildren(below, edges, kids[1..]);
      if k == f {
        assert r[k].id == kids[0];
      } else if PrunedBetween(marked, below, k) {
        PruneChildrenSources(marked, edges, grand, k);
        assert r[k].id == below[k].id;
        if below[k].id in grand {
          assert PrunedBetween(nodes, r, f) && r[f].id == kids[0];
        } else {
          var j :| PrunedBetween(marked, below, j) && below[k].id in Children(edges, below[j].id);
          assert PrunedBetween(nodes, r, j) && r[j].id == below[j].id;
        }
      } else {
        PruneChildrenSources(below, edges, kids[1..], k);
        if r[k].id !in kids[1..] {
          var j :| PrunedBetween(below, r, j) && r[k].id in Children(edges, r[j].id);
          assert PrunedBetween(nodes, r, j);
        }
      }
    } else {
      PruneChildrenSources(nodes, edges, kids[1..], k);
    }
  }

  /** When every listed child is already settled, the loop changes nothing. */
  lemma {:induction false} PruneSettledNoop(nodes: seq<Node>, edges: seq<Edge>, kids: seq<int>)
    requires forall c :: c in kids ==> Settled(nodes, c)
    ensures PruneChildren(nodes, edges, kids) == nodes
    decreases |kids|
  {
    if kids != [] {
      assert kids[0] in kids;
      PruneSettledNoop(nodes, edges, kids[1..]);
    }
  }

  /** Pruning the same subtree twice prunes nothing more. */
  lemma PruneSubtreeIdempotent(nodes: seq<Node>, edges: seq<Edge>, nodeId: int)
    ensures var r := PruneSubtree(nodes, edges, nodeId);
      PruneSubtree(r, edges, nodeId) == r
  {
    PruneSubtreeCloses(nodes, edges, nodeId);
    PruneSettledNoop(PruneSubtree(nodes, edges, nodeId), edges, Children(edges, nodeId));
  }

  /** `LatticeState`: its node list, whose statuses pruning rewrites, and its
      edge list. */
  class LatticeState {
    var nodes: seq<Node>
    var edges: seq<Edge>

    constructor(nodes: seq<Node>, edges: seq<Edge>)
      ensures this.nodes == nodes && this.edges == edges
    {
      this.nodes := nodes;
      this.edges := edges;
    }

    /** `pruneLatticeSubtree(nodeId)` */
    method PruneLatticeSubtree(nodeId: int)
      modifies this
      ensures nodes == PruneSubtree(old(nodes), old(edges), nodeId)
      ensures edges == old(edges)
      decreases UnexploredCount(nodes), 1
    {
      var children := Children(edges, nodeId);
      PruneEach(children);
    }

    /** `children.forEach(...)` */
    method PruneEach(children: seq<int>)
      modifies this
      ensures nodes == PruneChildren(old(nodes), old(edges), children)
      ensures edges == old(edges)
      decreases UnexploredCount(nodes), 0
    {
      for i := 0 to |children|
        invariant edges == old(edges)
        invariant PruneChildren(old(nodes), edges, children) == PruneChildren(nodes, edges, children[i..])
        invariant UnexploredCount(nodes) <= UnexploredCount(old(nodes))
      {
        var childId := children[i];
        var k := Find(nodes, childId);
        if k >= 0 && nodes[k].status == Unexplored {
          PruneOneFewer(nodes, k);
          nodes := nodes[k := Node(nodes[k].id, Pruned)];
          PruneLatticeSubtree(childId);
        }
        assert children[i..][1..] == children[i + 1..];
      }
    }
  }
}
