/** A thread's spaces (pycore_retrace.h:200-299, 592-626): a circular list that starts with the root
    space held inline in the thread and is entered at its last node. */
module SpaceRing {
  import opened CoordinateMachine

  class SpaceNode {
    const id: SpaceId
    var root: nat
    var seen: bool
    var depth: nat
    var deltaRoot: DeltaRoot
    var next: SpaceNode?

    constructor (id: SpaceId)
      ensures this.id == id && Record() == FRESH_SPACE && next == this
    {
      this.id, root, seen, depth, deltaRoot, next := id, 0, false, 0, NoDelta, this;
    }

    ghost function Record(): SpaceRec
      reads this
    {
      SpaceRec(seen, depth, root, deltaRoot)
    }
  }

  ghost predicate DistinctIds(ring: seq<SpaceNode>) {
    forall i, j :: 0 <= i < j < |ring| ==> ring[i].id != ring[j].id
  }

  /** The node after position i, going round. */
  ghost function Later(ring: seq<SpaceNode>, i: nat): SpaceNode
    requires i < |ring|
  {
    if i == |ring| - 1 then ring[0] else ring[i + 1]
  }

  predicate Owned(nodes: map<SpaceId, SpaceNode>, node: SpaceNode) {
    node.id in nodes && nodes[node.id] == node
  }

  class Spaces {
    const root: SpaceNode
    var last: SpaceNode
    ghost var ring: seq<SpaceNode>
    /** The map from space ids to nodes that the list stands for. */
    ghost var nodes: map<SpaceId, SpaceNode>

    /** The nodes, in list order: the root first, each linked to the next and the last to the root. */
    ghost predicate Valid()
      reads this, ring`next
    {
      && ring != [] && ring[0] == root && ring[|ring| - 1] == last && DistinctIds(ring)
      && (forall i {:trigger Later(ring, i)} :: 0 <= i < |ring| ==> ring[i].next == Later(ring, i))
      && (forall node :: node in ring ==> Owned(nodes, node))
      && (forall id :: id in nodes ==> nodes[id].id == id && nodes[id] in ring)
    }

    constructor (rootId: SpaceId)
      ensures Valid() && ring == [root] && root.id == rootId && fresh(root) && root.Record() == FRESH_SPACE
      ensures nodes == map[rootId := root]
    {
      var node := new SpaceNode(rootId);
      root, last, ring, nodes := node, node, [node], map[rootId := node];
    }

    /** Walks the list once round; agrees with the map. */
    method Find(id: SpaceId) returns (node: SpaceNode?)
      requires Valid()
      ensures if id in nodes then node == nodes[id] else node == null
    {
      assert last.next == Later(ring, |ring| - 1);
      node := last.next;
      ghost var i: nat := 0;
      while true
        invariant i < |ring| && node == ring[i]
        invariant forall j :: 0 <= j < i ==> ring[j].id != id
        decreases |ring| - i
      {
        assert Owned(nodes, node);
        if node.id == id {
          return;
        }
        if node == last {
          assert i == |ring| - 1;
          return null;
        }
        assert node.next == Later(ring, i);
        node, i := node.next, i + 1;
      }
    }

    method Owns(candidate: SpaceNode?) returns (owned: bool)
      requires Valid()
      ensures owned <==> candidate == null || Owned(nodes, candidate)
    {
      if candidate == null {
        return true;
      }
      assert last.next == Later(ring, |ring| - 1);
      var node := last.next;
      ghost var i: nat := 0;
      while true
        invariant i < |ring| && node == ring[i]
        invariant forall j :: 0 <= j < i ==> ring[j] != candidate
        decreases |ring| - i
      {
        assert Owned(nodes, node);
        if node == candidate {
          return true;
        }
        if node == last {
          assert i == |ring| - 1;
          return false;
        }
        assert node.next == Later(ring, i);
        node, i := node.next, i + 1;
      }
    }

    /** Finds a node or links a fresh one after the last; no node already there moves. */
    method Get(id: SpaceId) returns (node: SpaceNode)
      requires Valid()
      modifies this`last, this`ring, this`nodes, last`next
      ensures Valid() && old(ring) <= ring
      ensures id in old(nodes) ==> node == old(nodes)[id] && ring == old(ring) && nodes == old(nodes)
      ensures id !in old(nodes) ==>
                && fresh(node) && node.id == id && node.Record() == FRESH_SPACE
                && nodes == old(nodes)[id := node] && ring == old(ring) + [node]
    {
      var found := Find(id);
      if found != null {
        return found;
      }
      node := new SpaceNode(id);
      Append(node);
    }

    /** Links a node that is not in the list after the last. */
    method Append(node: SpaceNode)
      requires Valid() && node !in ring && node.id !in nodes
      modifies this`last, this`ring, this`nodes, last`next, node`next
      ensures Valid() && ring == old(ring) + [node] && nodes == old(nodes)[node.id := node]
    {
      forall i | 0 <= i < |ring|
        ensures ring[i].id != node.id
      {
        assert ring[i] in ring;
      }
      assert last.next == Later(ring, |ring| - 1);
      node.next := last.next;
      last.next := node;
      ghost var longer := ring + [node];
      assert forall i {:trigger Later(longer, i)} :: 0 <= i < |ring| - 1 ==> Later(longer, i) == Later(ring, i);
      last := node;
      ring, nodes := longer, nodes[node.id := node];
    }

    /** Frees every node but the root, each exactly once and in order, and leaves the root alone. */
    method Clear() returns (freed: seq<SpaceNode>)
      requires Valid()
      modifies this`last, this`ring, this`nodes, root`next
      ensures Valid() && ring == [root] && nodes == map[root.id := root] && freed == old(ring)[1..]
    {
      freed := [];
      assert root.next == Later(ring, 0);
      var node := root.next;
      ghost var i: nat := 1;
      while node != root
        invariant 1 <= i <= |ring| && ring == old(ring)
        invariant node == if i == |ring| then root else ring[i]
        invariant freed == ring[1..i]
        decreases |ring| - i
      {
        assert node.next == Later(ring, i);
        var next := node.next;
        freed := freed + [node];
        node := next;
        i := i + 1;
      }
      assert i == |ring|;
      root.next := root;
      last := root;
      ring, nodes := [root], map[root.id := root];
    }
  }
}
