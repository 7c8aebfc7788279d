/**
 * The retained nodes of the block tree (`bChain`), kept as a sequence in
 * creation order; a node refers to its parent and children by position.
 * Parent lookup by block hash, the best-tip scan, and attaching a new node.
 */
module ForkTree {
  import opened Wrappers
  import opened Ledger

  /** How far below the best tip's height a new block may still attach. */
  const CUT_OFF_AGE: int := 10

  /** A BlockNode: the block, its parent and children (positions in the
      sequence of nodes), its height, its own UTXO and transaction pools, and
      its creation stamp, taken from a strictly increasing admission counter. */
  datatype Node = Node(block: Block, parent: Option<nat>, children: seq<nat>, height: nat,
                       utxos: UTXOPool, txPool: TxPool, createdAt: nat)

  /** The position of the first node whose block hash equals `h`, if any. */
  function FindNode(nodes: seq<Node>, h: Hash): (r: Option<nat>)
    ensures r.Some? ==> r.value < |nodes| && nodes[r.value].block.hash == h
    ensures r.Some? ==> forall j | 0 <= j < r.value :: nodes[j].block.hash != h
    ensures r.None? <==> forall j | 0 <= j < |nodes| :: nodes[j].block.hash != h
  {
    if nodes == [] then None
    else if nodes[0].block.hash == h then Some(0)
    else match FindNode(nodes[1..], h)
      case None => None
      case Some(k) => Some(k + 1)
  }

  /** Node `a` is at least as good a tip as node `b`: it is taller, or equally
      tall and created no later. */
  predicate Outranks(a: Node, b: Node) {
    b.height < a.height || (b.height == a.height && a.createdAt <= b.createdAt)
  }

  /** `t` is a best tip: a node of greatest height, the earliest created among
      those. */
  predicate IsTallest(nodes: seq<Node>, t: nat) {
    t < |nodes| && forall j | 0 <= j < |nodes| :: Outranks(nodes[t], nodes[j])
  }

  /** The best-tip scan: start from the current tip and walk every node in
      order, switching to a taller node, or to an equally tall one created
      strictly earlier. */
  method SelectTallest(nodes: seq<Node>, start: nat) returns (best: nat)
    requires start < |nodes|
    ensures IsTallest(nodes, best)
    ensures IsTallest(nodes, start) ==> best == start
  {
    best := start;
    for i := 0 to |nodes|
      invariant best < |nodes|
      invariant Outranks(nodes[best], nodes[start])
      invariant forall j | 0 <= j < i :: Outranks(nodes[best], nodes[j])
      invariant IsTallest(nodes, start) ==> best == start
    {
      if nodes[i].height > nodes[best].height {
        best := i;
      } else if nodes[i].height == nodes[best].height && nodes[best].createdAt > nodes[i].createdAt {
        best := i;
      }
    }
  }

  /** Each node's creation stamp is its position: nodes are stamped by an
      admission counter in the order they are appended. */
  predicate StampedInOrder(nodes: seq<Node>) {
    forall i | 0 <= i < |nodes| :: nodes[i].createdAt == i
  }

  /** With distinct stamps there is only one best tip. */
  lemma TallestUnique(nodes: seq<Node>, a: nat, b: nat)
    requires StampedInOrder(nodes)
    requires IsTallest(nodes, a) && IsTallest(nodes, b)
    ensures a == b
  {
    assert Outranks(nodes[a], nodes[b]) && Outranks(nodes[b], nodes[a]);
  }

  /** The positions, in increasing order, of the nodes among the first `k`
      whose parent is `p`. */
  function ChildrenOf(nodes: seq<Node>, p: nat, k: nat): (r: seq<nat>)
    requires k <= |nodes|
  {
    if k == 0 then []
    else ChildrenOf(nodes, p, k - 1) + (if nodes[k - 1].parent == Some(p) then [k - 1] else [])
  }

  /** The shape of the tree: the first node is the parentless genesis node at
      height 1; every later node has an earlier parent and is one taller than
      it; each node's children are exactly the nodes naming it as parent, in
      creation order; stamps follow creation order. */
  predicate WellFormed(nodes: seq<Node>) {
    |nodes| >= 1 &&
    nodes[0].parent == None && nodes[0].height == 1 &&
    StampedInOrder(nodes) &&
    (forall i | 0 < i < |nodes| :: LinkedToParent(nodes, i)) &&
    (forall p | 0 <= p < |nodes| :: ChildrenListed(nodes, p))
  }

  /** Node `i` has an earlier parent and is one taller than it. */
  predicate LinkedToParent(nodes: seq<Node>, i: nat)
    requires i < |nodes|
  {
    nodes[i].parent.Some? && nodes[i].parent.value < i &&
    nodes[i].height == nodes[nodes[i].parent.value].height + 1
  }

  /** Node `p`'s children are the nodes naming it as parent, in creation order. */
  predicate ChildrenListed(nodes: seq<Node>, p: nat)
    requires p < |nodes|
  {
    nodes[p].children == ChildrenOf(nodes, p, |nodes|)
  }

  /** Attaching node `n`: it is added to its parent's children, then appended. */
  function Attach(nodes: seq<Node>, n: Node): (r: seq<Node>)
    requires n.parent.Some? && n.parent.value < |nodes|
  {
    var p := n.parent.value;
    nodes[p := nodes[p].(children := nodes[p].children + [|nodes|])] + [n]
  }

  /** Attaching changes no existing node except for the parent's new child:
      blocks, parents, heights, stamps and both pools stay as they were, so
      the parent's own pools are not touched by its child's admission. */
  lemma AttachKeepsNodes(nodes: seq<Node>, n: Node)
    requires n.parent.Some? && n.parent.value < |nodes|
    ensures |Attach(nodes, n)| == |nodes| + 1 && Attach(nodes, n)[|nodes|] == n
    ensures forall i | 0 <= i < |nodes| ::
      Attach(nodes, n)[i] == nodes[i].(children := Attach(nodes, n)[i].children)
    ensures Attach(nodes, n)[n.parent.value].children == nodes[n.parent.value].children + [|nodes|]
    ensures forall i | 0 <= i < |nodes| && i != n.parent.value ::
      Attach(nodes, n)[i].children == nodes[i].children
  {
  }

  /** ChildrenOf depends only on the parents of the nodes it looks at. */
  lemma {:induction false} ChildrenOfSameParents(a: seq<Node>, b: seq<Node>, p: nat, k: nat)
    requires k <= |a| && k <= |b|
    requires forall j | 0 <= j < k :: a[j].parent == b[j].parent
    ensures ChildrenOf(a, p, k) == ChildrenOf(b, p, k)
  {
    if k > 0 {
      ChildrenOfSameParents(a, b, p, k - 1);
    }
  }

  /** No node among the first `k` names `p` as parent: `p` has no children there. */
  lemma {:induction false} ChildrenOfNone(nodes: seq<Node>, p: nat, k: nat)
    requires k <= |nodes|
    requires forall j | 0 <= j < k :: nodes[j].parent != Some(p)
    ensures ChildrenOf(nodes, p, k) == []
  {
    if k > 0 {
      ChildrenOfNone(nodes, p, k - 1);
    }
  }

  /** Attaching a childless node one taller than its parent, stamped with the
      next counter value, keeps the tree well formed. */
  lemma AttachWellFormed(nodes: seq<Node>, n: Node)
    requires WellFormed(nodes)
    requires n.parent.Some? && n.parent.value < |nodes|
    requires n.height == nodes[n.parent.value].height + 1
    requires n.children == [] && n.createdAt == |nodes|
    ensures WellFormed(Attach(nodes, n))
  {
    var m, q, len := Attach(nodes, n), n.parent.value, |nodes|;
    AttachKeepsNodes(nodes, n);
    assert forall i | 0 <= i < len :: m[i].parent == nodes[i].parent && m[i].height == nodes[i].height;
    AttachChildren(nodes, n);
    assert StampedInOrder(m);
    forall i | 0 < i < |m| ensures LinkedToParent(m, i) {
      if i < len {
        assert LinkedToParent(nodes, i);
        var p := nodes[i].parent.value;
        assert m[i].height == nodes[p].height + 1;
        assert m[p].height == nodes[p].height;
      } else {
        assert m[i] == n && m[q].height == nodes[q].height;
      }
    }
    assert m[0].parent == None && m[0].height == 1;
  }

  /** The children lists after attaching: the parent gains the new node, the
      new node has none. */
  lemma AttachChildren(nodes: seq<Node>, n: Node)
    requires WellFormed(nodes)
    requires n.parent.Some? && n.parent.value < |nodes|
    requires n.children == []
    ensures forall p | 0 <= p < |Attach(nodes, n)| :: ChildrenListed(Attach(nodes, n), p)
  {
    var m, q, len := Attach(nodes, n), n.parent.value, |nodes|;
    AttachKeepsNodes(nodes, n);
    forall p | 0 <= p < |m| ensures ChildrenListed(m, p) {
      assert ChildrenListed(nodes, q);
      if p < len {
        assert ChildrenListed(nodes, p);
        ChildrenOfSameParents(m, nodes, p, len);
        assert ChildrenOf(m, p, len + 1) == ChildrenOf(m, p, len) + (if q == p then [len] else []);
      } else {
        forall j | 0 <= j < |m| ensures m[j].parent != Some(p) {
          if 0 < j < len {
            assert LinkedToParent(nodes, j);
            assert m[j].parent == nodes[j].parent;
          }
        }
        ChildrenOfNone(m, p, |m|);
      }
    }
  }

  /** After attaching `n` to a tree whose best tip is `t`, the best tip is the
      new node if it is strictly taller than `t`, and `t` otherwise: a block
      that only ties the tip does not displace it. */
  lemma TipAfterAttach(nodes: seq<Node>, t: nat, n: Node)
    requires WellFormed(nodes) && IsTallest(nodes, t)
    requires n.parent.Some? && n.parent.value < |nodes| && n.createdAt == |nodes|
    ensures IsTallest(Attach(nodes, n), if n.height > nodes[t].height then |nodes| else t)
  {
    var m := Attach(nodes, n);
    assert forall i | 0 <= i < |nodes| :: m[i].height == nodes[i].height && m[i].createdAt == nodes[i].createdAt;
  }

  /** The best tip's height never decreases when a node is attached. */
  lemma TipNeverLower(nodes: seq<Node>, t: nat, n: Node, t': nat)
    requires IsTallest(nodes, t)
    requires n.parent.Some? && n.parent.value < |nodes|
    requires IsTallest(Attach(nodes, n), t')
    ensures Attach(nodes, n)[t'].height >= nodes[t].height
  {
    assert Attach(nodes, n)[t].height == nodes[t].height;
    assert Outranks(Attach(nodes, n)[t'], Attach(nodes, n)[t]);
  }
}
