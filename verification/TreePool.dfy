/** create_tree, re_dfa_add_node and duplicate_tree on the pool of tree nodes. */
module TreePool {
  import opened Language
  import opened Analyze
  import opened TreeLanguage

  /** The number of the CONCAT type, which duplicate_tree stores where no node index is needed. */
  const CONCAT_CODE := 16

  /** `q` is NULL or the root of a tree of the pool. */
  predicate IsRoot(pool: seq<BinTree>, q: int) {
    q == NULL || (0 <= q < |pool| && pool[q].parent == NULL)
  }

  function SetParent(pool: seq<BinTree>, q: int, p: int): seq<BinTree>
    requires q == NULL || 0 <= q < |pool|
  {
    if q == NULL then pool else pool[q := pool[q].(parent := p)]
  }

  /** The pool after create_tree. */
  function Attach(pool: seq<BinTree>, left: int, right: int, typ: TreeType, idx: int): (r: seq<BinTree>)
    requires IsRoot(pool, left) && IsRoot(pool, right)
    ensures |r| == |pool| + 1
  {
    var p := |pool|;
    SetParent(SetParent(pool, left, p), right, p) + [BinTree(NULL, left, right, typ, idx, -1, -1)]
  }

  /** The attributes are not computed before the whole tree is there. */
  ghost predicate Fresh(pool: seq<BinTree>) {
    forall p :: 0 <= p < |pool| ==> pool[p].first == -1 && pool[p].next == -1
  }

  /** No entry of the pool uses node `idx`. */
  ghost predicate Unused(pool: seq<BinTree>, idx: int) {
    forall p :: 0 <= p < |pool| && pool[p].typ == NonType ==> pool[p].nodeIdx != idx
  }

  /** The children that create_tree is given fit the type of the new entry. */
  ghost predicate ShapeOk(nodes: seq<Node>, left: int, right: int, typ: TreeType, idx: int) {
    && (left == NULL || left != right)
    && if typ == Concat then left != NULL && right != NULL
       else
         && 0 <= idx < |nodes|
         && (nodes[idx].IsDup() ==> left != NULL && right == NULL)
         && (!nodes[idx].IsDup() && nodes[idx] != AltOp ==> left == NULL && right == NULL)
  }

  lemma AttachForest(pool: seq<BinTree>, nodes: seq<Node>, left: int, right: int, typ: TreeType, idx: int)
    requires Forest(pool, nodes) && IsRoot(pool, left) && IsRoot(pool, right) && ShapeOk(nodes, left, right, typ, idx)
    requires typ == NonType ==> Unused(pool, idx)
    ensures Forest(Attach(pool, left, right, typ, idx), nodes)
  {
    var after := Attach(pool, left, right, typ, idx);
    forall p | 0 <= p < |after|
      ensures EntryOk(after, nodes, p)
    {
      if p < |pool| {
        OldEntryOk(pool, nodes, left, right, typ, idx, p);
      } else {
        NewEntryOk(pool, nodes, left, right, typ, idx);
      }
    }
  }

  lemma OldEntryOk(pool: seq<BinTree>, nodes: seq<Node>, left: int, right: int, typ: TreeType, idx: int, p: nat)
    requires Forest(pool, nodes) && IsRoot(pool, left) && IsRoot(pool, right) && p < |pool|
    requires typ == NonType ==> Unused(pool, idx)
    ensures EntryOk(Attach(pool, left, right, typ, idx), nodes, p)
  {
    assert EntryOk(pool, nodes, p);
  }

  lemma NewEntryOk(pool: seq<BinTree>, nodes: seq<Node>, left: int, right: int, typ: TreeType, idx: int)
    requires Forest(pool, nodes) && IsRoot(pool, left) && IsRoot(pool, right) && ShapeOk(nodes, left, right, typ, idx)
    requires typ == NonType ==> Unused(pool, idx)
    ensures EntryOk(Attach(pool, left, right, typ, idx), nodes, |pool|)
  {
  }

  /** Two pools agree on everything below `n` that makes up a tree. */
  ghost predicate Agree(pool: seq<BinTree>, pool': seq<BinTree>, n: nat) {
    && n <= |pool| && n <= |pool'|
    && forall p :: 0 <= p < n ==> pool'[p].(parent := pool[p].parent) == pool[p]
  }

  lemma {:induction false} TreeOfAgrees(pool: seq<BinTree>, nodes: seq<Node>, pool': seq<BinTree>, nodes': seq<Node>,
                                        p: int)
    requires Forest(pool, nodes) && Forest(pool', nodes') && nodes <= nodes'
    requires NULL <= p && Agree(pool, pool', p + 1)
    ensures TreeOf(pool', nodes', p) == TreeOf(pool, nodes, p)
    decreases p + 1
  {
    if p != NULL {
      assert EntryOk(pool, nodes, p) && EntryOk(pool', nodes', p);
      TreeOfAgrees(pool, nodes, pool', nodes', pool[p].left);
      TreeOfAgrees(pool, nodes, pool', nodes', pool[p].right);
    }
  }

  /** The tree value of the new entry. */
  ghost function NewTree(nodes: seq<Node>, l: Tree, r: Tree, typ: TreeType, idx: int): Tree
    requires typ == NonType ==> 0 <= idx < |nodes|
  {
    if typ == Concat then Cat(l, r)
    else if nodes[idx] == AltOp then Alt(idx, l, r)
    else if nodes[idx].IsDup() then Dup(idx, nodes[idx], l)
    else Leaf(idx, nodes[idx])
  }

  /** What parsing a part of the pattern may do to the pool: old entries keep everything but, in the
      case of the operand `arg`, their parent; new entries use new nodes. */
  ghost predicate Grows(pool: seq<BinTree>, nodes: seq<Node>, pool': seq<BinTree>, nodes': seq<Node>, arg: int) {
    && |pool| <= |pool'| && nodes <= nodes'
    && (forall p :: 0 <= p < |pool| && p != arg ==> pool'[p] == pool[p])
    && Agree(pool, pool', |pool|)
    && (forall p :: |pool| <= p < |pool'| && pool'[p].typ == NonType ==> pool'[p].nodeIdx >= |nodes|)
  }

  lemma GrowsTwice(pool: seq<BinTree>, nodes: seq<Node>, pool1: seq<BinTree>, nodes1: seq<Node>, arg1: int,
                   pool2: seq<BinTree>, nodes2: seq<Node>, arg2: int, arg: int)
    requires Grows(pool, nodes, pool1, nodes1, arg1) && Grows(pool1, nodes1, pool2, nodes2, arg2)
    requires (arg1 == arg || arg1 == NULL || arg1 >= |pool|) && (arg2 == arg || arg2 == NULL || arg2 >= |pool|)
    ensures Grows(pool, nodes, pool2, nodes2, arg)
  {
  }

  lemma AttachGrows(pool0: seq<BinTree>, nodes0: seq<Node>, pool: seq<BinTree>, nodes: seq<Node>, nodes': seq<Node>,
                    arg: int,
                    left: int, right: int, typ: TreeType, idx: int)
    requires Grows(pool0, nodes0, pool, nodes, arg) && nodes <= nodes'
    requires IsRoot(pool, left) && IsRoot(pool, right)
    requires left == NULL || left == arg || left >= |pool0|
    requires right == NULL || right == arg || right >= |pool0|
    requires typ == NonType ==> idx >= |nodes0|
    ensures Grows(pool0, nodes0, Attach(pool, left, right, typ, idx), nodes', arg)
  {
  }

  lemma GrowsNot(pool: seq<BinTree>, nodes: seq<Node>)
    ensures Grows(pool, nodes, pool, nodes, NULL)
  {
  }

  /** Trees that were there before keep their value. */
  lemma GrowsKeepsTree(pool: seq<BinTree>, nodes: seq<Node>, pool': seq<BinTree>, nodes': seq<Node>, arg: int, p: int)
    requires Forest(pool, nodes) && Forest(pool', nodes') && Grows(pool, nodes, pool', nodes', arg) &&
              NULL <= p < |pool|
    ensures TreeOf(pool', nodes', p) == TreeOf(pool, nodes, p)
  {
    TreeOfAgrees(pool, nodes, pool', nodes', p);
  }

  /** A bracket accepts at least one byte. */
  predicate AcceptsSome(node: Node) {
    node.SimpleBracket? ==> node.sbcset != {}
  }

  class Pool {
    var nodes: seq<Node>
    var pool: seq<BinTree>
    /** Whether every bracket of the pattern is known to accept something. */
    ghost const strict: bool

    ghost predicate Valid()
      reads this
    {
      Forest(pool, nodes) && Fresh(pool) && forall i :: 0 <= i < |nodes| ==> Admits(nodes[i])
    }

    ghost predicate Admits(node: Node) {
      strict ==> AcceptsSome(node)
    }

    ghost function Tree(p: int): Tree
      requires Valid() && NULL <= p < |pool|
      reads this
    {
      TreeOf(pool, nodes, p)
    }

    constructor (ghost strict: bool)
      ensures Valid() && nodes == [] && pool == [] && this.strict == strict
    {
      nodes, pool := [], [];
      this.strict := strict;
    }

    /** re_dfa_add_node */
    method AddNode(node: Node) returns (idx: nat)
      requires Valid() && Admits(node)
      modifies `nodes
      ensures Valid() && nodes == old(nodes) + [node] && idx == |old(nodes)|
      ensures Unused(pool, idx)
      ensures forall p :: NULL <= p < |pool| ==> Tree(p) == old(Tree(p))
    {
      idx := |nodes|;
      nodes := nodes + [node];
      forall p | 0 <= p < |pool|
        ensures EntryOk(pool, nodes, p)
      {
        assert EntryOk(pool, old(nodes), p);
      }
      forall p | 0 <= p < |pool| && pool[p].typ == NonType
        ensures pool[p].nodeIdx != idx
      {
        assert EntryOk(pool, old(nodes), p);
      }
      forall p | NULL <= p < |pool|
        ensures Tree(p) == old(Tree(p))
      {
        TreeOfAgrees(pool, old(nodes), pool, nodes, p);
      }
    }

    /** create_tree */
    method CreateTree(left: int, right: int, typ: TreeType, idx: int) returns (t: nat)
      requires Valid() && IsRoot(pool, left) && IsRoot(pool, right) && ShapeOk(nodes, left, right, typ, idx)
      requires typ == NonType ==> Unused(pool, idx)
      modifies `pool
      ensures Valid() && pool == Attach(old(pool), left, right, typ, idx) && t == |old(pool)|
      ensures IsRoot(pool, t) && Tree(t) == NewTree(nodes, old(Tree(left)), old(Tree(right)), typ, idx)
      ensures forall p :: NULL <= p < t ==> Tree(p) == old(Tree(p))
    {
      ghost var before := pool;
      AttachForest(pool, nodes, left, right, typ, idx);
      t := |pool|;
      if left != NULL {
        pool := pool[left := pool[left].(parent := t)];
      }
      if right != NULL {
        pool := pool[right := pool[right].(parent := t)];
      }
      pool := pool + [BinTree(NULL, left, right, typ, idx, -1, -1)];
      forall p | NULL <= p < t
        ensures TreeOf(pool, nodes, p) == TreeOf(before, nodes, p)
      {
        TreeOfAgrees(before, nodes, pool, nodes, p);
      }
      assert EntryOk(pool, nodes, t);
    }

    /** duplicate_tree: a copy of the tree at `src` made of new nodes. */
    method DuplicateTree(src: nat) returns (t: nat)
      requires Valid() && src < |pool|
      modifies this
      ensures Valid() && Grows(old(pool), old(nodes), pool, nodes, NULL)
      ensures |old(pool)| <= t < |pool| && IsRoot(pool, t) && Same(old(Tree(src)), Tree(t))
      decreases src + 1, 0
    {
      ghost var pool0, nodes0 := pool, nodes;
      assert EntryOk(pool, nodes, src);
      var e := pool[src];
      var left := DuplicateChild(e.left);
      GrowsKeepsTree(pool0, nodes0, pool, nodes, NULL, e.right);
      ghost var pool1, nodes1 := pool, nodes;
      var right := DuplicateChild(e.right);
      GrowsTwice(pool0, nodes0, pool1, nodes1, NULL, pool, nodes, NULL, NULL);
      GrowsKeepsTree(pool1, nodes1, pool, nodes, NULL, left);
      ghost var pool2, nodes2 := pool, nodes;
      t := DuplicateEntry(e, left, right);
      AttachGrows(pool0, nodes0, pool2, nodes2, nodes, NULL, left, right, e.typ, if e.typ == NonType then
          |nodes2| else CONCAT_CODE);
    }

    method DuplicateChild(child: int) returns (t: int)
      requires Valid() && NULL <= child < |pool|
      modifies this
      ensures Valid() && Grows(old(pool), old(nodes), pool, nodes, NULL)
      ensures IsRoot(pool, t) && Same(old(Tree(child)), Tree(t))
      ensures if child == NULL then t == NULL else t >= |old(pool)|
      decreases child + 1, 1
    {
      t := NULL;
      GrowsNot(pool, nodes);
      if child != NULL {
        t := DuplicateTree(child);
      }
    }

    /** The last part of duplicate_tree: the entry itself. */
    method DuplicateEntry(e: BinTree, left: int, right: int) returns (t: nat)
      requires Valid() && IsRoot(pool, left) && IsRoot(pool, right) && ShapeOk(nodes, left, right, e.typ, e.nodeIdx)
      modifies this
      ensures Valid() && t == |old(pool)| && IsRoot(pool, t) && |pool| == t + 1
      ensures nodes == old(nodes) + (if e.typ == NonType then [old(nodes)[e.nodeIdx]] else [])
      ensures pool == Attach(old(pool), left, right, e.typ, if e.typ == NonType then |old(nodes)| else CONCAT_CODE)
      ensures forall p :: NULL <= p < t ==> Tree(p) == old(Tree(p))
      ensures Tree(t) == NewTree(nodes, old(Tree(left)), old(Tree(right)), e.typ, if e.typ == NonType then
                |old(nodes)| else CONCAT_CODE)
    {
      if e.typ == NonType {
        var idx := AddNode(nodes[e.nodeIdx]);
        t := CreateTree(left, right, NonType, idx);
      } else {
        t := CreateTree(left, right, e.typ, CONCAT_CODE);
      }
    }
  }
}
