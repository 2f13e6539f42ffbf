/** analyze_tree and its helpers: the attributes "first", "next" and "edests", evaluated on demand
    over a pool of tree nodes. A pointer to a tree node is its index in the pool, NULL is -1. */
module Analyze {
  import opened Language
  import opened NfaModel

  const NULL := -1

  datatype TreeType = NonType | Concat

  /** bin_tree_t */
  datatype BinTree = BinTree(parent: int, left: int, right: int, typ: TreeType, nodeIdx: int, first: int, next: int)

  /** `q` is the id of `p`'s child or NULL, allocated before `p` and pointing back to it. */
  ghost predicate ChildOk(pool: seq<BinTree>, p: nat, q: int)
    requires p < |pool|
  {
    q == NULL || (0 <= q < p && pool[q].parent == p)
  }

  /** The pool holds a forest whose nodes point to distinct entries of `nodes`. */
  ghost predicate Forest(pool: seq<BinTree>, nodes: seq<Node>) {
    && (forall p :: 0 <= p < |pool| ==> EntryOk(pool, nodes, p))
    && (forall p, q :: 0 <= p < q < |pool| && pool[p].typ == NonType && pool[q].typ == NonType ==>
          pool[p].nodeIdx != pool[q].nodeIdx)
  }

  ghost predicate EntryOk(pool: seq<BinTree>, nodes: seq<Node>, p: nat)
    requires p < |pool|
  {
    var e := pool[p];
    && ChildOk(pool, p, e.left) && ChildOk(pool, p, e.right)
    && (e.left == NULL || e.left != e.right)
    && (e.parent == NULL || (p < e.parent < |pool| && (pool[e.parent].left == p || pool[e.parent].right == p)))
    && if e.typ == Concat then e.left != NULL && e.right != NULL
       else
         && 0 <= e.nodeIdx < |nodes|
         && var n := nodes[e.nodeIdx];
            && (n.IsDup() ==> e.left != NULL && e.right == NULL)
            && (!n.IsDup() && n != AltOp ==> e.left == NULL && e.right == NULL)
  }

  /** The tree value that hangs below pool entry `p`. */
  ghost function TreeOf(pool: seq<BinTree>, nodes: seq<Node>, p: int): Tree
    requires Forest(pool, nodes) && NULL <= p < |pool|
    decreases p + 1
  {
    if p == NULL then Null
    else
      assert EntryOk(pool, nodes, p);
      var e := pool[p];
      if e.typ == Concat then Cat(TreeOf(pool, nodes, e.left), TreeOf(pool, nodes, e.right))
      else
        var n := nodes[e.nodeIdx];
        if n == AltOp then Alt(e.nodeIdx, TreeOf(pool, nodes, e.left), TreeOf(pool, nodes, e.right))
        else if n.IsDup() then Dup(e.nodeIdx, n, TreeOf(pool, nodes, e.left))
        else Leaf(e.nodeIdx, n)
  }

  /** The pool entries of the tree below `p`. */
  ghost function Below(pool: seq<BinTree>, nodes: seq<Node>, p: int): set<int>
    requires Forest(pool, nodes) && NULL <= p < |pool|
    decreases p + 1
  {
    if p == NULL then {}
    else
      assert EntryOk(pool, nodes, p);
      {p} + Below(pool, nodes, pool[p].left) + Below(pool, nodes, pool[p].right)
  }

  lemma TreeParts(pool: seq<BinTree>, nodes: seq<Node>, p: nat)
    requires Forest(pool, nodes) && p < |pool|
    ensures var e := pool[p];
            && EntryOk(pool, nodes, p)
            && Below(pool, nodes, p) == {p} + Below(pool, nodes, e.left) + Below(pool, nodes, e.right)
            && Nodes(TreeOf(pool, nodes, p))
               == (if e.typ == NonType then {e.nodeIdx} else {})
                  + Nodes(TreeOf(pool, nodes, e.left)) + Nodes(TreeOf(pool, nodes, e.right))
  {
    assert EntryOk(pool, nodes, p);
  }

  ghost function FirstOf(pool: seq<BinTree>, nodes: seq<Node>, p: int, otherwise: int): int
    requires Forest(pool, nodes) && NULL <= p < |pool|
  {
    First(TreeOf(pool, nodes, p), otherwise)
  }

  /** The node that follows the tree at `p`, read off the chain of parents. */
  ghost function NextOf(pool: seq<BinTree>, nodes: seq<Node>, p: nat): int
    requires Forest(pool, nodes) && p < |pool|
    decreases |pool| - p
  {
    assert EntryOk(pool, nodes, p);
    var q := pool[p].parent;
    if q == NULL then NULL
    else
      assert EntryOk(pool, nodes, q);
      if pool[q].typ == NonType && nodes[pool[q].nodeIdx] in {Asterisk, Plus} then pool[q].nodeIdx
      else if pool[q].typ == Concat && pool[q].left == p then FirstOf(pool, nodes, pool[q].right, NULL)
      else NextOf(pool, nodes, q)
  }

  ghost function EdestsOf(pool: seq<BinTree>, nodes: seq<Node>, p: nat): seq<int>
    requires Forest(pool, nodes) && p < |pool| && pool[p].typ == NonType
  {
    assert EntryOk(pool, nodes, p);
    var e := pool[p];
    var n := nodes[e.nodeIdx];
    var next := NextOf(pool, nodes, p);
    if n.IsDup() then Pair(FirstOf(pool, nodes, e.left, NULL), next)
    else if n == AltOp then Pair(FirstOf(pool, nodes, e.left, next), FirstOf(pool, nodes, e.right, next))
    else if n.IsEpsilon() then [next]
    else []
  }

  /** Every attribute of entry `p`, now `e`, is either not computed yet or right. */
  ghost predicate AttributesOk(shape: seq<BinTree>, nodes: seq<Node>, p: nat, e: BinTree, nexts: seq<int>,
                               edests: seq<seq<int>>)
    requires Forest(shape, nodes) && p < |shape| && |nexts| == |nodes| && |edests| == |nodes|
  {
    assert EntryOk(shape, nodes, p);
    && e.(first := shape[p].first, next := shape[p].next) == shape[p]
    && (e.first == -1 || e.first == FirstOf(shape, nodes, p, NULL))
    && (e.next == -1 || e.next == NextOf(shape, nodes, p))
    && (e.typ == NonType ==>
          && nexts[e.nodeIdx] == e.next
          && (edests[e.nodeIdx] == [] || edests[e.nodeIdx] == EdestsOf(shape, nodes, p)))
  }

  class Analyzer {
    const nodes: seq<Node>
    var pool: seq<BinTree>
    var nexts: seq<int>
    var edests: seq<seq<int>>
    /** The pool as the parser left it; only `first` and `next` change afterwards. */
    ghost const shape: seq<BinTree>

    ghost predicate Valid()
      reads this
    {
      && Forest(shape, nodes)
      && |pool| == |shape| && |nexts| == |nodes| && |edests| == |nodes|
      && (forall p :: 0 <= p < |pool| ==> AttributesOk(shape, nodes, p, pool[p], nexts, edests))
    }

    /** All attributes of entry `p` are there. */
    ghost predicate Analyzed(p: nat)
      requires Valid() && p < |pool|
      reads this
    {
      assert AttributesOk(shape, nodes, p, pool[p], nexts, edests) && EntryOk(shape, nodes, p);
      && pool[p].next == NextOf(shape, nodes, p)
      && (pool[p].typ == NonType ==> edests[pool[p].nodeIdx] == EdestsOf(shape, nodes, p))
    }

    /** No attribute that was there is lost. */
    twostate predicate Keeps()
      requires old(Valid()) && Valid() && |pool| == old(|pool|)
      reads this
    {
      && (forall p :: 0 <= p < |pool| ==>
            (old(pool[p].first) == FirstOf(shape, nodes, p, NULL) ==> pool[p].first == old(pool[p].first)))
      && (forall p :: 0 <= p < |pool| ==>
            (old(pool[p].next) == NextOf(shape, nodes, p) ==> pool[p].next == old(pool[p].next)))
      && (forall p :: 0 <= p < |pool| && old(Analyzed(p)) ==> Analyzed(p))
    }

    /** Only the edges of the given nodes may have changed. */
    twostate predicate EdestsKept(changed: set<int>)
      reads this
    {
      |edests| == old(|edests|) && forall i :: 0 <= i < |edests| && i !in changed ==> edests[i] == old(edests[i])
    }

    /** The NFA node of entry `p`, if it has one. */
    ghost function NodesAt(p: nat): set<int>
      requires p < |shape|
    {
      if shape[p].typ == NonType then {shape[p].nodeIdx} else {}
    }

    constructor (nodes: seq<Node>, pool: seq<BinTree>)
      requires Forest(pool, nodes)
      requires forall p :: 0 <= p < |pool| ==> pool[p].first == -1 && pool[p].next == -1
      ensures Valid() && this.nodes == nodes && this.shape == pool && this.pool == pool
      ensures forall i :: 0 <= i < |nodes| ==> nexts[i] == -1 && edests[i] == []
    {
      this.nodes, this.pool, this.shape := nodes, pool, pool;
      nexts := seq(|nodes|, _ => -1);
      edests := seq(|nodes|, _ => []);
      new;
      forall p | 0 <= p < |pool|
        ensures AttributesOk(shape, nodes, p, pool[p], nexts, edests)
      {
        assert EntryOk(shape, nodes, p);
      }
    }

    /** calc_first */
    method CalcFirst(p: nat)
      requires Valid() && p < |pool|
      modifies `pool
      ensures Valid() && |pool| == old(|pool|)
      ensures pool[p].first == FirstOf(shape, nodes, p, NULL)
      ensures forall q :: 0 <= q < |pool| ==> pool[q].next == old(pool[q].next)
      ensures Keeps()
      decreases p
    {
      hide NextOf, EdestsOf;
      assert EntryOk(shape, nodes, p) && AttributesOk(shape, nodes, p, pool[p], nexts, edests);
      var e := pool[p];
      if e.typ == Concat || nodes[e.nodeIdx] == Plus {
        if pool[e.left].first == -1 {
          CalcFirst(e.left);
        }
        pool := pool[p := pool[p].(first := pool[e.left].first)];
      } else {
        pool := pool[p := e.(first := e.nodeIdx)];
      }
      assert AttributesOk(shape, nodes, p, pool[p], nexts, edests);
    }

    /** calc_next */
    method CalcNext(p: nat)
      requires Valid() && p < |pool|
      modifies `pool, `nexts
      ensures Valid() && |pool| == old(|pool|)
      ensures pool[p].next == NextOf(shape, nodes, p)
      ensures Keeps()
      decreases |pool| - p
    {
      hide TreeOf, EdestsOf;
      assert EntryOk(shape, nodes, p) && AttributesOk(shape, nodes, p, pool[p], nexts, edests);
      var parent := pool[p].parent;
      if parent == NULL {
        SetNext(p, -1);
        return;
      }
      assert EntryOk(shape, nodes, parent) && AttributesOk(shape, nodes, parent, pool[parent], nexts, edests);
      var q := pool[parent];
      if q.typ == NonType && (nodes[q.nodeIdx] == Asterisk || nodes[q.nodeIdx] == Plus) {
        SetNext(p, q.nodeIdx);
      } else if q.typ == Concat && q.left == p {
        if pool[q.right].first == -1 {
          CalcFirst(q.right);
        }
        SetNext(p, pool[q.right].first);
      } else {
        if pool[parent].next == -1 {
          CalcNext(parent);
        }
        SetNext(p, pool[parent].next);
      }
    }

    /** `node->next = next`, and the same in `dfa->nexts` when the entry is an NFA node. */
    method SetNext(p: nat, next: int)
      requires Valid() && p < |pool| && next == NextOf(shape, nodes, p)
      modifies `pool, `nexts
      ensures Valid() && |pool| == old(|pool|)
      ensures pool[p].next == next
      ensures Keeps()
    {
      assert EntryOk(shape, nodes, p) && AttributesOk(shape, nodes, p, pool[p], nexts, edests);
      pool := pool[p := pool[p].(next := next)];
      if pool[p].typ == NonType {
        nexts := nexts[pool[p].nodeIdx := next];
      }
      forall q | 0 <= q < |pool|
        ensures AttributesOk(shape, nodes, q, pool[q], nexts, edests)
      {
        assert EntryOk(shape, nodes, q) && old(AttributesOk(shape, nodes, q, pool[q], nexts, edests));
      }
    }

    /** Where one branch of the alternative at `p` leads: to its first node, or past `p` when it is NULL. */
    method BranchTarget(p: nat, child: int) returns (target: int)
      requires Valid() && p < |pool| && pool[p].next == NextOf(shape, nodes, p)
      requires NULL <= child < |pool|
      modifies `pool, `nexts
      ensures Valid() && |pool| == old(|pool|) && pool[p].next == NextOf(shape, nodes, p)
      ensures target == FirstOf(shape, nodes, child, NextOf(shape, nodes, p))
      ensures Keeps()
    {
      if child != NULL {
        if pool[child].first == -1 {
          CalcFirst(child);
        }
        assert AttributesOk(shape, nodes, child, pool[child], nexts, edests);
        FirstIgnoresNextAt(shape, nodes, child, NULL, NextOf(shape, nodes, p));
        target := pool[child].first;
      } else {
        if pool[p].next == -1 {
          CalcNext(p);
        }
        target := pool[p].next;
      }
    }

    /** calc_epsdest */
    method CalcEpsdest(p: nat)
      requires Valid() && p < |pool| && pool[p].next == NextOf(shape, nodes, p)
      modifies `pool, `nexts, `edests
      ensures Valid() && |pool| == old(|pool|)
      ensures Analyzed(p)
      ensures EdestsKept(NodesAt(p))
      ensures Keeps()
    {
      hide TreeOf, NextOf, FirstOf;
      assert EntryOk(shape, nodes, p) && AttributesOk(shape, nodes, p, pool[p], nexts, edests);
      var e := pool[p];
      if e.typ == NonType {
        var n := nodes[e.nodeIdx];
        if n.IsDup() {
          if pool[e.left].first == -1 {
            CalcFirst(e.left);
          }
          if pool[p].next == -1 {
            CalcNext(p);
          }
          SetEdests(p, Pair(pool[e.left].first, pool[p].next));
        } else if n == AltOp {
          var left := BranchTarget(p, e.left);
          var right := BranchTarget(p, e.right);
          SetEdests(p, Pair(left, right));
        } else if n.OpenSubexp? || n.CloseSubexp? {
          SetEdests(p, [pool[p].next]);
        }
      }
    }

    method SetEdests(p: nat, dests: seq<int>)
      requires Valid() && p < |pool| && pool[p].typ == NonType && shape[p].typ == NonType
      requires dests == EdestsOf(shape, nodes, p) && pool[p].next == NextOf(shape, nodes, p)
      modifies `edests
      ensures Valid() && Analyzed(p)
      ensures EdestsKept({pool[p].nodeIdx})
      ensures Keeps()
    {
      assert EntryOk(shape, nodes, p) && AttributesOk(shape, nodes, p, pool[p], nexts, edests);
      edests := edests[pool[p].nodeIdx := dests];
      forall q | 0 <= q < |pool|
        ensures AttributesOk(shape, nodes, q, pool[q], nexts, edests)
      {
        assert EntryOk(shape, nodes, q) && old(AttributesOk(shape, nodes, q, pool[q], nexts, edests));
        assert pool[q].typ == NonType && q != p ==> pool[q].nodeIdx != pool[p].nodeIdx;
      }
      forall q | 0 <= q < |pool| && old(Analyzed(q))
        ensures Analyzed(q)
      {
        assert EntryOk(shape, nodes, q) && old(AttributesOk(shape, nodes, q, pool[q], nexts, edests));
        assert pool[q].typ == NonType && q != p ==> pool[q].nodeIdx != pool[p].nodeIdx;
      }
    }

    /** The part of analyze_tree that concerns the entry itself. */
    method AnalyzeEntry(p: nat)
      requires Valid() && p < |pool|
      modifies `pool, `nexts, `edests
      ensures Valid() && |pool| == old(|pool|)
      ensures pool[p].first == FirstOf(shape, nodes, p, NULL) && Analyzed(p)
      ensures EdestsKept(NodesAt(p))
      ensures Keeps()
    {
      assert AttributesOk(shape, nodes, p, pool[p], nexts, edests);
      if pool[p].first == -1 {
        CalcFirst(p);
      }
      assert AttributesOk(shape, nodes, p, pool[p], nexts, edests);
      if pool[p].next == -1 {
        CalcNext(p);
      }
      CalcEpsdest(p);
    }

    /** analyze_tree: afterwards every node of the tree at `p` has all its attributes. */
    method AnalyzeTree(p: nat)
      requires Valid() && p < |pool|
      modifies `pool, `nexts, `edests
      ensures Valid() && |pool| == old(|pool|)
      ensures pool[p].first == FirstOf(shape, nodes, p, NULL)
      ensures forall q :: q in Below(shape, nodes, p) ==> 0 <= q < |pool| && Analyzed(q)
      ensures EdestsKept(Nodes(TreeOf(shape, nodes, p)))
      ensures Keeps()
      decreases p, 1
    {
      hide NextOf, EdestsOf, FirstOf, TreeOf, Below;
      assert EntryOk(shape, nodes, p) && AttributesOk(shape, nodes, p, pool[p], nexts, edests);
      TreeParts(shape, nodes, p);
      AnalyzeEntry(p);
      assert AttributesOk(shape, nodes, p, pool[p], nexts, edests);
      AnalyzeChild(pool[p].left, p);
      AnalyzeChild(pool[p].right, p);
    }

    /** The recursive call for a child, if there is one. */
    method AnalyzeChild(q: int, ghost p: nat)
      requires Valid() && NULL <= q < p < |pool|
      modifies `pool, `nexts, `edests
      ensures Valid() && |pool| == old(|pool|)
      ensures forall r :: r in Below(shape, nodes, q) ==> 0 <= r < |pool| && Analyzed(r)
      ensures EdestsKept(Nodes(TreeOf(shape, nodes, q)))
      ensures Keeps()
      decreases p, 0
    {
      if q != NULL {
        AnalyzeTree(q);
      }
    }
  }

  lemma FirstIgnoresNextAt(pool: seq<BinTree>, nodes: seq<Node>, p: int, a: int, b: int)
    requires Forest(pool, nodes) && 0 <= p < |pool|
    ensures FirstOf(pool, nodes, p, a) == FirstOf(pool, nodes, p, b)
  {
    assert EntryOk(pool, nodes, p);
    if pool[p].typ == Concat || nodes[pool[p].nodeIdx] == Plus {
      FirstIgnoresNextAt(pool, nodes, pool[p].left, a, b);
    }
  }

  /** The attributes are all there for the tree below `p`. */
  ghost predicate AllAnalyzed(shape: seq<BinTree>, nodes: seq<Node>, p: int, nexts: seq<int>, edests: seq<seq<int>>)
    requires Forest(shape, nodes) && NULL <= p < |shape| && |nexts| == |nodes| && |edests| == |nodes|
  {
    forall q :: q in Below(shape, nodes, p) ==> 0 <= q < |shape| && EntryAnalyzed(shape, nodes, q, nexts, edests)
  }

  ghost predicate EntryAnalyzed(shape: seq<BinTree>, nodes: seq<Node>, q: nat, nexts: seq<int>, edests: seq<seq<int>>)
    requires Forest(shape, nodes) && q < |shape| && |nexts| == |nodes| && |edests| == |nodes|
  {
    assert EntryOk(shape, nodes, q);
    shape[q].typ == NonType ==>
      && nexts[shape[q].nodeIdx] == NextOf(shape, nodes, q)
      && edests[shape[q].nodeIdx] == EdestsOf(shape, nodes, q)
  }

  /** Complete attributes wire the NFA the way the tree demands. */
  lemma {:induction false} AnalyzedIsWired(sx: Syntax, shape: seq<BinTree>, nodes: seq<Node>, p: nat, nexts: seq<int>,
                                           edests: seq<seq<int>>)
    requires Forest(shape, nodes) && p < |shape| && |nexts| == |nodes| && |edests| == |nodes|
    requires AllAnalyzed(shape, nodes, p, nexts, edests)
    ensures Wired(Nfa(sx, nodes, nexts, edests), TreeOf(shape, nodes, p), NextOf(shape, nodes, p))
    decreases p, 1
  {
    hide AttributesOk, Below, Forest, TreeOf, NextOf, Wired, ChildWired, First;
    TreeParts(shape, nodes, p);
    assert EntryOk(shape, nodes, p) && p in Below(shape, nodes, p) && EntryAnalyzed(shape, nodes, p, nexts, edests);
    var e := shape[p];
    ChildIsWired(sx, shape, nodes, e.left, p, nexts, edests);
    ChildIsWired(sx, shape, nodes, e.right, p, nexts, edests);
    EntryIsWired(sx, shape, nodes, p, nexts, edests);
  }

  /** The tree at `q`, if there is one, is wired, and its first node does not depend on what follows. */
  ghost predicate ChildWired(sx: Syntax, shape: seq<BinTree>, nodes: seq<Node>, q: int, nexts: seq<int>,
                             edests: seq<seq<int>>)
    requires Forest(shape, nodes) && NULL <= q < |shape| && |nexts| == |nodes| && |edests| == |nodes|
  {
    q != NULL ==>
      && Wired(Nfa(sx, nodes, nexts, edests), TreeOf(shape, nodes, q), NextOf(shape, nodes, q))
      && FirstOf(shape, nodes, q, NULL) == FirstOf(shape, nodes, q, NextOf(shape, nodes, q))
  }

  lemma EntryIsWired(sx: Syntax, shape: seq<BinTree>, nodes: seq<Node>, p: nat, nexts: seq<int>, edests: seq<seq<int>>)
    requires Forest(shape, nodes) && p < |shape| && |nexts| == |nodes| && |edests| == |nodes|
    requires EntryOk(shape, nodes, p) && EntryAnalyzed(shape, nodes, p, nexts, edests)
    requires ChildWired(sx, shape, nodes, shape[p].left, nexts, edests)
    requires ChildWired(sx, shape, nodes, shape[p].right, nexts, edests)
    ensures Wired(Nfa(sx, nodes, nexts, edests), TreeOf(shape, nodes, p), NextOf(shape, nodes, p))
  {
    hide Forest;
  }

  lemma {:induction false} ChildIsWired(sx: Syntax, shape: seq<BinTree>, nodes: seq<Node>, q: int, p: nat,
                                        nexts: seq<int>, edests: seq<seq<int>>)
    requires Forest(shape, nodes) && NULL <= q < p < |shape| && |nexts| == |nodes| && |edests| == |nodes|
    requires AllAnalyzed(shape, nodes, q, nexts, edests)
    ensures ChildWired(sx, shape, nodes, q, nexts, edests)
    decreases p, 0
  {
    if q != NULL {
      AnalyzedIsWired(sx, shape, nodes, q, nexts, edests);
      FirstIgnoresNextAt(shape, nodes, q, NULL, NextOf(shape, nodes, q));
    }
  }
}
