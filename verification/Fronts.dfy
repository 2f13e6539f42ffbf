/** What many alternatives that are brackets without bytes do to the slots of build_trtable: each of
    them is a leaf of its own, all are reached before anything is read, and each takes a slot. */
module Fronts {
  import opened FiniteSets
  import opened NfaModel
  import opened Language
  import opened Analyze
  import opened TreeLanguage
  import opened Partition
  import opened DfaCache

  /** The nodes of the leaves that EmptyFronts counts. */
  function FrontSet(t: Tree): set<int> {
    match t
    case Leaf(i, n) => if n == SimpleBracket({}) then {i} else {}
    case Alt(_, l, r) => FrontSet(l) + FrontSet(r)
    case _ => {}
  }

  // ----- the leaves are different nodes

  /** From an entry below `q` other than `q`, the parent is below `q` too. */
  lemma {:induction false} ParentIsBelow(pool: seq<BinTree>, nodes: seq<Node>, q: int, x: int)
    requires Forest(pool, nodes) && NULL <= q < |pool| && x in Below(pool, nodes, q)
    ensures 0 <= x <= q
    ensures x != q ==> x < pool[x].parent <= q && pool[x].parent in Below(pool, nodes, q)
    decreases q + 1
  {
    TreeParts(pool, nodes, q);
    var e := pool[q];
    if x in Below(pool, nodes, e.left) {
      ParentIsBelow(pool, nodes, e.left, x);
    } else if x in Below(pool, nodes, e.right) {
      ParentIsBelow(pool, nodes, e.right, x);
    }
  }

  /** No entry is below both children. */
  lemma {:induction false} ChildrenApart(pool: seq<BinTree>, nodes: seq<Node>, p: nat, x: int)
    requires Forest(pool, nodes) && p < |pool| && EntryOk(pool, nodes, p) && x in Below(pool, nodes, pool[p].left)
    ensures x !in Below(pool, nodes, pool[p].right)
    decreases p - x
  {
    TreeParts(pool, nodes, p);
    var e := pool[p];
    ParentIsBelow(pool, nodes, e.left, x);
    if x in Below(pool, nodes, e.right) {
      ParentIsBelow(pool, nodes, e.right, x);
      if x != e.left {
        ChildrenApart(pool, nodes, p, pool[x].parent);
      }
    }
  }

  /** A node of the tree belongs to an entry below its root. */
  lemma {:induction false} EntryOfNode(pool: seq<BinTree>, nodes: seq<Node>, p: int, n: int) returns (x: int)
    requires Forest(pool, nodes) && NULL <= p < |pool| && n in Nodes(TreeOf(pool, nodes, p))
    ensures x in Below(pool, nodes, p) && 0 <= x < |pool| && pool[x].typ == NonType && pool[x].nodeIdx == n
    decreases p + 1
  {
    TreeParts(pool, nodes, p);
    var e := pool[p];
    if n in Nodes(TreeOf(pool, nodes, e.left)) {
      x := EntryOfNode(pool, nodes, e.left, n);
    } else if n in Nodes(TreeOf(pool, nodes, e.right)) {
      x := EntryOfNode(pool, nodes, e.right, n);
    } else {
      x := p;
    }
  }

  lemma BranchesApart(pool: seq<BinTree>, nodes: seq<Node>, p: nat)
    requires Forest(pool, nodes) && p < |pool| && EntryOk(pool, nodes, p)
    ensures Nodes(TreeOf(pool, nodes, pool[p].left)) !! Nodes(TreeOf(pool, nodes, pool[p].right))
  {
    TreeParts(pool, nodes, p);
    var l, r := pool[p].left, pool[p].right;
    forall n | n in Nodes(TreeOf(pool, nodes, l))
      ensures n !in Nodes(TreeOf(pool, nodes, r))
    {
      if n in Nodes(TreeOf(pool, nodes, r)) {
        var x := EntryOfNode(pool, nodes, l, n);
        var y := EntryOfNode(pool, nodes, r, n);
        ChildrenApart(pool, nodes, p, x);
      }
    }
  }

  lemma {:induction false} FrontsAreNodes(t: Tree)
    ensures FrontSet(t) <= Nodes(t)
  {
    match t
    case Alt(_, l, r) =>
      FrontsAreNodes(l);
      FrontsAreNodes(r);
    case _ =>
  }

  /** A tree of the pool has as many such nodes as it has such leaves. */
  lemma {:induction false} FrontsDiffer(pool: seq<BinTree>, nodes: seq<Node>, p: int)
    requires Forest(pool, nodes) && NULL <= p < |pool|
    ensures |FrontSet(TreeOf(pool, nodes, p))| == EmptyFronts(TreeOf(pool, nodes, p))
    decreases p + 1
  {
    hide Forest;
    if p != NULL && TreeOf(pool, nodes, p).Alt? {
      TreeParts(pool, nodes, p);
      var l, r := TreeOf(pool, nodes, pool[p].left), TreeOf(pool, nodes, pool[p].right);
      FrontsDiffer(pool, nodes, pool[p].left);
      FrontsDiffer(pool, nodes, pool[p].right);
      BranchesApart(pool, nodes, p);
      FrontsAreNodes(l);
      FrontsAreNodes(r);
    }
  }

  // ----- they are all reached, and need a slot each

  lemma {:induction false} FrontIsReached(nfa: Nfa, t: Tree, next: int, n: int)
    requires nfa.Shape() && Wired(nfa, t, next) && n in FrontSet(t)
    ensures Path(nfa, First(t, next), [], n) && IsEmptyBracket(nfa, n)
  {
    match t
    case Leaf(i, _) => PathHere(nfa, i);
    case Alt(i, l, r) =>
      var branch := if n in FrontSet(l) then l else r;
      FrontIsReached(nfa, branch, next, n);
      EpsilonStep(nfa, i, First(branch, next), [], n);
  }

  /** With more than 256 of them, the table of the initial state cannot be built. */
  lemma FrontsOverflow(c: Compiled, t: Tree, eor: int)
    requires c.Valid() && Wired(c.nfa, t, eor) && c.first == First(t, eor) && |FrontSet(t)| > SBC_MAX
    ensures !c.Fits([]) && !c.Roomy()
  {
    var S := set n | n in AllNodes(c.nfa) && Path(c.nfa, c.first, [], n);
    forall n | Path(c.nfa, c.first, [], n)
      ensures n in S
    {
      c.PathIsLive([], n);
    }
    c.ReachedByIsUnique([], S);
    forall n | n in FrontSet(t)
      ensures n in EmptyIn(c.nfa, S)
    {
      FrontIsReached(c.nfa, t, eor, n);
    }
    SubsetSize(FrontSet(t), EmptyIn(c.nfa, S));
  }
}
