/** The interval part of parse_dup_op: `{n,m}` is expanded into copies of its operand. */
module Intervals {
  import opened Language
  import opened Analyze
  import opened TreeLanguage
  import opened TreePool

  /** A tree built from the operand of a repetition while parse_dup_op runs: a new root, or the operand. */
  ghost predicate Built(p: Pool, pool0: seq<BinTree>, nodes0: seq<Node>, arg: int, t: int)
    reads p
  {
    && p.Valid()
    && Grows(pool0, nodes0, p.pool, p.nodes, arg)
    && IsRoot(p.pool, t) && t != NULL && (t == arg || t >= |pool0|)
  }

  /** The operand is still there, below the root or as one. */
  ghost predicate Operand(p: Pool, elem: int, e: Tree)
    reads p
  {
    p.Valid() && 0 <= elem < |p.pool| && p.Tree(elem) == e && WellFormed(e) && e != Null
  }

  /** `tree = create_tree (tree, work_tree, CONCAT, 0)` for two repetitions of the same operand. */
  method Concatenate(p: Pool, ghost pool0: seq<BinTree>, ghost nodes0: seq<Node>, ghost arg: int, ghost e: Tree,
                     left: int, ghost lo: nat, ghost hi: int, right: int, ghost lo': nat, ghost hi': int)
      returns (t: int)
    requires Built(p, pool0, nodes0, arg, left) && Built(p, pool0, nodes0, arg, right) && left != right
    requires RangeTree(p.Tree(left), e, lo, hi) && RangeTree(p.Tree(right), e, lo', hi')
    requires (hi == -1 || lo <= hi) && (hi' == -1 || lo' <= hi')
    modifies p`pool
    ensures Built(p, pool0, nodes0, arg, t) && t == |old(p.pool)|
    ensures RangeTree(p.Tree(t), e, lo + lo', AddBounds(hi, hi'))
    ensures forall q :: NULL <= q < |old(p.pool)| ==> p.Tree(q) == old(p.Tree(q))
  {
    ghost var pool1 := p.pool;
    CatRanges(p.Tree(left), p.Tree(right), e, lo, hi, lo', hi');
    AttachGrows(pool0, nodes0, p.pool, p.nodes, p.nodes, arg, left, right, Concat, 0);
    NotNull(p, left);
    NotNull(p, right);
    t := p.CreateTree(left, right, Concat, 0);
  }

  lemma NotNull(p: Pool, t: int)
    requires p.Valid() && 0 <= t < |p.pool|
    ensures p.Tree(t) != Null
  {
  }

  /** The pool was only added to: every tree is still there with its value. */
  twostate predicate Added(p: Pool)
    requires old(p.Valid()) && p.Valid()
    reads p
  {
    && |old(p.pool)| <= |p.pool| && p.pool[..|old(p.pool)|] == old(p.pool)
    && forall q :: NULL <= q < |old(p.pool)| ==> p.Tree(q) == old(p.Tree(q))
  }

  /** duplicate_tree on the operand */
  method CopyOf(p: Pool, ghost pool0: seq<BinTree>, ghost nodes0: seq<Node>, ghost arg: int, src: nat) returns (t: int)
    requires p.Valid() && Grows(pool0, nodes0, p.pool, p.nodes, arg) && src < |p.pool|
    modifies p
    ensures Built(p, pool0, nodes0, arg, t) && t >= |old(p.pool)| && Same(old(p.Tree(src)), p.Tree(t))
    ensures Added(p)
  {
    ghost var pool1, nodes1 := p.pool, p.nodes;
    t := p.DuplicateTree(src);
    GrowsTwice(pool0, nodes0, pool1, nodes1, arg, p.pool, p.nodes, NULL, arg);
    forall q | NULL <= q < |pool1|
      ensures p.Tree(q) == old(p.Tree(q))
    {
      GrowsKeepsTree(pool1, nodes1, p.pool, p.nodes, NULL, q);
    }
  }

  /** A repetition node above the tree `child`. */
  method DupNode(p: Pool, ghost pool0: seq<BinTree>, ghost nodes0: seq<Node>, ghost arg: int, op: Node, child: int)
      returns (t: int)
    requires Built(p, pool0, nodes0, arg, child) && op.IsDup()
    modifies p
    ensures Built(p, pool0, nodes0, arg, t) && t == |old(p.pool)|
    ensures exists idx: nat :: p.Tree(t) == Dup(idx, op, old(p.Tree(child)))
    ensures forall q :: 0 <= q < |old(p.pool)| && q != child ==> p.pool[q] == old(p.pool[q])
    ensures forall q :: NULL <= q < |old(p.pool)| ==> p.Tree(q) == old(p.Tree(q))
  {
    var idx := p.AddNode(op);
    AttachGrows(pool0, nodes0, p.pool, old(p.nodes), p.nodes, arg, child, NULL, NonType, idx);
    t := p.CreateTree(child, NULL, NonType, idx);
  }

  /** `<re>{n}` as n copies in a row; the operand itself is the first. */
  method Repeated(p: Pool, ghost pool0: seq<BinTree>, ghost nodes0: seq<Node>, elem: int, start: nat, ghost e: Tree)
      returns (tree: int)
    requires Built(p, pool0, nodes0, elem, elem) && Operand(p, elem, e) && start > 0
    modifies p
    ensures Built(p, pool0, nodes0, elem, tree) && Operand(p, elem, e)
    ensures RangeTree(p.Tree(tree), e, start, start)
  {
    tree := elem;
    OnceTree(e);
    for i := 0 to start
      invariant Built(p, pool0, nodes0, elem, tree) && Operand(p, elem, e)
      invariant RangeTree(p.Tree(tree), e, if i == 0 then 1 else i, if i == 0 then 1 else i)
    {
      if i != 0 {
        var workTree := CopyOf(p, pool0, nodes0, elem, elem);
        OnceTree(e);
        SameRange(e, p.Tree(workTree), e, 1, 1);
        tree := Concatenate(p, pool0, nodes0, elem, e, tree, i, i, workTree, 1, 1);
      }
    }
  }

  /** `<re>{n,}`: the copies are followed by a star. */
  method Unbounded(p: Pool, ghost pool0: seq<BinTree>, ghost nodes0: seq<Node>, elem: int, tree0: int, start: nat,
                   ghost e: Tree)
      returns (tree: int)
    requires Built(p, pool0, nodes0, elem, tree0) && Operand(p, elem, e)
    requires if start > 0 then RangeTree(p.Tree(tree0), e, start, start) else tree0 == elem
    modifies p
    ensures Built(p, pool0, nodes0, elem, tree) && RangeTree(p.Tree(tree), e, start, -1)
  {
    if start > 0 {
      var copy := CopyOf(p, pool0, nodes0, elem, elem);
      ghost var f := p.Tree(copy);
      var work := DupNode(p, pool0, nodes0, elem, Asterisk, copy);
      ghost var idx: nat :| p.Tree(work) == Dup(idx, Asterisk, f);
      StarTree(idx, e, f);
      tree := Concatenate(p, pool0, nodes0, elem, e, tree0, start, start, work, 0, -1);
    } else {
      tree := DupNode(p, pool0, nodes0, elem, Asterisk, elem);
      ghost var idx: nat :| p.Tree(tree) == Dup(idx, Asterisk, e);
      SameSelf(e);
      StarTree(idx, e, e);
    }
  }

  lemma {:induction false} SameSelf(t: Tree)
    ensures Same(t, t)
  {
    match t
    case Cat(l, r) => SameSelf(l); SameSelf(r);
    case Alt(_, l, r) => SameSelf(l); SameSelf(r);
    case Dup(_, _, l) => SameSelf(l);
    case _ =>
  }

  /** `<re>{n,m}` with n < m: the copies are followed by m - n optional copies. */
  method Bounded(p: Pool, ghost pool0: seq<BinTree>, ghost nodes0: seq<Node>, elem: int, tree0: int, start: nat,
                 end: nat, ghost e: Tree)
      returns (tree: int)
    requires Built(p, pool0, nodes0, elem, tree0) && Operand(p, elem, e)
    requires start < end && if start > 0 then RangeTree(p.Tree(tree0), e, start, start) else tree0 == elem
    modifies p
    ensures Built(p, pool0, nodes0, elem, tree) && RangeTree(p.Tree(tree), e, start, end)
  {
    hide RangeTree, Forest, TreeOf, Fresh;
    var option;
    option, tree := FirstOption(p, pool0, nodes0, elem, tree0, start, e);
    for i := 1 to end - start
      invariant Built(p, pool0, nodes0, elem, tree) && 0 <= option < |p.pool|
      invariant RangeTree(p.Tree(option), e, 0, 1)
      invariant RangeTree(p.Tree(tree), e, start, start + i)
    {
      var workTree := CopyOf(p, pool0, nodes0, elem, option);
      SameRange(p.Tree(option), p.Tree(workTree), e, 0, 1);
      tree := Concatenate(p, pool0, nodes0, elem, e, tree, start, start + i, workTree, 0, 1);
    }
  }

  method FirstOption(p: Pool, ghost pool0: seq<BinTree>, ghost nodes0: seq<Node>, elem: int, tree0: int, start: nat,
                     ghost e: Tree)
      returns (option: int, tree: int)
    requires Built(p, pool0, nodes0, elem, tree0) && Operand(p, elem, e)
    requires if start > 0 then RangeTree(p.Tree(tree0), e, start, start) else tree0 == elem
    modifies p
    ensures Built(p, pool0, nodes0, elem, tree) && RangeTree(p.Tree(tree), e, start, start + 1)
    ensures 0 <= option < |p.pool| && RangeTree(p.Tree(option), e, 0, 1)
  {
    hide RangeTree, Grows, Forest, TreeOf, Fresh;
    if start > 0 {
      var copy := CopyOf(p, pool0, nodes0, elem, elem);
      ghost var f := p.Tree(copy);
      option := DupNode(p, pool0, nodes0, elem, Question, copy);
      ghost var idx: nat :| p.Tree(option) == Dup(idx, Question, f);
      OptionTree(idx, e, f);
      tree := Concatenate(p, pool0, nodes0, elem, e, tree0, start, start, option, 0, 1);
    } else {
      option := DupNode(p, pool0, nodes0, elem, Question, elem);
      ghost var idx: nat :| p.Tree(option) == Dup(idx, Question, e);
      SameSelf(e);
      OptionTree(idx, e, e);
      tree := option;
    }
  }

  /** The expansion of `<re>{start,end}`, where `end` is -1 for no upper bound. */
  method Expand(p: Pool, ghost pool0: seq<BinTree>, ghost nodes0: seq<Node>, elem: int, start: nat, end: int,
                ghost e: Tree)
      returns (tree: int)
    requires Built(p, pool0, nodes0, elem, elem) && p.Tree(elem) == e && WellFormed(e)
    requires end >= -1 && !(start == 0 && end == 0)
    modifies p
    ensures Built(p, pool0, nodes0, elem, tree)
    ensures RangeTree(p.Tree(tree), e, start, if end != -1 && end < start then start else end)
  {
    tree := elem;
    NotNull(p, elem);
    if start > 0 {
      tree := Repeated(p, pool0, nodes0, elem, start, e);
    }
    if end == -1 {
      tree := Unbounded(p, pool0, nodes0, elem, tree, start, e);
    } else if end - start > 0 {
      tree := Bounded(p, pool0, nodes0, elem, tree, start, end, e);
    }
  }
}
