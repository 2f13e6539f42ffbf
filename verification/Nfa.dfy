/** The NFA held by `nodes`, `nexts` and `edests`, its paths, and the theorem that the
    wiring computed by `analyze_tree` gives exactly the language of the tree. */
module NfaModel {
  import opened Language

  datatype Nfa = Nfa(sx: Syntax, nodes: seq<Node>, nexts: seq<int>, edests: seq<seq<int>>) {
    ghost predicate Shape() {
      |nexts| == |nodes| && |edests| == |nodes|
    }

    predicate Has(n: int) {
      0 <= n < |nodes|
    }
  }

  /** A path of `k` steps from node `n` to node `m` that reads exactly `w`. */
  ghost predicate Steps(nfa: Nfa, n: int, w: seq<Byte>, m: int, k: nat)
    requires nfa.Shape()
    decreases k
  {
    if k == 0 then n == m && w == []
    else nfa.Has(n) &&
         if nfa.nodes[n].IsEpsilon() then exists e :: e in nfa.edests[n] && Steps(nfa, e, w, m, k - 1)
         else w != [] && Accepts(nfa.sx, nfa.nodes[n], w[0]) && Steps(nfa, nfa.nexts[n], w[1..], m, k - 1)
  }

  ghost predicate Path(nfa: Nfa, n: int, w: seq<Byte>, m: int)
    requires nfa.Shape()
  {
    exists k: nat :: Steps(nfa, n, w, m, k)
  }

  /** "first" of a tree: where a path through it starts. A NULL branch is skipped over to `next`. */
  function First(t: Tree, next: int): int {
    match t
    case Null => next
    case Leaf(i, _) => i
    case Cat(l, _) => First(l, next)
    case Alt(i, _, _) => i
    case Dup(i, op, l) => if op == Plus then First(l, next) else i
  }

  /** re_node_set_init_2: the elements in increasing order, a common one once. */
  function Pair(a: int, b: int): (s: seq<int>)
    ensures forall x :: x in s <==> x == a || x == b
    ensures |s| == (if a == b then 1 else 2) && forall i, j :: 0 <= i < j < |s| ==> s[i] < s[j]
  {
    if a == b then [a] else if a < b then [a, b] else [b, a]
  }

  /** The nexts and edests entries of every node of `t` are right for a tree followed by `next`. */
  ghost predicate Wired(nfa: Nfa, t: Tree, next: int)
    requires nfa.Shape()
  {
    match t
    case Null => true
    case Leaf(i, n) =>
      nfa.Has(i) && nfa.nodes[i] == n && nfa.nexts[i] == next && (n.IsEpsilon() ==> nfa.edests[i] == [next])
    case Cat(l, r) => Wired(nfa, l, First(r, next)) && Wired(nfa, r, next)
    case Alt(i, l, r) =>
      && nfa.Has(i) && nfa.nodes[i] == AltOp && nfa.edests[i] == Pair(First(l, next), First(r, next))
      && Wired(nfa, l, next) && Wired(nfa, r, next)
    case Dup(i, op, l) =>
      && nfa.Has(i) && nfa.nodes[i] == op
      && nfa.edests[i] == Pair(First(l, if op == Question then next else i), next)
      && Wired(nfa, l, if op == Question then next else i)
  }

  /** `w` can be read by going through `t` and then, in `m` steps, from `next` to `h`. */
  ghost predicate SplitsThrough(nfa: Nfa, t: Tree, next: int, w: seq<Byte>, h: int, i: int, m: nat)
    requires nfa.Shape()
  {
    0 <= i <= |w| && InLang(nfa.sx, t, w[..i]) && Steps(nfa, next, w[i..], h, m)
  }

  lemma Resplit(w: seq<Byte>, i: nat, j: nat)
    requires i + j <= |w|
    ensures w[..i + j][..i] == w[..i] && w[..i + j][i..] == w[i..][..j] && w[i + j..] == w[i..][j..]
  {
  }

  lemma CatIntro(sx: Syntax, l: Tree, r: Tree, w: seq<Byte>, i: nat, j: nat)
    requires i + j <= |w| && InLang(sx, l, w[..i]) && InLang(sx, r, w[i..][..j])
    ensures InLang(sx, Cat(l, r), w[..i + j]) && w[i + j..] == w[i..][j..]
  {
    Resplit(w, i, j);
  }

  lemma PowerSucc(sx: Syntax, t: Tree, p: nat, w: seq<Byte>, i: nat, j: nat)
    requires i + j <= |w| && InLang(sx, t, w[..i]) && Power(sx, t, p, w[i..][..j])
    ensures Power(sx, t, p + 1, w[..i + j]) && w[i + j..] == w[i..][j..]
  {
    Resplit(w, i, j);
  }

  /** Whatever a path reads between entering a wired tree and leaving it is in the tree's language. */
  lemma {:induction false} PathThroughIsInLang(nfa: Nfa, t: Tree, next: int, w: seq<Byte>, h: int, k: nat)
      returns (i: int, m: nat)
    requires nfa.Shape() && WellFormed(t) && Wired(nfa, t, next)
    requires nfa.Has(h) && nfa.nodes[h] == EndOfRe
    requires Steps(nfa, First(t, next), w, h, k)
    ensures SplitsThrough(nfa, t, next, w, h, i, m)
    ensures if t == Null then m == k else m < k
    decreases k, t
  {
    match t
    case Null =>
      i, m := 0, k;
    case Leaf(_, _) =>
      i, m := LeafPathIsInLang(nfa, t, next, w, h, k);
    case Cat(_, _) =>
      i, m := CatPathIsInLang(nfa, t, next, w, h, k);
    case Alt(_, _, _) =>
      i, m := BranchPathIsInLang(nfa, t, next, w, h, k);
    case Dup(_, op, _) =>
      if op == Question {
        i, m := BranchPathIsInLang(nfa, t, next, w, h, k);
      } else if op == Asterisk {
        var p;
        i, m, p := LoopPathIsPower(nfa, t, next, w, h, k);
      } else {
        i, m := PlusPathIsInLang(nfa, t, next, w, h, k);
      }
  }

  lemma LeafPathIsInLang(nfa: Nfa, t: Tree, next: int, w: seq<Byte>, h: int, k: nat)
      returns (i: int, m: nat)
    requires nfa.Shape() && t.Leaf? && WellFormed(t) && Wired(nfa, t, next)
    requires nfa.Has(h) && nfa.nodes[h] == EndOfRe
    requires Steps(nfa, t.idx, w, h, k)
    ensures SplitsThrough(nfa, t, next, w, h, i, m) && m < k
  {
    assert k > 0;
    m := k - 1;
    i := if t.node.IsEpsilon() then 0 else 1;
    assert w[..0] == [] && w[0..] == w;
  }

  lemma {:induction false} CatPathIsInLang(nfa: Nfa, t: Tree, next: int, w: seq<Byte>, h: int, k: nat)
      returns (i: int, m: nat)
    requires nfa.Shape() && t.Cat? && WellFormed(t) && Wired(nfa, t, next)
    requires nfa.Has(h) && nfa.nodes[h] == EndOfRe
    requires Steps(nfa, First(t, next), w, h, k)
    ensures SplitsThrough(nfa, t, next, w, h, i, m) && m < k
    decreases k, t, 0
  {
    var l, r := t.left, t.right;
    FirstIgnoresNext(l, next, First(r, next));
    var i1, m1 := PathThroughIsInLang(nfa, l, First(r, next), w, h, k);
    var i2, m2 := PathThroughIsInLang(nfa, r, next, w[i1..], h, m1);
    i, m := i1 + i2, m2;
    CatIntro(nfa.sx, l, r, w, i1, i2);
  }

  lemma FirstEdge(nfa: Nfa, n: int, w: seq<Byte>, h: int, k: nat) returns (e: int)
    requires nfa.Shape() && nfa.Has(n) && nfa.nodes[n].IsEpsilon() && n != h && Steps(nfa, n, w, h, k)
    ensures k > 0 && e in nfa.edests[n] && Steps(nfa, e, w, h, k - 1)
  {
    e :| e in nfa.edests[n] && Steps(nfa, e, w, h, k - 1);
  }

  lemma PowerZero(sx: Syntax, t: Tree)
    ensures Power(sx, t, 0, [])
  {
  }

  /** The two epsilon edges of an alternative or of an optional operand. */
  lemma {:induction false} BranchPathIsInLang(nfa: Nfa, t: Tree, next: int, w: seq<Byte>, h: int, k: nat)
      returns (i: int, m: nat)
    requires nfa.Shape() && (t.Alt? || (t.Dup? && t.op == Question)) && WellFormed(t) && Wired(nfa, t, next)
    requires nfa.Has(h) && nfa.nodes[h] == EndOfRe
    requires Steps(nfa, t.idx, w, h, k)
    ensures SplitsThrough(nfa, t, next, w, h, i, m) && m < k
    decreases k, t, 0
  {
    hide Steps;
    var e := FirstEdge(nfa, t.idx, w, h, k);
    var right := if t.Alt? then t.right else Null;
    assert WellFormed(t.left) && Wired(nfa, t.left, next) && WellFormed(right) && Wired(nfa, right, next);
    assert e == First(t.left, next) || e == First(right, next);
    hide WellFormed, Wired;
    if e == First(t.left, next) {
      i, m := PathThroughIsInLang(nfa, t.left, next, w, h, k - 1);
    } else {
      i, m := PathThroughIsInLang(nfa, right, next, w, h, k - 1);
    }
  }

  lemma {:induction false} PlusPathIsInLang(nfa: Nfa, t: Tree, next: int, w: seq<Byte>, h: int, k: nat)
      returns (i: int, m: nat)
    requires nfa.Shape() && t.Dup? && t.op == Plus && WellFormed(t) && Wired(nfa, t, next)
    requires nfa.Has(h) && nfa.nodes[h] == EndOfRe
    requires Steps(nfa, First(t, next), w, h, k)
    ensures SplitsThrough(nfa, t, next, w, h, i, m) && m < k
    decreases k, t, 0
  {
    hide Steps, Power;
    FirstIgnoresNext(t.left, next, t.idx);
    var i1, m1 := PathThroughIsInLang(nfa, t.left, t.idx, w, h, k);
    var i2, m2, p := LoopPathIsPower(nfa, t, next, w[i1..], h, m1);
    i, m := i1 + i2, m2;
    PowerSucc(nfa.sx, t.left, p, w, i1, i2);
  }

  /** A path that starts at a star or plus node reads a power of the operand before it leaves. */
  lemma {:induction false} LoopPathIsPower(nfa: Nfa, t: Tree, next: int, w: seq<Byte>, h: int, k: nat)
      returns (i: int, m: nat, p: nat)
    requires nfa.Shape() && t.Dup? && t.op != Question && WellFormed(t) && Wired(nfa, t, next)
    requires nfa.Has(h) && nfa.nodes[h] == EndOfRe
    requires Steps(nfa, t.idx, w, h, k)
    ensures 0 <= i <= |w| && Power(nfa.sx, t.left, p, w[..i]) && Steps(nfa, next, w[i..], h, m)
    ensures m < k
    decreases k, t, 0
  {
    var idx, l := t.idx, t.left;
    hide Steps, InLang, Power;
    var e := FirstEdge(nfa, idx, w, h, k);
    assert WellFormed(l) && Wired(nfa, l, idx) && (e == next || e == First(l, idx));
    hide WellFormed, Wired;
    if e == next {
      i, m, p := 0, k - 1, 0;
      assert w[..0] == [] && w[0..] == w;
      PowerZero(nfa.sx, l);
    } else {
      var i1, m1 := PathThroughIsInLang(nfa, l, idx, w, h, k - 1);
      var i2, m2, p2 := LoopPathIsPower(nfa, t, next, w[i1..], h, m1);
      i, m, p := i1 + i2, m2, p2 + 1;
      PowerSucc(nfa.sx, l, p2, w, i1, i2);
    }
  }

  /** One epsilon step in front of a path. */
  lemma EpsilonStep(nfa: Nfa, n: int, e: int, w: seq<Byte>, h: int)
    requires nfa.Shape() && nfa.Has(n) && nfa.nodes[n].IsEpsilon() && e in nfa.edests[n]
    requires Path(nfa, e, w, h)
    ensures Path(nfa, n, w, h)
  {
    var k: nat :| Steps(nfa, e, w, h, k);
    assert Steps(nfa, n, w, h, k + 1);
  }

  /** One consuming step in front of a path. */
  lemma ByteStep(nfa: Nfa, n: int, c: Byte, w: seq<Byte>, h: int)
    requires nfa.Shape() && nfa.Has(n) && !nfa.nodes[n].IsEpsilon() && Accepts(nfa.sx, nfa.nodes[n], c)
    requires Path(nfa, nfa.nexts[n], w, h)
    ensures Path(nfa, n, [c] + w, h)
  {
    var k: nat :| Steps(nfa, nfa.nexts[n], w, h, k);
    assert ([c] + w)[1..] == w;
    assert Steps(nfa, n, [c] + w, h, k + 1);
  }

  /** Every word of a wired tree's language can be read on a path through it. */
  lemma {:induction false} InLangHasPath(nfa: Nfa, t: Tree, next: int, u: seq<Byte>, v: seq<Byte>, h: int)
    requires nfa.Shape() && WellFormed(t) && Wired(nfa, t, next)
    requires InLang(nfa.sx, t, u) && Path(nfa, next, v, h)
    ensures Path(nfa, First(t, next), u + v, h)
    decreases t, 1
  {
    match t
    case Null =>
      assert u + v == v;
    case Leaf(idx, n) =>
      if n.IsEpsilon() {
        assert u + v == v;
        EpsilonStep(nfa, idx, next, v, h);
      } else {
        ByteStep(nfa, idx, u[0], v, h);
        assert u == [u[0]];
      }
    case Cat(_, _) =>
      CatHasPath(nfa, t, next, u, v, h);
    case Alt(idx, l, r) =>
      if InLang(nfa.sx, l, u) {
        InLangHasPath(nfa, l, next, u, v, h);
        EpsilonStep(nfa, idx, First(l, next), u + v, h);
      } else {
        InLangHasPath(nfa, r, next, u, v, h);
        EpsilonStep(nfa, idx, First(r, next), u + v, h);
      }
    case Dup(idx, op, l) =>
      if op == Question {
        if u == [] {
          assert u + v == v;
          EpsilonStep(nfa, idx, next, v, h);
        } else {
          InLangHasPath(nfa, l, next, u, v, h);
          EpsilonStep(nfa, idx, First(l, next), u + v, h);
        }
      } else if op == Asterisk {
        var p: nat :| Power(nfa.sx, l, p, u);
        PowerHasPath(nfa, t, next, p, u, v, h);
      } else {
        PlusHasPath(nfa, t, next, u, v, h);
      }
  }

  lemma {:induction false} CatHasPath(nfa: Nfa, t: Tree, next: int, u: seq<Byte>, v: seq<Byte>, h: int)
    requires nfa.Shape() && t.Cat? && WellFormed(t) && Wired(nfa, t, next)
    requires InLang(nfa.sx, t, u) && Path(nfa, next, v, h)
    ensures Path(nfa, First(t, next), u + v, h)
    decreases t, 0
  {
    var l, r := t.left, t.right;
    var i :| 0 <= i <= |u| && InLang(nfa.sx, l, u[..i]) && InLang(nfa.sx, r, u[i..]);
    InLangHasPath(nfa, r, next, u[i..], v, h);
    InLangHasPath(nfa, l, First(r, next), u[..i], u[i..] + v, h);
    assert u[..i] + (u[i..] + v) == u + v;
    FirstIgnoresNext(l, next, First(r, next));
  }

  lemma {:induction false} PlusHasPath(nfa: Nfa, t: Tree, next: int, u: seq<Byte>, v: seq<Byte>, h: int)
    requires nfa.Shape() && t.Dup? && t.op == Plus && WellFormed(t) && Wired(nfa, t, next)
    requires InLang(nfa.sx, t, u) && Path(nfa, next, v, h)
    ensures Path(nfa, First(t, next), u + v, h)
    decreases t, 0
  {
    var idx, l := t.idx, t.left;
    var p: nat :| p > 0 && Power(nfa.sx, l, p, u);
    var i :| 0 <= i <= |u| && InLang(nfa.sx, l, u[..i]) && Power(nfa.sx, l, p - 1, u[i..]);
    PowerHasPath(nfa, t, next, p - 1, u[i..], v, h);
    InLangHasPath(nfa, l, idx, u[..i], u[i..] + v, h);
    assert u[..i] + (u[i..] + v) == u + v;
    FirstIgnoresNext(l, next, idx);
  }

  lemma {:induction false} PowerHasPath(nfa: Nfa, t: Tree, next: int, p: nat, u: seq<Byte>, v: seq<Byte>, h: int)
    requires nfa.Shape() && t.Dup? && t.op != Question && WellFormed(t) && Wired(nfa, t, next)
    requires Power(nfa.sx, t.left, p, u) && Path(nfa, next, v, h)
    ensures Path(nfa, t.idx, u + v, h)
    decreases t.left, p + 1
  {
    if p == 0 {
      assert u + v == v;
      EpsilonStep(nfa, t.idx, next, v, h);
    } else {
      var i :| 0 <= i <= |u| && InLang(nfa.sx, t.left, u[..i]) && Power(nfa.sx, t.left, p - 1, u[i..]);
      PowerHasPath(nfa, t, next, p - 1, u[i..], v, h);
      InLangHasPath(nfa, t.left, t.idx, u[..i], u[i..] + v, h);
      assert u[..i] + (u[i..] + v) == u + v;
      EpsilonStep(nfa, t.idx, First(t.left, t.idx), u + v, h);
    }
  }

  /** Only a NULL tree looks at what follows it to find its first node. */
  lemma {:induction false} FirstIgnoresNext(t: Tree, a: int, b: int)
    requires WellFormed(t) && t != Null
    ensures First(t, a) == First(t, b)
  {
    match t
    case Cat(l, _) => FirstIgnoresNext(l, a, b);
    case Dup(_, op, l) => FirstIgnoresNext(l, a, b);
    case _ =>
  }

  /** NFA construction preserves meaning: the words on the paths from the first node to END_OF_RE
      are exactly the words of the tree. */
  lemma NfaAcceptsExactlyTheLanguage(nfa: Nfa, t: Tree, eor: int, w: seq<Byte>)
    requires nfa.Shape() && WellFormed(t) && Wired(nfa, t, eor)
    requires nfa.Has(eor) && nfa.nodes[eor] == EndOfRe
    ensures Path(nfa, First(t, eor), w, eor) <==> InLang(nfa.sx, t, w)
  {
    if Path(nfa, First(t, eor), w, eor) {
      var k: nat :| Steps(nfa, First(t, eor), w, eor, k);
      var i, m := PathThroughIsInLang(nfa, t, eor, w, eor, k);
      assert m == 0;
      assert w[..i] == w;
    }
    if InLang(nfa.sx, t, w) {
      assert Steps(nfa, eor, [], eor, 0);
      InLangHasPath(nfa, t, eor, w, [], eor);
      assert w + [] == w;
    }
  }

  // ----- which nodes a path can visit

  ghost function Nodes(t: Tree): set<int> {
    match t
    case Null => {}
    case Leaf(i, _) => {i}
    case Cat(l, r) => Nodes(l) + Nodes(r)
    case Alt(i, l, r) => {i} + Nodes(l) + Nodes(r)
    case Dup(i, _, l) => {i} + Nodes(l)
  }

  /** Every edge that leaves node `n` stays inside `S`. */
  ghost predicate EdgesInside(nfa: Nfa, n: int, S: set<int>)
    requires nfa.Shape()
  {
    && nfa.Has(n)
    && (nfa.nodes[n].IsEpsilon() ==> forall e :: e in nfa.edests[n] ==> e in S)
    && (!nfa.nodes[n].IsEpsilon() && nfa.nodes[n] != EndOfRe ==> nfa.nexts[n] in S)
  }

  /** `S` is closed under the edges of the NFA. */
  ghost predicate Closed(nfa: Nfa, S: set<int>)
    requires nfa.Shape()
  {
    forall n :: n in S ==> EdgesInside(nfa, n, S)
  }

  lemma {:induction false} FirstIsInside(t: Tree, next: int)
    ensures First(t, next) in Nodes(t) + {next}
  {
    match t
    case Cat(l, _) => FirstIsInside(l, next);
    case Dup(_, _, l) => FirstIsInside(l, next);
    case _ =>
  }

  lemma {:induction false} WiredEdgesInside(nfa: Nfa, t: Tree, next: int, S: set<int>)
    requires nfa.Shape() && WellFormed(t) && Wired(nfa, t, next) && Nodes(t) <= S && next in S
    ensures forall n :: n in Nodes(t) ==> EdgesInside(nfa, n, S)
  {
    match t
    case Cat(l, r) =>
      FirstIsInside(r, next);
      WiredEdgesInside(nfa, l, First(r, next), S);
      WiredEdgesInside(nfa, r, next, S);
    case Alt(_, l, r) =>
      FirstIsInside(l, next);
      FirstIsInside(r, next);
      WiredEdgesInside(nfa, l, next, S);
      WiredEdgesInside(nfa, r, next, S);
    case Dup(i, op, l) =>
      var exit := if op == Question then next else i;
      FirstIsInside(l, exit);
      WiredEdgesInside(nfa, l, exit, S);
    case _ =>
  }

  lemma WiredIsClosed(nfa: Nfa, t: Tree, eor: int)
    requires nfa.Shape() && WellFormed(t) && Wired(nfa, t, eor) && nfa.Has(eor) && nfa.nodes[eor] == EndOfRe
    ensures Closed(nfa, Nodes(t) + {eor}) && First(t, eor) in Nodes(t) + {eor}
  {
    WiredEdgesInside(nfa, t, eor, Nodes(t) + {eor});
    FirstIsInside(t, eor);
  }

  lemma {:induction false} StepsStayInside(nfa: Nfa, S: set<int>, n: int, w: seq<Byte>, m: int, k: nat)
    requires nfa.Shape() && Closed(nfa, S) && n in S && Steps(nfa, n, w, m, k)
    ensures m in S
    decreases k
  {
    if k > 0 {
      assert EdgesInside(nfa, n, S);
      if nfa.nodes[n].IsEpsilon() {
        var e :| e in nfa.edests[n] && Steps(nfa, e, w, m, k - 1);
        StepsStayInside(nfa, S, e, w, m, k - 1);
      } else {
        StepsStayInside(nfa, S, nfa.nexts[n], w[1..], m, k - 1);
      }
    }
  }

  // ----- joining and splitting paths

  lemma {:induction false} StepsJoin(nfa: Nfa, n: int, u: seq<Byte>, p: int, k: nat, v: seq<Byte>, m: int)
    requires nfa.Shape() && Steps(nfa, n, u, p, k) && Path(nfa, p, v, m)
    ensures Path(nfa, n, u + v, m)
    decreases k
  {
    if k == 0 {
      assert u + v == v;
    } else if nfa.nodes[n].IsEpsilon() {
      var e :| e in nfa.edests[n] && Steps(nfa, e, u, p, k - 1);
      StepsJoin(nfa, e, u, p, k - 1, v, m);
      EpsilonStep(nfa, n, e, u + v, m);
    } else {
      StepsJoin(nfa, nfa.nexts[n], u[1..], p, k - 1, v, m);
      ByteStep(nfa, n, u[0], u[1..] + v, m);
      assert [u[0]] + (u[1..] + v) == u + v;
    }
  }

  lemma PathJoin(nfa: Nfa, n: int, u: seq<Byte>, p: int, v: seq<Byte>, m: int)
    requires nfa.Shape() && Path(nfa, n, u, p) && Path(nfa, p, v, m)
    ensures Path(nfa, n, u + v, m)
  {
    var k: nat :| Steps(nfa, n, u, p, k);
    StepsJoin(nfa, n, u, p, k, v, m);
  }

  lemma PathHere(nfa: Nfa, n: int)
    requires nfa.Shape()
    ensures Path(nfa, n, [], n)
  {
    assert Steps(nfa, n, [], n, 0);
  }

  /** Node `p` reads the byte `c`. */
  ghost predicate Reads(nfa: Nfa, p: int, c: Byte)
    requires nfa.Shape()
  {
    nfa.Has(p) && !nfa.nodes[p].IsEpsilon() && Accepts(nfa.sx, nfa.nodes[p], c)
  }

  /** A path that reads `w`, then `c` at node `p`, then only epsilon edges. */
  ghost predicate PathVia(nfa: Nfa, n: int, w: seq<Byte>, p: int, c: Byte, v: seq<Byte>, m: int)
    requires nfa.Shape()
  {
    Path(nfa, n, w, p) && Reads(nfa, p, c) && Path(nfa, nfa.nexts[p], v, m)
  }

  lemma PathViaJoins(nfa: Nfa, n: int, w: seq<Byte>, p: int, c: Byte, v: seq<Byte>, m: int)
    requires nfa.Shape() && PathVia(nfa, n, w, p, c, v, m)
    ensures Path(nfa, n, w + [c] + v, m)
  {
    ByteStep(nfa, p, c, v, m);
    PathJoin(nfa, n, w, p, [c] + v, m);
    assert w + ([c] + v) == w + [c] + v;
  }

  /** A path that reads a non-empty word can be cut at any of the bytes it reads. */
  lemma {:induction false} StepsCut(nfa: Nfa, n: int, w: seq<Byte>, c: Byte, v: seq<Byte>, m: int, k: nat)
      returns (p: int)
    requires nfa.Shape() && Steps(nfa, n, w + [c] + v, m, k)
    ensures PathVia(nfa, n, w, p, c, v, m)
    decreases k
  {
    if nfa.nodes[n].IsEpsilon() {
      var e :| e in nfa.edests[n] && Steps(nfa, e, w + [c] + v, m, k - 1);
      p := StepsCut(nfa, e, w, c, v, m, k - 1);
      EpsilonStep(nfa, n, e, w, p);
    } else if w == [] {
      assert (w + [c] + v)[0] == c && (w + [c] + v)[1..] == v;
      PathHere(nfa, n);
      p := n;
    } else {
      assert (w + [c] + v)[0] == w[0] && (w + [c] + v)[1..] == w[1..] + [c] + v;
      p := StepsCut(nfa, nfa.nexts[n], w[1..], c, v, m, k - 1);
      ByteStep(nfa, n, w[0], w[1..], p);
      assert [w[0]] + w[1..] == w;
    }
  }

  lemma PathCut(nfa: Nfa, n: int, w: seq<Byte>, c: Byte, v: seq<Byte>, m: int) returns (p: int)
    requires nfa.Shape() && Path(nfa, n, w + [c] + v, m)
    ensures PathVia(nfa, n, w, p, c, v, m)
  {
    var k: nat :| Steps(nfa, n, w + [c] + v, m, k);
    p := StepsCut(nfa, n, w, c, v, m, k);
  }
}
