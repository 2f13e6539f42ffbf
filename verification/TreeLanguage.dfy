/** What the parser's tree-building steps do to the denoted language. */
module TreeLanguage {
  import opened Language
  import opened Grammar

  /** The leaves that accept nothing and are reached from the root through alternatives. */
  function EmptyFronts(t: Tree): nat {
    match t
    case Leaf(_, n) => if n == SimpleBracket({}) then 1 else 0
    case Alt(_, l, r) => EmptyFronts(l) + EmptyFronts(r)
    case _ => 0
  }

  /** The tree has the language of the pattern, and a leaf of its own for each alternative that is a
      bracket without bytes. */
  ghost predicate PatternTree(t: Tree, p: Pattern) {
    && WellFormed(t)
    && EmptyFronts(t) >= EmptyAlternatives(p)
    && forall sx, w :: InLang(sx, t, w) <==> PatternHas(sx, p, w)
  }

  ghost predicate BranchTree(t: Tree, b: Branch) {
    && WellFormed(t)
    && (b == Empty ==> t == Null)
    && (IsEmptyBracket(b) ==> EmptyFronts(t) >= 1)
    && forall sx, w :: InLang(sx, t, w) <==> BranchHas(sx, b, w)
  }

  ghost predicate PieceTree(t: Tree, piece: Piece) {
    && WellFormed(t)
    && (piece == Bracket({}) ==> EmptyFronts(t) >= 1)
    && forall sx, w :: InLang(sx, t, w) <==> PieceHas(sx, piece, w)
  }

  /** Concatenation in which NULL is left out. */
  function CatOf(l: Tree, r: Tree): Tree {
    if l == Null then r else if r == Null then l else Cat(l, r)
  }

  lemma CatOfHas(sx: Syntax, l: Tree, r: Tree, w: seq<Byte>)
    ensures InLang(sx, CatOf(l, r), w) <==> exists i :: 0 <= i <= |w| && InLang(sx, l, w[..i]) && InLang(sx, r, w[i..])
  {
    if l == Null {
      assert w[..0] == [] && w[0..] == w;
    } else if r == Null {
      assert w[..|w|] == w && w[|w|..] == [];
    }
  }

  lemma BranchTreeHas(sx: Syntax, t: Tree, b: Branch, w: seq<Byte>)
    requires BranchTree(t, b)
    ensures InLang(sx, t, w) <==> BranchHas(sx, b, w)
  {
  }

  lemma PieceTreeHas(sx: Syntax, t: Tree, piece: Piece, w: seq<Byte>)
    requires PieceTree(t, piece)
    ensures InLang(sx, t, w) <==> PieceHas(sx, piece, w)
  {
  }

  lemma CatToThen(sx: Syntax, front: Tree, b: Branch, t: Tree, piece: Piece, w: seq<Byte>)
    requires BranchTree(front, b) && PieceTree(t, piece)
    ensures InLang(sx, CatOf(front, t), w) ==> BranchHas(sx, Then(b, piece), w)
  {
    CatOfHas(sx, front, t, w);
    hide InLang, CatOf, BranchTree, PieceTree;
    if InLang(sx, CatOf(front, t), w) {
      var i :| 0 <= i <= |w| && InLang(sx, front, w[..i]) && InLang(sx, t, w[i..]);
      BranchTreeHas(sx, front, b, w[..i]);
      PieceTreeHas(sx, t, piece, w[i..]);
    }
  }

  lemma ThenToCat(sx: Syntax, front: Tree, b: Branch, t: Tree, piece: Piece, w: seq<Byte>)
    requires BranchTree(front, b) && PieceTree(t, piece)
    ensures BranchHas(sx, Then(b, piece), w) ==> InLang(sx, CatOf(front, t), w)
  {
    CatOfHas(sx, front, t, w);
    hide InLang, CatOf, BranchTree, PieceTree;
    if BranchHas(sx, Then(b, piece), w) {
      var i :| 0 <= i <= |w| && BranchHas(sx, b, w[..i]) && PieceHas(sx, piece, w[i..]);
      BranchTreeHas(sx, front, b, w[..i]);
      PieceTreeHas(sx, t, piece, w[i..]);
    }
  }

  lemma ThenTree(front: Tree, b: Branch, t: Tree, piece: Piece)
    requires BranchTree(front, b) && PieceTree(t, piece)
    ensures BranchTree(CatOf(front, t), Then(b, piece))
  {
    forall sx, w
      ensures InLang(sx, CatOf(front, t), w) <==> BranchHas(sx, Then(b, piece), w)
    {
      CatToThen(sx, front, b, t, piece, w);
      ThenToCat(sx, front, b, t, piece, w);
    }
  }

  lemma OrTree(idx: nat, l: Tree, p: Pattern, r: Tree, b: Branch)
    requires PatternTree(l, p) && BranchTree(r, b)
    ensures PatternTree(Alt(idx, l, r), Or(p, b))
  {
  }

  lemma EpsilonRight(sx: Syntax, t: Tree, leaf: Tree, w: seq<Byte>)
    requires leaf.Leaf? && leaf.node.IsEpsilon()
    ensures InLang(sx, CatOf(t, leaf), w) <==> InLang(sx, t, w)
  {
    CatOfHas(sx, t, leaf, w);
    assert w[..|w|] == w && w[|w|..] == [];
    if InLang(sx, CatOf(t, leaf), w) {
      var i :| 0 <= i <= |w| && InLang(sx, t, w[..i]) && InLang(sx, leaf, w[i..]);
      assert w[..i] == w;
    }
  }

  lemma EpsilonLeft(sx: Syntax, leaf: Tree, t: Tree, w: seq<Byte>)
    requires leaf.Leaf? && leaf.node.IsEpsilon()
    ensures InLang(sx, Cat(leaf, t), w) <==> InLang(sx, t, w)
  {
    assert w[..0] == [] && w[0..] == w;
    if InLang(sx, Cat(leaf, t), w) {
      var i :| 0 <= i <= |w| && InLang(sx, leaf, w[..i]) && InLang(sx, t, w[i..]);
      assert w[i..] == w;
    }
  }

  lemma GroupTree(open: nat, close: nat, reg: nat, t: Tree, p: Pattern)
    requires PatternTree(t, p)
    ensures PieceTree(Cat(Leaf(open, OpenSubexp(reg)), CatOf(t, Leaf(close, CloseSubexp(reg)))), Group(p))
  {
    var inner := CatOf(t, Leaf(close, CloseSubexp(reg)));
    assert inner != Null && WellFormed(inner);
    forall sx, w
      ensures InLang(sx, Cat(Leaf(open, OpenSubexp(reg)), inner), w) <==> PieceHas(sx, Group(p), w)
    {
      EpsilonLeft(sx, Leaf(open, OpenSubexp(reg)), inner, w);
      EpsilonRight(sx, t, Leaf(close, CloseSubexp(reg)), w);
    }
  }

  lemma ByteTree(idx: nat, piece: Piece)
    requires !piece.Group? && !piece.Repeat?
    ensures PieceTree(Leaf(idx, PieceNode(piece)), piece)
  {
  }

  // ----- copies

  /** The trees differ at most in the numbers of their nodes. */
  ghost predicate Same(a: Tree, b: Tree) {
    match (a, b)
    case (Null, Null) => true
    case (Leaf(_, m), Leaf(_, n)) => m == n
    case (Cat(l, r), Cat(l', r')) => Same(l, l') && Same(r, r')
    case (Alt(_, l, r), Alt(_, l', r')) => Same(l, l') && Same(r, r')
    case (Dup(_, op, l), Dup(_, op', l')) => op == op' && Same(l, l')
    case _ => false
  }

  lemma {:induction false} SameLanguage(sx: Syntax, a: Tree, b: Tree, w: seq<Byte>)
    requires Same(a, b)
    ensures InLang(sx, a, w) <==> InLang(sx, b, w)
    decreases a, 0
  {
    match a
    case Cat(l, r) =>
      forall i | 0 <= i <= |w|
        ensures InLang(sx, l, w[..i]) <==> InLang(sx, b.left, w[..i])
        ensures InLang(sx, r, w[i..]) <==> InLang(sx, b.right, w[i..])
      {
        SameLanguage(sx, l, b.left, w[..i]);
        SameLanguage(sx, r, b.right, w[i..]);
      }
    case Alt(_, l, r) =>
      SameLanguage(sx, l, b.left, w);
      SameLanguage(sx, r, b.right, w);
    case Dup(_, _, l) =>
      SameLanguage(sx, l, b.left, w);
      forall k: nat
        ensures Power(sx, l, k, w) <==> Power(sx, b.left, k, w)
      {
        SamePower(sx, l, b.left, k, w);
      }
    case _ =>
  }

  lemma {:induction false} SamePower(sx: Syntax, a: Tree, b: Tree, k: nat, w: seq<Byte>)
    requires Same(a, b)
    ensures Power(sx, a, k, w) <==> Power(sx, b, k, w)
    decreases a, k + 1
  {
    if k > 0 {
      forall i | 0 <= i <= |w|
        ensures InLang(sx, a, w[..i]) <==> InLang(sx, b, w[..i])
        ensures Power(sx, a, k - 1, w[i..]) <==> Power(sx, b, k - 1, w[i..])
      {
        SameLanguage(sx, a, b, w[..i]);
        SamePower(sx, a, b, k - 1, w[i..]);
      }
    }
  }

  lemma {:induction false} SameIsWellFormed(a: Tree, b: Tree)
    requires Same(a, b)
    ensures WellFormed(a) <==> WellFormed(b)
  {
    match a
    case Cat(l, r) =>
      SameIsWellFormed(l, b.left);
      SameIsWellFormed(r, b.right);
    case Alt(_, l, r) =>
      SameIsWellFormed(l, b.left);
      SameIsWellFormed(r, b.right);
    case Dup(_, _, l) =>
      SameIsWellFormed(l, b.left);
    case _ =>
  }

  // ----- repetition

  /** `t` is a well-formed tree for the words that consist of at least `lo` and, unless `hi` is -1,
      at most `hi` words of `e`. */
  ghost predicate RangeTree(t: Tree, e: Tree, lo: nat, hi: int) {
    WellFormed(t) && forall sx, w :: InLang(sx, t, w) <==> RangeHas(sx, e, lo, hi, w)
  }

  ghost predicate RangeHas(sx: Syntax, e: Tree, lo: nat, hi: int, w: seq<Byte>) {
    exists k: nat :: Power(sx, e, k, w) && lo <= k && (hi == -1 || k <= hi)
  }

  /** Powers can be put together. */
  lemma {:induction false} PowerJoin(sx: Syntax, e: Tree, j: nat, u: seq<Byte>, k: nat, v: seq<Byte>)
    requires Power(sx, e, j, u) && Power(sx, e, k, v)
    ensures Power(sx, e, j + k, u + v)
    decreases j
  {
    hide InLang;
    if j == 0 {
      assert u + v == v;
    } else {
      var i :| 0 <= i <= |u| && InLang(sx, e, u[..i]) && Power(sx, e, j - 1, u[i..]);
      hide Power;
      PowerJoin(sx, e, j - 1, u[i..], k, v);
      assert (u + v)[..i] == u[..i] && (u + v)[i..] == u[i..] + v;
      PowerCons(sx, e, j + k, u + v, i);
    }
  }

  /** And split anywhere. */
  lemma {:induction false} PowerSplit(sx: Syntax, e: Tree, j: nat, k: nat, w: seq<Byte>) returns (i: nat)
    requires Power(sx, e, j + k, w)
    ensures i <= |w| && Power(sx, e, j, w[..i]) && Power(sx, e, k, w[i..])
    decreases j
  {
    hide InLang;
    if j == 0 {
      i := 0;
      assert w[..0] == [] && w[0..] == w;
    } else {
      var a :| 0 <= a <= |w| && InLang(sx, e, w[..a]) && Power(sx, e, j + k - 1, w[a..]);
      hide Power;
      var b := PowerSplit(sx, e, j - 1, k, w[a..]);
      i := a + b;
      assert w[..i][..a] == w[..a] && w[..i][a..] == w[a..][..b] && w[i..] == w[a..][b..];
      PowerCons(sx, e, j, w[..i], a);
    }
  }

  lemma PowerCons(sx: Syntax, e: Tree, j: nat, w: seq<Byte>, a: nat)
    requires j > 0 && a <= |w| && InLang(sx, e, w[..a]) && Power(sx, e, j - 1, w[a..])
    ensures Power(sx, e, j, w)
  {
  }

  lemma PowerOne(sx: Syntax, e: Tree, w: seq<Byte>)
    ensures Power(sx, e, 1, w) <==> InLang(sx, e, w)
  {
    assert w[..|w|] == w && w[|w|..] == [];
    if Power(sx, e, 1, w) {
      var i :| 0 <= i <= |w| && InLang(sx, e, w[..i]) && Power(sx, e, 0, w[i..]);
      assert w[..i] == w;
    }
    if InLang(sx, e, w) {
      assert InLang(sx, e, w[..|w|]) && Power(sx, e, 0, w[|w|..]);
    }
  }

  lemma OnceTree(e: Tree)
    requires WellFormed(e)
    ensures RangeTree(e, e, 1, 1)
  {
    forall sx, w
      ensures InLang(sx, e, w) <==> RangeHas(sx, e, 1, 1, w)
    {
      PowerOne(sx, e, w);
    }
  }

  lemma StarTree(idx: nat, e: Tree, f: Tree)
    requires WellFormed(e) && e != Null && Same(e, f)
    ensures RangeTree(Dup(idx, Asterisk, f), e, 0, -1)
  {
    SameIsWellFormed(e, f);
    forall sx, w
      ensures InLang(sx, Dup(idx, Asterisk, f), w) <==> RangeHas(sx, e, 0, -1, w)
    {
      forall k: nat
        ensures Power(sx, e, k, w) <==> Power(sx, f, k, w)
      {
        SamePower(sx, e, f, k, w);
      }
    }
  }

  lemma PlusTree(idx: nat, e: Tree)
    requires WellFormed(e) && e != Null
    ensures RangeTree(Dup(idx, Plus, e), e, 1, -1)
  {
  }

  lemma OptionTree(idx: nat, e: Tree, f: Tree)
    requires WellFormed(e) && e != Null && Same(e, f)
    ensures RangeTree(Dup(idx, Question, f), e, 0, 1)
  {
    SameIsWellFormed(e, f);
    forall sx, w
      ensures InLang(sx, Dup(idx, Question, f), w) <==> RangeHas(sx, e, 0, 1, w)
    {
      SameLanguage(sx, e, f, w);
      PowerOne(sx, e, w);
      assert Power(sx, e, 0, w) <==> w == [];
    }
  }

  function AddBounds(a: int, b: int): int {
    if a == -1 || b == -1 then -1 else a + b
  }

  lemma CatToRange(sx: Syntax, a: Tree, b: Tree, e: Tree, lo: nat, hi: int, lo': nat, hi': int, w: seq<Byte>)
    requires RangeTree(a, e, lo, hi) && RangeTree(b, e, lo', hi') && InLang(sx, Cat(a, b), w)
    ensures RangeHas(sx, e, lo + lo', AddBounds(hi, hi'), w)
  {
    hide Power, RangeTree, RangeHas;
    var i :| 0 <= i <= |w| && InLang(sx, a, w[..i]) && InLang(sx, b, w[i..]);
    hide InLang;
    WordInRange(sx, a, e, lo, hi, w[..i]);
    WordInRange(sx, b, e, lo', hi', w[i..]);
    RangeJoin(sx, e, lo, hi, w[..i], lo', hi', w[i..]);
    assert w[..i] + w[i..] == w;
  }

  lemma WordInRange(sx: Syntax, t: Tree, e: Tree, lo: nat, hi: int, w: seq<Byte>)
    requires RangeTree(t, e, lo, hi) && InLang(sx, t, w)
    ensures RangeHas(sx, e, lo, hi, w)
  {
    hide InLang, RangeHas, WellFormed;
  }

  lemma RangeJoin(sx: Syntax, e: Tree, lo: nat, hi: int, u: seq<Byte>, lo': nat, hi': int, v: seq<Byte>)
    requires RangeHas(sx, e, lo, hi, u) && RangeHas(sx, e, lo', hi', v)
    ensures RangeHas(sx, e, lo + lo', AddBounds(hi, hi'), u + v)
  {
    hide Power;
    var j: nat :| Power(sx, e, j, u) && lo <= j && (hi == -1 || j <= hi);
    var k: nat :| Power(sx, e, k, v) && lo' <= k && (hi' == -1 || k <= hi');
    PowerJoin(sx, e, j, u, k, v);
    assert Power(sx, e, j + k, u + v);
  }

  lemma RangeToCat(sx: Syntax, a: Tree, b: Tree, e: Tree, lo: nat, hi: int, lo': nat, hi': int, w: seq<Byte>)
    requires RangeTree(a, e, lo, hi) && RangeTree(b, e, lo', hi')
    requires (hi == -1 || lo <= hi) && (hi' == -1 || lo' <= hi')
    requires RangeHas(sx, e, lo + lo', AddBounds(hi, hi'), w)
    ensures InLang(sx, Cat(a, b), w)
  {
    var n: nat :| Power(sx, e, n, w) && lo + lo' <= n && (AddBounds(hi, hi') == -1 || n <= AddBounds(hi, hi'));
    var j: nat := if hi == -1 || n - lo' <= hi then n - lo' else hi;
    var i := PowerSplit(sx, e, j, n - j, w);
    assert RangeHas(sx, e, lo, hi, w[..i]);
    assert RangeHas(sx, e, lo', hi', w[i..]);
    assert InLang(sx, a, w[..i]) && InLang(sx, b, w[i..]);
  }

  /** Concatenating two repetitions of the same operand adds their bounds. */
  lemma CatRanges(a: Tree, b: Tree, e: Tree, lo: nat, hi: int, lo': nat, hi': int)
    requires RangeTree(a, e, lo, hi) && RangeTree(b, e, lo', hi') && a != Null && b != Null
    requires (hi == -1 || lo <= hi) && (hi' == -1 || lo' <= hi')
    ensures RangeTree(Cat(a, b), e, lo + lo', AddBounds(hi, hi'))
  {
    forall sx, w
      ensures InLang(sx, Cat(a, b), w) <==> RangeHas(sx, e, lo + lo', AddBounds(hi, hi'), w)
    {
      hide InLang, RangeHas;
      if InLang(sx, Cat(a, b), w) {
        CatToRange(sx, a, b, e, lo, hi, lo', hi', w);
      }
      if RangeHas(sx, e, lo + lo', AddBounds(hi, hi'), w) {
        RangeToCat(sx, a, b, e, lo, hi, lo', hi', w);
      }
    }
  }

  lemma SameRange(a: Tree, b: Tree, e: Tree, lo: nat, hi: int)
    requires RangeTree(a, e, lo, hi) && Same(a, b)
    ensures RangeTree(b, e, lo, hi)
  {
    SameIsWellFormed(a, b);
    forall sx, w
      ensures InLang(sx, b, w) <==> RangeHas(sx, e, lo, hi, w)
    {
      SameLanguage(sx, a, b, w);
    }
  }

  /** The least and greatest numbers of repetitions of an operator, -1 for no upper bound. */
  function MinReps(op: DupOp): int {
    match op
    case StarOp => 0
    case PlusOp => 1
    case QuestionOp => 0
    case Interval(_, _) => Lower(op)
  }

  function MaxReps(op: DupOp): int {
    match op
    case StarOp => -1
    case PlusOp => -1
    case QuestionOp => 1
    case Interval(_, _) => if UpperBound(op) != -1 && UpperBound(op) < Lower(op) then Lower(op) else UpperBound(op)
  }

  lemma {:induction false} RepeatedIsPower(sx: Syntax, e: Tree, piece: Piece, k: nat, w: seq<Byte>)
    requires PieceTree(e, piece)
    ensures Power(sx, e, k, w) <==> PieceRepeated(sx, piece, k, w)
    decreases k
  {
    hide InLang, PieceHas, PieceTree;
    if k > 0 {
      forall i | 0 <= i <= |w|
        ensures InLang(sx, e, w[..i]) <==> PieceHas(sx, piece, w[..i])
        ensures Power(sx, e, k - 1, w[i..]) <==> PieceRepeated(sx, piece, k - 1, w[i..])
      {
        PieceTreeHas(sx, e, piece, w[..i]);
        RepeatedIsPower(sx, e, piece, k - 1, w[i..]);
      }
    }
  }

  /** A tree for the repetitions that the operator allows is a tree for the repeated piece. */
  lemma RepeatTree(t: Tree, e: Tree, piece: Piece, op: DupOp)
    requires PieceTree(e, piece) && OpOk(op) && MinReps(op) >= 0 && RangeTree(t, e, MinReps(op), MaxReps(op))
    ensures PieceTree(t, Repeat(piece, op))
  {
    forall sx, w
      ensures InLang(sx, t, w) <==> PieceHas(sx, Repeat(piece, op), w)
    {
      forall k: nat
        ensures Power(sx, e, k, w) <==> PieceRepeated(sx, piece, k, w)
        ensures Allows(op, k) <==> MinReps(op) <= k && (MaxReps(op) == -1 || k <= MaxReps(op))
      {
        RepeatedIsPower(sx, e, piece, k, w);
      }
      assert InLang(sx, t, w) <==> RangeHas(sx, e, MinReps(op), MaxReps(op), w);
      if PieceHas(sx, Repeat(piece, op), w) {
        var k: nat :| PieceRepeated(sx, piece, k, w) && Allows(op, k);
        assert Power(sx, e, k, w);
      }
    }
  }
}
