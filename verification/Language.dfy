/** Bytes, NFA node tokens, the syntax tree the parser builds, and the language a tree denotes. */
module Language {

  type Byte = b: int | 0 <= b < 256

  /** The two syntax bits that change what `.` accepts. */
  datatype Syntax = Syntax(dotNewline: bool, dotNotNull: bool)

  /** An NFA node: the `re_token_t` values that survive into `dfa->nodes`. */
  datatype Node =
    | Character(c: Byte)
    | SimpleBracket(sbcset: set<Byte>)
    | Period
    | OpenSubexp(reg: nat)
    | CloseSubexp(reg: nat)
    | AltOp
    | Asterisk
    | Plus
    | Question
    | EndOfRe
  {
    /** IS_EPSILON_NODE, without anchors. */
    predicate IsEpsilon() {
      AltOp? || Asterisk? || Plus? || Question? || OpenSubexp? || CloseSubexp?
    }

    predicate IsDup() {
      Asterisk? || Plus? || Question?
    }

    /** A token that the parser turns into a tree leaf. */
    predicate IsLeaf() {
      Character? || SimpleBracket? || Period? || OpenSubexp? || CloseSubexp?
    }
  }

  const NEWLINE: Byte := 10

  /** check_node_accept for a node without constraints. */
  predicate Accepts(sx: Syntax, node: Node, ch: Byte) {
    match node
    case Character(c) => c == ch
    case SimpleBracket(s) => ch in s
    case Period => !((ch == NEWLINE && !sx.dotNewline) || (ch == 0 && sx.dotNotNull))
    case _ => false
  }

  /** A `bin_tree_t` and everything below it. `Null` is the NULL pointer; `idx` is `node_idx`. */
  datatype Tree =
    | Null
    | Leaf(idx: nat, node: Node)
    | Cat(left: Tree, right: Tree)
    | Alt(idx: nat, left: Tree, right: Tree)
    | Dup(idx: nat, op: Node, left: Tree)

  /** NULL occurs only as a branch of an alternative. */
  ghost predicate WellFormed(t: Tree) {
    match t
    case Null => true
    case Leaf(_, n) => n.IsLeaf()
    case Cat(l, r) => l != Null && r != Null && WellFormed(l) && WellFormed(r)
    case Alt(_, l, r) => WellFormed(l) && WellFormed(r)
    case Dup(_, op, l) => op.IsDup() && l != Null && WellFormed(l)
  }

  /** The word `w` belongs to the language of the tree `t`. */
  ghost predicate InLang(sx: Syntax, t: Tree, w: seq<Byte>)
    decreases t, 0
  {
    match t
    case Null => w == []
    case Leaf(_, n) => if n.IsEpsilon() then w == [] else |w| == 1 && Accepts(sx, n, w[0])
    case Cat(l, r) => exists i :: 0 <= i <= |w| && InLang(sx, l, w[..i]) && InLang(sx, r, w[i..])
    case Alt(_, l, r) => InLang(sx, l, w) || InLang(sx, r, w)
    case Dup(_, op, l) =>
      if op == Question then w == [] || InLang(sx, l, w)
      else if op == Plus then exists k: nat :: k > 0 && Power(sx, l, k, w)
      else exists k: nat :: Power(sx, l, k, w)
  }

  /** `w` is a concatenation of `k` words of the language of `t`. */
  ghost predicate Power(sx: Syntax, t: Tree, k: nat, w: seq<Byte>)
    decreases t, k + 1
  {
    if k == 0 then w == []
    else exists i :: 0 <= i <= |w| && InLang(sx, t, w[..i]) && Power(sx, t, k - 1, w[i..])
  }
}
