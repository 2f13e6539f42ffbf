/** The recursive-descent parser: it builds the tree, and does exactly what the grammar functions say. */
module Parser {
  import opened Language
  import opened Analyze
  import opened TreeLanguage
  import opened TreePool
  import opened Intervals
  import Grammar
  import RoundTrip
  import opened Tokens = Grammar

  datatype Status = Success | Failure(error: Error)

  class Parser {
    const toks: seq<Token>
    const dfa: Pool
    /** The position of the current token. */
    var pos: nat
    var nsub: nat
    var hasPluralMatch: bool

    ghost predicate Valid()
      reads this, dfa
    {
      && dfa.Valid() && pos <= |toks|
      && TEnd !in toks && (dfa.strict ==> NoEmptyBracket(toks))
    }

    /** The flag for alternatives and repetitions, and the number of groups, after a part of the pattern. */
    twostate predicate Noted(plural: bool, groups: nat)
      reads this
    {
      hasPluralMatch == (old(hasPluralMatch) || plural) && nsub == old(nsub) + groups
    }

    /** A tree that was built after the pool had `base` entries, or NULL. */
    ghost predicate NewRoot(tree: int, base: nat)
      reads dfa
    {
      IsRoot(dfa.pool, tree) && (tree == NULL || tree >= base)
    }

    constructor (toks: seq<Token>)
      requires TEnd !in toks
      ensures Valid() && fresh(dfa) && this.toks == toks && pos == 0 && dfa.nodes == [] && dfa.pool == []
      ensures !hasPluralMatch && nsub == 0
      ensures dfa.strict == NoEmptyBracket(toks)
    {
      this.toks := toks;
      dfa := new Pool(NoEmptyBracket(toks));
      pos, nsub, hasPluralMatch := 0, 0, false;
    }

    /** fetch_token */
    method Fetch()
      requires Valid()
      modifies `pos
      ensures Valid() && pos == if old(pos) < |toks| then old(pos) + 1 else old(pos)
    {
      if pos < |toks| {
        pos := pos + 1;
      }
    }

    function Token(): (t: Token)
      reads this
    {
      TokenAt(toks, pos)
    }

    /** A leaf of its own for a new NFA node. */
    method NewLeaf(node: Node) returns (t: nat)
      requires dfa.Valid() && dfa.Admits(node) && !node.IsDup() && node != AltOp
      modifies dfa
      ensures dfa.Valid() && Grows(old(dfa.pool), old(dfa.nodes), dfa.pool, dfa.nodes, NULL)
      ensures t == |old(dfa.pool)| && IsRoot(dfa.pool, t) && dfa.Tree(t) == Leaf(|old(dfa.nodes)|, node)
    {
      var idx := dfa.AddNode(node);
      GrowsNot(old(dfa.pool), old(dfa.nodes));
      AttachGrows(old(dfa.pool), old(dfa.nodes), dfa.pool, old(dfa.nodes), dfa.nodes, NULL, NULL, NULL, NonType, idx);
      t := dfa.CreateTree(NULL, NULL, NonType, idx);
    }

    /** fetch_number */
    method FetchNumber() returns (num: int)
      requires Valid() && pos < |toks|
      modifies `pos
      ensures Valid() && (num, pos) == Grammar.FetchNumber(toks, old(pos) + 1, -1)
    {
      num := -1;
      while true
        invariant Valid() && pos < |toks|
        invariant Grammar.FetchNumber(toks, pos + 1, num) == Grammar.FetchNumber(toks, old(pos) + 1, -1)
        decreases |toks| - pos
      {
        Fetch();
        var tok := Token();
        if tok == TEnd {
          return -2;
        }
        if tok == TCloseDup || tok == TChar(COMMA) {
          return;
        }
        num := if !IsDigit(tok) || num == -2 then -2 else NextValue(num, tok.c - DIGIT0);
      }
    }

    /** The bounds of an interval, from the token after the opening brace to the one that ends it. */
    method ParseBounds() returns (start: int, end: int, status: Status)
      requires Valid() && Token() == TOpenDup
      modifies `pos
      ensures Valid()
      ensures match Grammar.ParseInterval(toks, old(pos) + 1)
              case Fail(e) => status == Failure(e)
              case Ok(op, next) =>
                && status == Success
                && pos + 1 == next
                && start == Lower(op)
                && end == UpperBound(op)
                && OpOk(op)
    {
      hide Grammar.FetchNumber, Grammar.DigitsOf;
      ghost var pos0 := pos;
      start, end, status := 0, 0, Success;
      start := FetchNumber();
      ghost var p1 := pos;
      BoundsAreRead(toks, pos0 + 1);
      if start == -1 {
        if Token() == TChar(COMMA) {
          start := 0;
        } else {
          status := Failure(BadBrace);
          return;
        }
      }
      if start != -2 {
        if Token() == TCloseDup {
          end := start;
        } else {
          end := FetchNumber();
        }
      }
      if start == -2 || end == -2 {
        status := Failure(if Token() == TCloseDup then BadBrace else UnmatchedBrace);
      }
    }

    lemma BoundsAreRead(toks: seq<Token>, from: nat)
      requires from <= |toks|
      ensures ParseInterval(toks, from).Ok? ==>
                var op := ParseInterval(toks, from).value;
                var (first, p1) := Grammar.FetchNumber(toks, from, -1);
                && OpOk(op)
                && Lower(op) == (if first == -1 then 0 else first)
                && UpperBound(op) ==
                   (if toks[p1] == TCloseDup then Lower(op) else Grammar.FetchNumber(toks, p1 + 1, -1).0)
    {
      if ParseInterval(toks, from).Ok? {
        var p1 := Grammar.FetchNumber(toks, from, -1).1;
        RoundTrip.FetchedDigits(toks, from);
        if toks[p1] != TCloseDup {
          RoundTrip.FetchedDigits(toks, p1 + 1);
        }
      }
    }

    /** The outcome of reading a repetition operator after `piece`, whose tree is `arg`. */
    ghost predicate RepeatResult(outcome: Outcome<DupOp>, piece: Piece, arg: int, base: nat, tree: int, status: Status)
      reads this, dfa
    {
      Valid() &&
      match outcome
      case Fail(e) => status == Failure(e)
      case Ok(op, next) =>
        if IsNull(piece) && NeedsOperand(op) then status == Failure(NullOperand)
        else
          && status == Success
          && pos == next
          && (tree == arg || NewRoot(tree, base))
          && PieceRoot(tree, Repeat(piece, op))
    }

    /** `tree` is a root whose tree stands for `piece`; it is NULL exactly when the parser has none. */
    ghost predicate PieceRoot(tree: int, piece: Piece)
      requires dfa.Valid()
      reads dfa
    {
      IsRoot(dfa.pool, tree) && PieceTree(dfa.Tree(tree), piece) && (tree == NULL <==> IsNull(piece))
    }

    /** parse_dup_op */
    method ParseDupOp(dupElem: int, ghost piece: Piece) returns (tree: int, status: Status)
      requires Valid() && Token().IsDupOp() && PieceRoot(dupElem, piece)
      modifies `pos, dfa
      ensures Valid() && Grows(old(dfa.pool), old(dfa.nodes), dfa.pool, dfa.nodes, dupElem)
      ensures RepeatResult(Grammar.ParseDupOp(toks, old(pos)), piece, dupElem, |old(dfa.pool)|, tree, status)
    {
      hide Forest, TreeOf, Fresh, PieceTree, Agree, Unused, NoEmptyBracket;
      tree, status := dupElem, Success;
      ghost var op := Grammar.ParseDupOp(toks, pos);
      GrowsNot(dfa.pool, dfa.nodes);
      if Token() == TOpenDup {
        var start, end;
        start, end, status := ParseBounds();
        if status.Failure? {
          return;
        }
        tree, status := Interval(dupElem, start, end, piece, op.value);
        if status.Failure? {
          return;
        }
      } else {
        if dupElem == NULL {
          status := Failure(NullOperand);
          return;
        }
        tree := SimpleOp(dupElem, Token(), piece);
      }
      Fetch();
    }

    /** parse_dup_op for `*`, `+` and `?` */
    method SimpleOp(dupElem: int, tok: Token, ghost piece: Piece) returns (tree: int)
      requires Valid() && PieceRoot(dupElem, piece) && dupElem != NULL && (tok.TStar? || tok.TPlus? || tok.TQuestion?)
      modifies dfa
      ensures Valid() && Grows(old(dfa.pool), old(dfa.nodes), dfa.pool, dfa.nodes, dupElem)
      ensures NewRoot(tree, |old(dfa.pool)|)
      ensures PieceRoot(tree, Repeat(piece, if tok.TStar? then StarOp else if tok.TPlus? then PlusOp else QuestionOp))
    {
      ghost var e := dfa.Tree(dupElem);
      var node := if tok.TStar? then Asterisk else if tok.TPlus? then Plus else Question;
      tree := DupNode(dfa, dfa.pool, dfa.nodes, dupElem, node, dupElem);
      ghost var idx: nat :| dfa.Tree(tree) == Dup(idx, node, e);
      SameSelf(e);
      if tok.TStar? {
        StarTree(idx, e, e);
        RepeatTree(dfa.Tree(tree), e, piece, StarOp);
      } else if tok.TPlus? {
        PlusTree(idx, e);
        RepeatTree(dfa.Tree(tree), e, piece, PlusOp);
      } else {
        OptionTree(idx, e, e);
        RepeatTree(dfa.Tree(tree), e, piece, QuestionOp);
      }
    }

    /** parse_dup_op for an interval, after its bounds are read */
    method Interval(dupElem: int, start: int, end: int, ghost piece: Piece, ghost op: DupOp)
        returns (tree: int, status: Status)
      requires Valid() && PieceRoot(dupElem, piece)
      requires op.Interval? && OpOk(op) && start == Lower(op) && end == UpperBound(op)
      modifies dfa
      ensures Valid() && Grows(old(dfa.pool), old(dfa.nodes), dfa.pool, dfa.nodes, dupElem)
      ensures status == if IsNull(piece) && NeedsOperand(op) then Failure(NullOperand) else Success
      ensures status.Success? ==>
                && (tree == dupElem || NewRoot(tree, |old(dfa.pool)|))
                && PieceRoot(tree, Repeat(piece, op))
    {
      tree, status := NULL, Success;
      ghost var e := dfa.Tree(dupElem);
      GrowsNot(dfa.pool, dfa.nodes);
      if start == 0 && end == 0 {
        NoneTree(e);
        RepeatTree(Null, e, piece, op);
      } else if dupElem == NULL {
        if start >= 2 || end == -1 || end > start {
          status := Failure(NullOperand);
        } else {
          OnceTree(Null);
          RepeatTree(Null, e, piece, op);
        }
      } else {
        tree := Expand(dfa, dfa.pool, dfa.nodes, dupElem, start, end, e);
        RepeatTree(dfa.Tree(tree), e, piece, op);
      }
    }

    lemma NoneTree(e: Tree)
      ensures RangeTree(Null, e, 0, 0)
    {
      forall sx, w
        ensures InLang(sx, Null, w) <==> RangeHas(sx, e, 0, 0, w)
      {
        assert Power(sx, e, 0, w) <==> w == [];
      }
    }

    ghost predicate PieceResult(outcome: Outcome<Piece>, arg: int, base: nat, tree: int, status: Status)
      reads this, dfa
    {
      Valid() &&
      match outcome
      case Fail(e) => status == Failure(e)
      case Ok(piece, next) =>
        status == Success && pos == next && (tree == arg || NewRoot(tree, base)) && PieceRoot(tree, piece)
    }

    /** The loop of parse_expression over the operators that follow an atom. */
    method ParseDupOps(atom: int, ghost piece0: Piece) returns (tree: int, status: Status)
      requires Valid() && PieceRoot(atom, piece0) && (PluralPiece(piece0) ==> hasPluralMatch)
      modifies `pos, `hasPluralMatch, dfa
      ensures Valid() && Grows(old(dfa.pool), old(dfa.nodes), dfa.pool, dfa.nodes, atom)
      ensures PieceResult(Grammar.ParseOps(toks, old(pos), piece0), atom, |old(dfa.pool)|, tree, status)
      ensures var outcome := Grammar.ParseOps(toks, old(pos), piece0);
              outcome.Ok? ==> Noted(PluralPiece(outcome.value), 0)
    {
      hide Forest, TreeOf, Fresh, PieceTree, NoEmptyBracket;
      tree, status := atom, Success;
      ghost var piece := piece0;
      ghost var pool0, nodes0 := dfa.pool, dfa.nodes;
      GrowsNot(pool0, nodes0);
      while Token().IsDupOp()
        invariant Valid() && Grows(pool0, nodes0, dfa.pool, dfa.nodes, atom)
        invariant status == Success && (tree == atom || NewRoot(tree, |pool0|)) && PieceRoot(tree, piece)
        invariant Grammar.ParseOps(toks, pos, piece) == Grammar.ParseOps(toks, old(pos), piece0)
        invariant hasPluralMatch == (old(hasPluralMatch) || PluralPiece(piece))
        decreases |toks| - pos
      {
        ghost var op := Grammar.ParseDupOp(toks, pos);
        ghost var arg, pool1, nodes1 := tree, dfa.pool, dfa.nodes;
        tree, status := ParseDupOp(tree, piece);
        GrowsTwice(pool0, nodes0, pool1, nodes1, atom, dfa.pool, dfa.nodes, arg, atom);
        if status.Failure? {
          return;
        }
        piece := Repeat(piece, op.value);
        hasPluralMatch := true;
      }
    }

    /** Operators add no groups, and make nothing less plural. */
    lemma {:induction false} OpsKeep(at: nat, acc: Piece)
      requires at <= |toks|
      ensures var outcome := Grammar.ParseOps(toks, at, acc);
              outcome.Ok? ==>
                && (PluralPiece(acc) ==> PluralPiece(outcome.value))
                && GroupsOfPiece(outcome.value) == GroupsOfPiece(acc)
      decreases |toks| - at
    {
      if TokenAt(toks, at).IsDupOp() && Grammar.ParseDupOp(toks, at).Ok? {
        var r := Grammar.ParseDupOp(toks, at);
        OpsKeep(r.pos, Repeat(acc, r.value));
      }
    }

    /** The token of an atom that stands for one byte. */
    predicate IsByteAtom(tok: Token) {
      tok.TChar? || tok.TBracket? || tok.TPeriod? || tok.TClose? || tok.TCloseDup?
    }

    function AtomOf(tok: Token): Piece
      requires IsByteAtom(tok)
    {
      match tok
      case TChar(c) => Literal(c)
      case TBracket(s) => Bracket(s)
      case TPeriod => AnyChar
      case TClose => LiteralClose
      case TCloseDup => LiteralCloseDup
    }

    /** parse_expression; at the end of a branch it returns NULL without an error. */
    method ParseExpression(nest: nat) returns (tree: int, status: Status)
      requires Valid() && !(nest > 0 && Token() == TClose)
      modifies `pos, `nsub, `hasPluralMatch, dfa
      ensures Valid() && Grows(old(dfa.pool), old(dfa.nodes), dfa.pool, dfa.nodes, NULL)
      ensures if EndsBranch(TokenAt(toks, old(pos)), nest) then tree == NULL && status == Success && pos == old(pos)
              else PieceResult(Grammar.ParseExpression(toks, old(pos), nest), NULL, |old(dfa.pool)|, tree, status)
      ensures if EndsBranch(TokenAt(toks, old(pos)), nest) then Noted(false, 0)
              else var outcome := Grammar.ParseExpression(toks, old(pos), nest);
                   outcome.Ok? ==> Noted(PluralPiece(outcome.value), GroupsOfPiece(outcome.value))
      decreases |toks| - pos, 3
    {
      tree, status := NULL, Success;
      GrowsNot(dfa.pool, dfa.nodes);
      var tok := Token();
      if tok.TAlt? || tok.TEnd? {
        return;
      }
      if tok.IsDupOp() {
        status := Failure(BadRepeat);
        return;
      }
      if tok.TOpen? {
        tree, status := ParseGroup(nest);
      } else {
        tree, status := ParseByteAtom();
      }
    }

    /** parse_expression for an atom that stands for one byte */
    method ParseByteAtom() returns (tree: int, status: Status)
      requires Valid() && IsByteAtom(Token())
      modifies `pos, `hasPluralMatch, dfa
      ensures Valid() && Grows(old(dfa.pool), old(dfa.nodes), dfa.pool, dfa.nodes, NULL)
      ensures PieceResult(Grammar.ParseOps(toks, old(pos) + 1, AtomOf(TokenAt(toks, old(pos)))), NULL,
                |old(dfa.pool)|, tree, status)
      ensures var outcome := Grammar.ParseOps(toks, old(pos) + 1, AtomOf(TokenAt(toks, old(pos))));
              outcome.Ok? ==> Noted(PluralPiece(outcome.value), GroupsOfPiece(outcome.value))
    {
      hide Forest, TreeOf, Fresh, PieceTree;
      ghost var pool0, nodes0 := dfa.pool, dfa.nodes;
      var piece := AtomOf(Token());
      ByteTree(|dfa.nodes|, piece);
      tree := NewLeaf(PieceNode(piece));
      Fetch();
      ghost var atom, pool1, nodes1 := tree, dfa.pool, dfa.nodes;
      OpsKeep(pos, piece);
      tree, status := ParseDupOps(tree, piece);
      GrowsTwice(pool0, nodes0, pool1, nodes1, NULL, dfa.pool, dfa.nodes, atom, NULL);
    }

    /** parse_expression for a parenthesized pattern */
    method ParseGroup(nest: nat) returns (tree: int, status: Status)
      requires Valid() && Token() == TOpen
      modifies `pos, `nsub, `hasPluralMatch, dfa
      ensures Valid() && Grows(old(dfa.pool), old(dfa.nodes), dfa.pool, dfa.nodes, NULL)
      ensures PieceResult(Grammar.ParseExpression(toks, old(pos), nest), NULL, |old(dfa.pool)|, tree, status)
      ensures var outcome := Grammar.ParseExpression(toks, old(pos), nest);
              outcome.Ok? ==> Noted(PluralPiece(outcome.value), GroupsOfPiece(outcome.value))
      decreases |toks| - pos, 2, 1
    {
      hide Forest, TreeOf, Fresh, PieceTree, PatternTree, NoEmptyBracket, Unused, Agree;
      hide Grammar.ParsePattern, Grammar.ParseOps;
      ghost var pool0, nodes0 := dfa.pool, dfa.nodes;
      ghost var sub := Grammar.ParsePattern(toks, pos + 1, nest + 1);
      tree, status := ParseSubExp(nest + 1);
      if status.Failure? {
        return;
      }
      ghost var atom, pool1, nodes1 := tree, dfa.pool, dfa.nodes;
      OpsKeep(pos, Group(sub.value));
      tree, status := ParseDupOps(tree, Group(sub.value));
      GrowsTwice(pool0, nodes0, pool1, nodes1, NULL, dfa.pool, dfa.nodes, atom, NULL);
    }

    /** The tree of a group: the two nodes of the parentheses bear the number of the group. */
    ghost predicate GroupShape(t: Tree, reg: nat) {
      && t.Cat? && t.left.Leaf? && t.left.node == OpenSubexp(reg)
      && var last := if t.right.Cat? then t.right.right else t.right;
         last.Leaf? && last.node == CloseSubexp(reg)
    }

    /** parse_sub_exp, and the fetch_token of parse_expression that follows it */
    method ParseSubExp(nest: nat) returns (tree: int, status: Status)
      requires Valid() && Token() == TOpen && nest > 0
      modifies `pos, `nsub, `hasPluralMatch, dfa
      ensures Valid() && Grows(old(dfa.pool), old(dfa.nodes), dfa.pool, dfa.nodes, NULL)
      ensures match Grammar.ParsePattern(toks, old(pos) + 1, nest)
              case Fail(e) => status == Failure(e)
              case Ok(p, next) =>
                if TokenAt(toks, next) != TClose then status == Failure(BadPattern)
                else
                  && status == Success && pos == next + 1
                  && NewRoot(tree, |old(dfa.pool)|) && PieceRoot(tree, Group(p))
                  && Noted(PluralPiece(Group(p)), GroupsOfPiece(Group(p)))
                  && GroupShape(dfa.Tree(tree), old(nsub))
      decreases |toks| - pos, 2, 0
    {
      hide Forest, Fresh, PatternTree, Grammar.ParsePattern, PieceTree, GroupShape, NoEmptyBracket, Agree, Unused;
      ghost var pool0, nodes0 := dfa.pool, dfa.nodes;
      var curNsub := nsub;
      nsub := nsub + 1;
      var leftPar := NewLeaf(OpenSubexp(curNsub));
      Fetch();
      ghost var pool1, nodes1, outcome := dfa.pool, dfa.nodes, Grammar.ParsePattern(toks, pos, nest);
      tree, status := ParseInner(nest);
      GrowsTwice(pool0, nodes0, pool1, nodes1, NULL, dfa.pool, dfa.nodes, NULL, NULL);
      if status.Failure? {
        return;
      }
      if Token() != TClose {
        status := Failure(BadPattern);
        return;
      }
      GrowsKeepsTree(pool1, nodes1, dfa.pool, dfa.nodes, NULL, leftPar);
      tree := CloseSubExp(pool0, nodes0, leftPar, tree, curNsub, outcome.value);
      Fetch();
    }

    /** The pattern between the parentheses, if there is one. */
    method ParseInner(nest: nat) returns (tree: int, status: Status)
      requires Valid() && nest > 0
      modifies `pos, `nsub, `hasPluralMatch, dfa
      ensures Valid() && Grows(old(dfa.pool), old(dfa.nodes), dfa.pool, dfa.nodes, NULL)
      ensures PatternResult(Grammar.ParsePattern(toks, old(pos), nest), |old(dfa.pool)|, tree, status)
      ensures var outcome := Grammar.ParsePattern(toks, old(pos), nest);
              outcome.Ok? ==> Noted(PluralPattern(outcome.value), GroupsOfPattern(outcome.value))
      decreases |toks| - pos, 7
    {
      hide PatternTree, Grammar.ParsePattern, Forest, Fresh;
      tree, status := NULL, Success;
      GrowsNot(dfa.pool, dfa.nodes);
      if Token() == TClose {
        EmptyPattern(pos, nest);
      } else {
        tree, status := ParseRegExp(nest);
      }
    }

    lemma EmptyPattern(at: nat, nest: nat)
      requires nest > 0 && at < |toks| && toks[at] == TClose
      ensures Grammar.ParsePattern(toks, at, nest) == Ok(Single(Empty), at)
      ensures PatternTree(Null, Single(Empty))
    {
    }

    /** The end of parse_sub_exp: the parentheses are put around the tree of the pattern. */
    method CloseSubExp(ghost pool0: seq<BinTree>, ghost nodes0: seq<Node>, leftPar: nat, inner: int, reg: nat,
                       ghost p: Pattern)
        returns (tree: int)
      requires Valid() && Grows(pool0, nodes0, dfa.pool, dfa.nodes, NULL)
      requires leftPar < |dfa.pool| && NewRoot(leftPar, |pool0|)
      requires dfa.Tree(leftPar).Leaf? && dfa.Tree(leftPar).node == OpenSubexp(reg)
      requires NewRoot(inner, |pool0|) && inner != leftPar && PatternTree(dfa.Tree(inner), p)
      modifies dfa
      ensures Valid() && Grows(pool0, nodes0, dfa.pool, dfa.nodes, NULL)
      ensures NewRoot(tree, |pool0|) && tree != NULL && PieceRoot(tree, Group(p)) && GroupShape(dfa.Tree(tree), reg)
    {
      ghost var open, t := dfa.Tree(leftPar).idx, dfa.Tree(inner);
      ghost var pool1, nodes1 := dfa.pool, dfa.nodes;
      tree := NewLeaf(CloseSubexp(reg));
      ghost var close := |nodes1|;
      GrowsTwice(pool0, nodes0, pool1, nodes1, NULL, dfa.pool, dfa.nodes, NULL, NULL);
      GrowsKeepsTree(pool1, nodes1, dfa.pool, dfa.nodes, NULL, leftPar);
      GrowsKeepsTree(pool1, nodes1, dfa.pool, dfa.nodes, NULL, inner);
      if inner != NULL {
        tree := JoinTrees(pool0, nodes0, inner, tree);
      }
      tree := JoinTrees(pool0, nodes0, leftPar, tree);
      GroupTree(open, close, reg, t, p);
    }

    /** create_tree for the concatenation of two roots */
    method JoinTrees(ghost pool0: seq<BinTree>, ghost nodes0: seq<Node>, left: int, right: int) returns (t: int)
      requires Valid() && Grows(pool0, nodes0, dfa.pool, dfa.nodes, NULL)
      requires NewRoot(left, |pool0|) && NewRoot(right, |pool0|) && left != NULL && right != NULL && left != right
      modifies dfa`pool
      ensures Valid() && Grows(pool0, nodes0, dfa.pool, dfa.nodes, NULL)
      ensures t == |old(dfa.pool)| && NewRoot(t, |pool0|)
      ensures dfa.Tree(left) != Null && dfa.Tree(right) != Null
      ensures dfa.Tree(t) == CatOf(old(dfa.Tree(left)), old(dfa.Tree(right)))
      ensures forall q :: NULL <= q < |old(dfa.pool)| ==> dfa.Tree(q) == old(dfa.Tree(q))
      ensures forall q :: 0 <= q < |old(dfa.pool)| && q != left && q != right ==> dfa.pool[q] == old(dfa.pool[q])
    {
      NotNull(dfa, left);
      NotNull(dfa, right);
      AttachGrows(pool0, nodes0, dfa.pool, dfa.nodes, dfa.nodes, NULL, left, right, Concat, 0);
      t := dfa.CreateTree(left, right, Concat, 0);
    }

    ghost predicate BranchResult(outcome: Outcome<Branch>, base: nat, tree: int, status: Status)
      reads this, dfa
    {
      Valid() &&
      match outcome
      case Fail(e) => status == Failure(e)
      case Ok(b, next) => status == Success && pos == next && NewRoot(tree, base) && BranchTree(dfa.Tree(tree), b)
    }

    ghost predicate PatternResult(outcome: Outcome<Pattern>, base: nat, tree: int, status: Status)
      reads this, dfa
    {
      Valid() &&
      match outcome
      case Fail(e) => status == Failure(e)
      case Ok(p, next) => status == Success && pos == next && NewRoot(tree, base) && PatternTree(dfa.Tree(tree), p)
    }

    /** parse_branch */
    method ParseBranch(nest: nat) returns (tree: int, status: Status)
      requires Valid() && !(nest > 0 && Token() == TClose)
      modifies `pos, `nsub, `hasPluralMatch, dfa
      ensures Valid() && Grows(old(dfa.pool), old(dfa.nodes), dfa.pool, dfa.nodes, NULL)
      ensures BranchResult(Grammar.ParseBranch(toks, old(pos), nest, Empty), |old(dfa.pool)|, tree, status)
      ensures var outcome := Grammar.ParseBranch(toks, old(pos), nest, Empty);
              outcome.Ok? ==> Noted(PluralBranch(outcome.value), GroupsOfBranch(outcome.value))
      decreases |toks| - pos, 4
    {
      ghost var pool0, nodes0, b := dfa.pool, dfa.nodes, Empty;
      ghost var first :=
        if EndsBranch(Token(), nest) then Fail(BadPattern) else Grammar.ParseExpression(toks, pos, nest);
      tree, status := ParseExpression(nest);
      if status.Failure? {
        return;
      }
      if first.Ok? {
        b := Then(Empty, first.value);
        ThenTree(Null, Empty, dfa.Tree(tree), first.value);
      }
      while !EndsBranch(Token(), nest)
        invariant Valid() && Grows(pool0, nodes0, dfa.pool, dfa.nodes, NULL)
        invariant status == Success && NewRoot(tree, |pool0|) && BranchTree(dfa.Tree(tree), b)
        invariant Grammar.ParseBranch(toks, pos, nest, b) == Grammar.ParseBranch(toks, old(pos), nest, Empty)
        invariant Noted(PluralBranch(b), GroupsOfBranch(b))
        invariant first.Fail? ==> EndsBranch(Token(), nest)
        invariant first.Ok? ==> pos > old(pos)
        decreases |toks| - pos
      {
        ghost var outcome := Grammar.ParseExpression(toks, pos, nest);
        tree, status := ParseAndJoin(nest, pool0, nodes0, tree, b);
        if status.Failure? {
          return;
        }
        b := Then(b, outcome.value);
      }
    }

    /** One more expression of a branch. */
    method ParseAndJoin(nest: nat, ghost pool0: seq<BinTree>, ghost nodes0: seq<Node>, front: int, ghost b: Branch)
        returns (tree: int, status: Status)
      requires Valid() && !EndsBranch(Token(), nest) && Grows(pool0, nodes0, dfa.pool, dfa.nodes, NULL)
      requires NewRoot(front, |pool0|) && BranchTree(dfa.Tree(front), b)
      modifies `pos, `nsub, `hasPluralMatch, dfa
      ensures Valid() && Grows(pool0, nodes0, dfa.pool, dfa.nodes, NULL)
      ensures match Grammar.ParseExpression(toks, old(pos), nest)
              case Fail(e) => status == Failure(e)
              case Ok(piece, next) =>
                && status == Success && pos == next
                && NewRoot(tree, |pool0|) && BranchTree(dfa.Tree(tree), Then(b, piece))
                && Noted(PluralPiece(piece), GroupsOfPiece(piece))
      decreases |toks| - pos, 4
    {
      ghost var pool1, nodes1 := dfa.pool, dfa.nodes;
      ghost var outcome, t := Grammar.ParseExpression(toks, pos, nest), dfa.Tree(front);
      var exp;
      exp, status := ParseExpression(nest);
      GrowsTwice(pool0, nodes0, pool1, nodes1, NULL, dfa.pool, dfa.nodes, NULL, NULL);
      tree := front;
      if status.Failure? {
        return;
      }
      GrowsKeepsTree(pool1, nodes1, dfa.pool, dfa.nodes, NULL, front);
      ThenTree(t, b, dfa.Tree(exp), outcome.value);
      if tree != NULL && exp != NULL {
        tree := JoinTrees(pool0, nodes0, tree, exp);
      } else if tree == NULL {
        tree := exp;
      } else {
        NotNull(dfa, tree);
      }
    }

    /** parse_reg_exp */
    method ParseRegExp(nest: nat) returns (tree: int, status: Status)
      requires Valid() && !(nest > 0 && Token() == TClose)
      modifies `pos, `nsub, `hasPluralMatch, dfa
      ensures Valid() && Grows(old(dfa.pool), old(dfa.nodes), dfa.pool, dfa.nodes, NULL)
      ensures PatternResult(Grammar.ParsePattern(toks, old(pos), nest), |old(dfa.pool)|, tree, status)
      ensures var outcome := Grammar.ParsePattern(toks, old(pos), nest);
              outcome.Ok? ==> Noted(PluralPattern(outcome.value), GroupsOfPattern(outcome.value))
      decreases |toks| - pos, 6
    {
      ghost var pool0, nodes0 := dfa.pool, dfa.nodes;
      ghost var outcome := Grammar.ParseBranch(toks, pos, nest, Empty);
      tree, status := ParseBranch(nest);
      if status.Failure? {
        return;
      }
      ghost var p := Single(outcome.value);
      while Token() == TAlt
        invariant Valid() && Grows(pool0, nodes0, dfa.pool, dfa.nodes, NULL) && pos >= old(pos)
        invariant status == Success && NewRoot(tree, |pool0|) && PatternTree(dfa.Tree(tree), p)
        invariant Noted(PluralPattern(p), GroupsOfPattern(p))
        invariant Grammar.ParseAlternatives(toks, pos, nest, p) == Grammar.ParsePattern(toks, old(pos), nest)
        decreases |toks| - pos
      {
        ghost var branch := Grammar.ParseBranch(toks, pos + 1, nest, Empty);
        tree, status := ParseAlternative(nest, pool0, nodes0, tree, p);
        if status.Failure? {
          return;
        }
        p := Or(p, branch.value);
        hasPluralMatch := true;
      }
    }

    /** One more alternative. */
    method ParseAlternative(nest: nat, ghost pool0: seq<BinTree>, ghost nodes0: seq<Node>, left: int, ghost p: Pattern)
        returns (tree: int, status: Status)
      requires Valid() && Token() == TAlt && Grows(pool0, nodes0, dfa.pool, dfa.nodes, NULL)
      requires NewRoot(left, |pool0|) && PatternTree(dfa.Tree(left), p)
      modifies `pos, `nsub, `hasPluralMatch, dfa
      ensures Valid() && Grows(pool0, nodes0, dfa.pool, dfa.nodes, NULL)
      ensures match Grammar.ParseBranch(toks, old(pos) + 1, nest, Empty)
              case Fail(e) => status == Failure(e)
              case Ok(b, next) =>
                && status == Success && pos == next
                && NewRoot(tree, |pool0|) && PatternTree(dfa.Tree(tree), Or(p, b))
                && Noted(PluralBranch(b), GroupsOfBranch(b))
      decreases |toks| - pos, 5
    {
      ghost var pool1, nodes1 := dfa.pool, dfa.nodes;
      ghost var outcome := Grammar.ParseBranch(toks, pos + 1, nest, Empty);
      var newIdx := dfa.AddNode(AltOp);
      Fetch();
      ghost var nodes2 := dfa.nodes;
      var branch;
      tree, branch, status := left, NULL, Success;
      GrowsNot(dfa.pool, dfa.nodes);
      if !EndsBranch(Token(), nest) {
        branch, status := ParseBranch(nest);
      }
      GrowsTwice(pool0, nodes0, pool1, nodes2, NULL, dfa.pool, dfa.nodes, NULL, NULL);
      if status.Failure? {
        return;
      }
      GrowsKeepsTree(pool1, nodes2, dfa.pool, dfa.nodes, NULL, left);
      StillUnused(pool1, nodes1, dfa.pool, nodes2, newIdx);
      tree := JoinAlternative(pool0, nodes0, left, p, branch, outcome.value, newIdx);
    }

    method JoinAlternative(ghost pool0: seq<BinTree>, ghost nodes0: seq<Node>, left: int, ghost p: Pattern,
                           branch: int, ghost b: Branch, newIdx: nat)
        returns (tree: int)
      requires Valid() && Grows(pool0, nodes0, dfa.pool, dfa.nodes, NULL)
      requires NewRoot(left, |pool0|) && NewRoot(branch, |pool0|) && (left == NULL || left != branch)
      requires PatternTree(dfa.Tree(left), p) && BranchTree(dfa.Tree(branch), b)
      requires |nodes0| <= newIdx < |dfa.nodes| && dfa.nodes[newIdx] == AltOp && Unused(dfa.pool, newIdx)
      modifies dfa`pool
      ensures Valid() && Grows(pool0, nodes0, dfa.pool, dfa.nodes, NULL)
      ensures NewRoot(tree, |pool0|) && PatternTree(dfa.Tree(tree), Or(p, b))
    {
      OrTree(newIdx, dfa.Tree(left), p, dfa.Tree(branch), b);
      AttachGrows(pool0, nodes0, dfa.pool, dfa.nodes, dfa.nodes, NULL, left, branch, NonType, newIdx);
      tree := dfa.CreateTree(left, branch, NonType, newIdx);
    }

    /** A node that was added before a branch is parsed is not used by the entries of that branch. */
    lemma StillUnused(pool1: seq<BinTree>, nodes1: seq<Node>, pool: seq<BinTree>, nodes2: seq<Node>, idx: nat)
      requires Unused(pool1, idx) && idx == |nodes1| && |nodes2| == idx + 1
      requires |pool1| <= |pool| && pool1 == pool[..|pool1|]
      requires forall p :: |pool1| <= p < |pool| && pool[p].typ == NonType ==> pool[p].nodeIdx >= |nodes2|
      ensures Unused(pool, idx)
    {
      forall p | 0 <= p < |pool1|
        ensures pool[p] == pool1[p]
      {
      }
    }

    /** parse: the tree of the whole expression, followed by the END_OF_RE node. */
    method Parse() returns (root: int, eor: nat, status: Status)
      requires Valid() && pos == 0 && dfa.pool == [] && dfa.nodes == []
      modifies `pos, `nsub, `hasPluralMatch, dfa
      ensures Valid()
      ensures match Grammar.ParsePattern(toks, 0, 0)
              case Fail(e) => status == Failure(e)
              case Ok(p, next) =>
                && status == Success && pos == next && 0 <= root < |dfa.pool| && IsRoot(dfa.pool, root)
                && Noted(PluralPattern(p), GroupsOfPattern(p))
                && exists t :: PatternTree(t, p) && dfa.Tree(root) == CatOf(t, Leaf(eor, EndOfRe))
    {
      eor, root := 0, NULL;
      ghost var outcome := Grammar.ParsePattern(toks, 0, 0);
      var tree;
      tree, status := ParseRegExp(0);
      if status.Failure? {
        return;
      }
      ghost var t, pool1, nodes1 := dfa.Tree(tree), dfa.pool, dfa.nodes;
      eor := |dfa.nodes|;
      root := NewLeaf(EndOfRe);
      GrowsKeepsTree(pool1, nodes1, dfa.pool, dfa.nodes, NULL, tree);
      if tree != NULL {
        GrowsNot([], []);
        assert Grows([], [], dfa.pool, dfa.nodes, NULL);
        root := JoinTrees([], [], tree, root);
      }
      assert PatternTree(t, outcome.value);
    }
  }
}
