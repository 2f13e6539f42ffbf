/** The grammar that the parser implements: patterns as syntax trees of their own, their rendering as
    token lists, the words they denote, and the parser as a function from token lists to patterns.
    Anchors, back-references and the inside of bracket expressions are not part of it. */
module Grammar {
  import opened Language

  /** The tokens peek_token returns for extended syntax; a bracket expression is one token. */
  datatype Token =
    | TChar(c: Byte)
    | TBracket(sbcset: set<Byte>)
    | TPeriod
    | TAlt
    | TStar
    | TPlus
    | TQuestion
    | TOpenDup
    | TCloseDup
    | TOpen
    | TClose
    | TEnd
  {
    predicate IsDupOp() {
      TStar? || TPlus? || TQuestion? || TOpenDup?
    }
  }

  const COMMA: Byte := 44
  const DIGIT0: Byte := 48
  const CLOSE_PAREN: Byte := 41
  const CLOSE_BRACE: Byte := 125
  const RE_DUP_MAX := 0x7fff

  type Digit = d: nat | d < 10

  /** Every bracket accepts at least one byte. */
  predicate NoEmptyBracket(toks: seq<Token>) {
    forall i :: 0 <= i < |toks| && toks[i].TBracket? ==> toks[i].sbcset != {}
  }

  /** The upper end of an interval: `{n}`, or a comma and digits that end at a brace. The parser also
      lets a second comma end the interval. */
  datatype Upper = Same | UpTo(digits: seq<Digit>, endsAtComma: bool)

  datatype DupOp =
    | StarOp
    | PlusOp
    | QuestionOp
    | Interval(lower: seq<Digit>, upper: Upper)

  datatype Piece =
    | Literal(c: Byte)
    | LiteralClose
    | LiteralCloseDup
    | AnyChar
    | Bracket(sbcset: set<Byte>)
    | Group(p: Pattern)
    | Repeat(piece: Piece, op: DupOp)

  /** A concatenation of pieces. */
  datatype Branch = Empty | Then(front: Branch, piece: Piece)

  /** Alternatives; a pattern has at least one branch, which may be empty. */
  datatype Pattern = Single(branch: Branch) | Or(left: Pattern, right: Branch)

  /** fetch_number's value: -1 for no digits, -2 once the number exceeds RE_DUP_MAX. */
  function Value(digits: seq<Digit>): (v: int)
    ensures -2 <= v <= RE_DUP_MAX
  {
    if digits == [] then -1 else NextValue(Value(digits[..|digits| - 1]), digits[|digits| - 1])
  }

  /** The decimal number that digits denote. */
  function Decimal(digits: seq<Digit>): nat {
    if digits == [] then 0 else Decimal(digits[..|digits| - 1]) * 10 + digits[|digits| - 1]
  }

  /** The value is the decimal number, unless that exceeds RE_DUP_MAX. */
  lemma {:induction false} ValueIsDecimal(digits: seq<Digit>)
    ensures Value(digits) == if digits == [] then -1 else if Decimal(digits) <= RE_DUP_MAX then Decimal(digits) else -2
  {
    if digits != [] {
      ValueIsDecimal(digits[..|digits| - 1]);
    }
  }

  function NextValue(num: int, d: Digit): int {
    if num == -2 then -2
    else
      var n := if num == -1 then d else num * 10 + d;
      if n > RE_DUP_MAX then -2 else n
  }

  function Lower(op: DupOp): int
    requires op.Interval?
  {
    if op.lower == [] then 0 else Value(op.lower)
  }

  /** The upper bound, -1 for none. */
  function UpperBound(op: DupOp): int
    requires op.Interval?
  {
    match op.upper
    case Same => Lower(op)
    case UpTo(ds, _) => Value(ds)
  }

  /** The branch is a bracket that accepts nothing. */
  predicate IsEmptyBracket(b: Branch) {
    b == Then(Empty, Bracket({}))
  }

  /** How many alternatives of the pattern are such brackets. */
  function EmptyAlternatives(p: Pattern): nat {
    match p
    case Single(b) => if IsEmptyBracket(b) then 1 else 0
    case Or(l, b) => EmptyAlternatives(l) + if IsEmptyBracket(b) then 1 else 0
  }

  // ----- what the parser notes about a pattern

  /** The pattern has alternatives or a repetition. */
  predicate PluralPattern(p: Pattern) {
    match p
    case Single(b) => PluralBranch(b)
    case Or(_, _) => true
  }

  predicate PluralBranch(b: Branch) {
    match b
    case Empty => false
    case Then(front, piece) => PluralBranch(front) || PluralPiece(piece)
  }

  predicate PluralPiece(piece: Piece) {
    match piece
    case Group(p) => PluralPattern(p)
    case Repeat(_, _) => true
    case _ => false
  }

  /** The number of its groups. */
  function GroupsOfPattern(p: Pattern): nat {
    match p
    case Single(b) => GroupsOfBranch(b)
    case Or(l, r) => GroupsOfPattern(l) + GroupsOfBranch(r)
  }

  function GroupsOfBranch(b: Branch): nat {
    match b
    case Empty => 0
    case Then(front, piece) => GroupsOfBranch(front) + GroupsOfPiece(piece)
  }

  function GroupsOfPiece(piece: Piece): nat {
    match piece
    case Group(p) => 1 + GroupsOfPattern(p)
    case Repeat(q, _) => GroupsOfPiece(q)
    case _ => 0
  }

  // ----- what a pattern denotes

  /** The operator allows `k` repetitions. An upper bound below the lower one is ignored. */
  predicate Allows(op: DupOp, k: nat) {
    match op
    case StarOp => true
    case PlusOp => k >= 1
    case QuestionOp => k <= 1
    case Interval(_, _) =>
      k >= Lower(op) && (UpperBound(op) == -1 || k <= UpperBound(op) || k == Lower(op))
  }

  ghost predicate PatternHas(sx: Syntax, p: Pattern, w: seq<Byte>)
    decreases p, 0
  {
    match p
    case Single(b) => BranchHas(sx, b, w)
    case Or(l, r) => PatternHas(sx, l, w) || BranchHas(sx, r, w)
  }

  ghost predicate BranchHas(sx: Syntax, b: Branch, w: seq<Byte>)
    decreases b, 0
  {
    match b
    case Empty => w == []
    case Then(front, piece) => exists i :: 0 <= i <= |w| && BranchHas(sx, front, w[..i]) && PieceHas(sx, piece, w[i..])
  }

  ghost predicate PieceHas(sx: Syntax, piece: Piece, w: seq<Byte>)
    decreases piece, 0
  {
    match piece
    case Group(p) => PatternHas(sx, p, w)
    case Repeat(q, op) => exists k: nat :: PieceRepeated(sx, q, k, w) && Allows(op, k)
    case _ => |w| == 1 && Accepts(sx, PieceNode(piece), w[0])
  }

  /** `w` is a concatenation of `k` words of the piece. */
  ghost predicate PieceRepeated(sx: Syntax, piece: Piece, k: nat, w: seq<Byte>)
    decreases piece, k + 1
  {
    if k == 0 then w == []
    else exists i :: 0 <= i <= |w| && PieceHas(sx, piece, w[..i]) && PieceRepeated(sx, piece, k - 1, w[i..])
  }

  /** The NFA node of a piece that stands for one byte. */
  function PieceNode(piece: Piece): Node
    requires !piece.Group? && !piece.Repeat?
  {
    match piece
    case Literal(c) => Character(c)
    case LiteralClose => Character(CLOSE_PAREN)
    case LiteralCloseDup => Character(CLOSE_BRACE)
    case AnyChar => Period
    case Bracket(s) => SimpleBracket(s)
  }

  // ----- rendering

  function DigitTokens(ds: seq<Digit>): seq<Token> {
    seq(|ds|, i requires 0 <= i < |ds| => TChar(DIGIT0 + ds[i]))
  }

  function UpperTokens(up: Upper): seq<Token> {
    match up
    case Same => [TCloseDup]
    case UpTo(hi, comma) => [TChar(COMMA)] + (DigitTokens(hi) + [if comma then TChar(COMMA) else TCloseDup])
  }

  function OpTokens(op: DupOp): seq<Token> {
    match op
    case StarOp => [TStar]
    case PlusOp => [TPlus]
    case QuestionOp => [TQuestion]
    case Interval(lo, up) => [TOpenDup] + (DigitTokens(lo) + UpperTokens(up))
  }

  function PatternTokens(p: Pattern): seq<Token> {
    match p
    case Single(b) => BranchTokens(b)
    case Or(l, r) => PatternTokens(l) + ([TAlt] + BranchTokens(r))
  }

  function BranchTokens(b: Branch): seq<Token> {
    match b
    case Empty => []
    case Then(front, piece) => BranchTokens(front) + PieceTokens(piece)
  }

  function PieceTokens(piece: Piece): seq<Token> {
    match piece
    case Literal(c) => [TChar(c)]
    case LiteralClose => [TClose]
    case LiteralCloseDup => [TCloseDup]
    case AnyChar => [TPeriod]
    case Bracket(s) => [TBracket(s)]
    case Group(p) => [TOpen] + (PatternTokens(p) + [TClose])
    case Repeat(q, op) => PieceTokens(q) + OpTokens(op)
  }

  // ----- well-formed patterns

  /** The parser has thrown the operand of `{0}` away and holds a NULL tree. */
  predicate IsNull(piece: Piece) {
    piece.Repeat? && piece.op.Interval? &&
    ((Lower(piece.op) == 0 && UpperBound(piece.op) == 0) || IsNull(piece.piece))
  }

  /** The operator copies its operand or puts a node above it. */
  predicate NeedsOperand(op: DupOp) {
    match op
    case Interval(_, _) =>
      Lower(op) >= 2 || UpperBound(op) == -1 || UpperBound(op) > Lower(op)
    case _ => true
  }

  /** An interval that parse_dup_op accepts. */
  predicate OpOk(op: DupOp) {
    match op
    case Interval(lo, up) => Value(lo) != -2 && (up == Same ==> lo != []) && UpperBound(op) != -2
    case _ => true
  }

  predicate PieceOk(piece: Piece, nest: nat) {
    match piece
    case LiteralClose => nest == 0
    case Group(p) => PatternOk(p, nest + 1)
    case Repeat(q, op) => PieceOk(q, nest) && OpOk(op) && !(IsNull(q) && NeedsOperand(op))
    case _ => true
  }

  predicate BranchOk(b: Branch, nest: nat) {
    match b
    case Empty => true
    case Then(front, piece) => BranchOk(front, nest) && PieceOk(piece, nest)
  }

  predicate PatternOk(p: Pattern, nest: nat) {
    match p
    case Single(b) => BranchOk(b, nest)
    case Or(l, r) => PatternOk(l, nest) && BranchOk(r, nest)
  }

  // ----- the parser as a function

  datatype Error = BadRepeat | BadPattern | BadBrace | UnmatchedBrace | NullOperand

  datatype Outcome<+T> = Ok(value: T, pos: nat) | Fail(error: Error)

  function TokenAt(toks: seq<Token>, pos: nat): Token {
    if pos < |toks| then toks[pos] else TEnd
  }

  /** The tokens that end a branch. */
  predicate EndsBranch(tok: Token, nest: nat) {
    tok == TAlt || tok == TEnd || (nest > 0 && tok == TClose)
  }

  function ParsePattern(toks: seq<Token>, pos: nat, nest: nat): (r: Outcome<Pattern>)
    requires pos <= |toks|
    ensures r.Ok? ==> pos <= r.pos <= |toks|
    decreases |toks| - pos, 6
  {
    match ParseBranch(toks, pos, nest, Empty)
    case Fail(e) => Fail(e)
    case Ok(b, next) => ParseAlternatives(toks, next, nest, Single(b))
  }

  function ParseAlternatives(toks: seq<Token>, pos: nat, nest: nat, acc: Pattern): (r: Outcome<Pattern>)
    requires pos <= |toks|
    ensures r.Ok? ==> pos <= r.pos <= |toks|
    decreases |toks| - pos, 5
  {
    if TokenAt(toks, pos) != TAlt then Ok(acc, pos)
    else
      match ParseBranch(toks, pos + 1, nest, Empty)
      case Fail(e) => Fail(e)
      case Ok(b, next) => ParseAlternatives(toks, next, nest, Or(acc, b))
  }

  function ParseBranch(toks: seq<Token>, pos: nat, nest: nat, acc: Branch): (r: Outcome<Branch>)
    requires pos <= |toks|
    ensures r.Ok? ==> pos <= r.pos <= |toks|
    decreases |toks| - pos, 4
  {
    if EndsBranch(TokenAt(toks, pos), nest) then Ok(acc, pos)
    else
      match ParseExpression(toks, pos, nest)
      case Fail(e) => Fail(e)
      case Ok(piece, next) => ParseBranch(toks, next, nest, Then(acc, piece))
  }

  function ParseExpression(toks: seq<Token>, pos: nat, nest: nat): (r: Outcome<Piece>)
    requires pos < |toks| && !EndsBranch(toks[pos], nest)
    ensures r.Ok? ==> pos < r.pos <= |toks|
    decreases |toks| - pos, 3
  {
    match toks[pos]
    case TChar(c) => ParseOps(toks, pos + 1, Literal(c))
    case TOpen =>
      (match ParsePattern(toks, pos + 1, nest + 1)
       case Fail(e) => Fail(e)
       case Ok(p, next) =>
         if TokenAt(toks, next) != TClose then Fail(BadPattern) else ParseOps(toks, next + 1, Group(p)))
    case TBracket(s) => ParseOps(toks, pos + 1, Bracket(s))
    case TClose => ParseOps(toks, pos + 1, LiteralClose)
    case TCloseDup => ParseOps(toks, pos + 1, LiteralCloseDup)
    case TPeriod => ParseOps(toks, pos + 1, AnyChar)
    case _ => Fail(BadRepeat)
  }

  function ParseOps(toks: seq<Token>, pos: nat, acc: Piece): (r: Outcome<Piece>)
    requires pos <= |toks|
    ensures r.Ok? ==> pos <= r.pos <= |toks|
    decreases |toks| - pos, 2
  {
    if !TokenAt(toks, pos).IsDupOp() then Ok(acc, pos)
    else
      match ParseDupOp(toks, pos)
      case Fail(e) => Fail(e)
      case Ok(op, next) =>
        if IsNull(acc) && NeedsOperand(op) then Fail(NullOperand)
        else ParseOps(toks, next, Repeat(acc, op))
  }

  function ParseDupOp(toks: seq<Token>, pos: nat): (r: Outcome<DupOp>)
    requires TokenAt(toks, pos).IsDupOp()
    ensures r.Ok? ==> pos < r.pos <= |toks|
  {
    match toks[pos]
    case TStar => Ok(StarOp, pos + 1)
    case TPlus => Ok(PlusOp, pos + 1)
    case TQuestion => Ok(QuestionOp, pos + 1)
    case TOpenDup => ParseInterval(toks, pos + 1)
  }

  /** fetch_number: the value, and the position of the token that ended the number. */
  function FetchNumber(toks: seq<Token>, pos: nat, num: int): (r: (int, nat))
    requires pos <= |toks|
    ensures pos <= r.1 <= |toks| && (r.0 != -2 ==> r.1 < |toks| && toks[r.1] in {TCloseDup, TChar(COMMA)})
    decreases |toks| - pos
  {
    var tok := TokenAt(toks, pos);
    if tok == TEnd then (-2, pos)
    else if tok == TCloseDup || tok == TChar(COMMA) then (num, pos)
    else if IsDigit(tok) then FetchNumber(toks, pos + 1, NextValue(num, tok.c - DIGIT0))
    else FetchNumber(toks, pos + 1, -2)
  }

  predicate IsDigit(tok: Token) {
    tok.TChar? && DIGIT0 <= tok.c < DIGIT0 + 10
  }

  function DigitsOf(toks: seq<Token>): seq<Digit> {
    seq(|toks|, i requires 0 <= i < |toks| => if IsDigit(toks[i]) then toks[i].c - DIGIT0 else 0)
  }

  function ParseInterval(toks: seq<Token>, pos: nat): (r: Outcome<DupOp>)
    requires pos <= |toks|
    ensures r.Ok? ==> pos < r.pos <= |toks|
  {
    var (first, p1) := FetchNumber(toks, pos, -1);
    var t1 := TokenAt(toks, p1);
    if first == -1 && t1 != TChar(COMMA) then Fail(BadBrace)
    else if first == -2 then Fail(if t1 == TCloseDup then BadBrace else UnmatchedBrace)
    else
      match ParseUpper(toks, p1)
      case Fail(e) => Fail(e)
      case Ok(up, next) => Ok(Interval(DigitsOf(toks[pos..p1]), up), next)
  }

  /** The rest of an interval, from the token that ended its first number. */
  function ParseUpper(toks: seq<Token>, p1: nat): (r: Outcome<Upper>)
    requires p1 < |toks| && toks[p1] in {TCloseDup, TChar(COMMA)}
    ensures r.Ok? ==> p1 < r.pos <= |toks|
  {
    if toks[p1] == TCloseDup then Ok(Same, p1 + 1)
    else
      var (second, p2) := FetchNumber(toks, p1 + 1, -1);
      if second == -2 then Fail(if TokenAt(toks, p2) == TCloseDup then BadBrace else UnmatchedBrace)
      else Ok(UpTo(DigitsOf(toks[p1 + 1..p2]), toks[p2] == TChar(COMMA)), p2 + 1)
  }
}
