/** The parser and the rendering are inverse to each other. */
module RoundTrip {
  import opened Grammar

  /** `part` stands in `toks` from position `pos` on. */
  ghost predicate StandsAt(toks: seq<Token>, pos: nat, part: seq<Token>) {
    pos + |part| <= |toks| && forall k :: 0 <= k < |part| ==> part[k] == toks[pos + k]
  }

  lemma StandsAtSplit(toks: seq<Token>, pos: nat, a: seq<Token>, b: seq<Token>)
    requires StandsAt(toks, pos, a + b)
    ensures StandsAt(toks, pos, a) && StandsAt(toks, pos + |a|, b)
  {
    assert forall k :: 0 <= k < |a| ==> (a + b)[k] == a[k];
    assert forall k :: 0 <= k < |b| ==> (a + b)[|a| + k] == b[k];
  }

  /** A list that starts with the token `t`. */
  lemma StandsAtCons(toks: seq<Token>, pos: nat, t: Token, rest: seq<Token>)
    requires StandsAt(toks, pos, [t] + rest)
    ensures pos < |toks| && toks[pos] == t && StandsAt(toks, pos + 1, rest)
  {
    StandsAtSplit(toks, pos, [t], rest);
    assert [t][0] == toks[pos + 0];
  }

  // ----- digits

  lemma DigitsOfTokens(ds: seq<Digit>)
    ensures DigitsOf(DigitTokens(ds)) == ds
  {
  }

  lemma {:induction false} FetchDigits(toks: seq<Token>, pos: nat, ds: seq<Digit>)
    requires StandsAt(toks, pos, DigitTokens(ds))
    ensures FetchNumber(toks, pos, -1) == FetchNumber(toks, pos + |ds|, Value(ds))
    ensures toks[pos..pos + |ds|] == DigitTokens(ds)
    decreases |ds|
  {
    if ds != [] {
      var n := |ds| - 1;
      assert DigitTokens(ds) == DigitTokens(ds[..n]) + [TChar(DIGIT0 + ds[n])];
      StandsAtSplit(toks, pos, DigitTokens(ds[..n]), [TChar(DIGIT0 + ds[n])]);
      StandsAtCons(toks, pos + n, TChar(DIGIT0 + ds[n]), []);
      hide FetchNumber, StandsAt, DigitTokens, NextValue;
      FetchDigits(toks, pos, ds[..n]);
      FetchDigit(toks, pos + n, Value(ds[..n]), ds[n]);
      assert toks[pos..pos + |ds|] == toks[pos..pos + n] + [toks[pos + n]];
    }
  }

  lemma FetchDigit(toks: seq<Token>, pos: nat, num: int, d: Digit)
    requires pos < |toks| && toks[pos] == TChar(DIGIT0 + d)
    ensures FetchNumber(toks, pos, num) == FetchNumber(toks, pos + 1, NextValue(num, d))
  {
  }

  /** `part` is a run of digits whose value is `num`. */
  ghost predicate Spells(part: seq<Token>, num: int) {
    num == Value(DigitsOf(part)) && part == DigitTokens(DigitsOf(part))
  }

  lemma OneMoreDigit(part: seq<Token>, num: int, tok: Token)
    requires Spells(part, num) && IsDigit(tok)
    ensures Spells(part + [tok], NextValue(num, tok.c - DIGIT0))
  {
    var ds := DigitsOf(part + [tok]);
    assert ds == DigitsOf(part) + [tok.c - DIGIT0];
    assert ds[..|ds| - 1] == DigitsOf(part);
    assert DigitTokens(ds) == DigitTokens(DigitsOf(part)) + [tok];
  }

  /** A number that is fetched without an error is the value of the digits that were read. */
  lemma {:induction false} FetchIsSound(toks: seq<Token>, start: nat, pos: nat, num: int)
    requires start <= pos <= |toks|
    requires num != -2 ==> Spells(toks[start..pos], num)
    ensures var (value, end) := FetchNumber(toks, pos, num);
            value != -2 ==> Spells(toks[start..end], value)
    decreases |toks| - pos
  {
    hide Spells;
    var tok := TokenAt(toks, pos);
    if tok != TEnd && tok != TCloseDup && tok != TChar(COMMA) {
      if IsDigit(tok) {
        assert toks[start..pos + 1] == toks[start..pos] + [tok];
        if num != -2 {
          OneMoreDigit(toks[start..pos], num, tok);
        }
        FetchIsSound(toks, start, pos + 1, NextValue(num, tok.c - DIGIT0));
      } else {
        FetchIsSound(toks, start, pos + 1, -2);
      }
    }
  }

  // ----- rendering, then parsing

  lemma FetchesNumber(toks: seq<Token>, pos: nat, ds: seq<Digit>)
    requires StandsAt(toks, pos, DigitTokens(ds))
    requires pos + |ds| < |toks| && toks[pos + |ds|] in {TCloseDup, TChar(COMMA)}
    ensures FetchNumber(toks, pos, -1) == (Value(ds), pos + |ds|)
    ensures DigitsOf(toks[pos..pos + |ds|]) == ds
  {
    FetchDigits(toks, pos, ds);
    DigitsOfTokens(ds);
  }

  /** The parts of an interval, each at its place. */
  lemma ParsesInterval(toks: seq<Token>, pos: nat, lo: seq<Digit>, up: Upper)
    requires StandsAt(toks, pos, DigitTokens(lo) + UpperTokens(up)) && OpOk(Interval(lo, up))
    ensures ParseInterval(toks, pos) == Ok(Interval(lo, up), pos + |lo| + |UpperTokens(up)|)
  {
    hide FetchNumber, DigitTokens, DigitsOf, ParseUpper, UpperTokens;
    StandsAtSplit(toks, pos, DigitTokens(lo), UpperTokens(up));
    DigitCount(lo);
    ParsesRest(toks, pos + |lo|, up);
    FetchesNumber(toks, pos, lo);
  }

  lemma DigitCount(ds: seq<Digit>)
    ensures |DigitTokens(ds)| == |ds|
  {
  }

  /** The rest of an interval, from the token that ends its first number. */
  lemma ParsesRest(toks: seq<Token>, p1: nat, up: Upper)
    requires StandsAt(toks, p1, UpperTokens(up)) && (up.UpTo? ==> Value(up.digits) != -2)
    ensures p1 < |toks| && toks[p1] == if up == Same then TCloseDup else TChar(COMMA)
    ensures ParseUpper(toks, p1) == Ok(up, p1 + |UpperTokens(up)|)
  {
    hide FetchNumber, DigitTokens, DigitsOf;
    match up
    case Same =>
      StandsAtCons(toks, p1, TCloseDup, []);
    case UpTo(hi, comma) =>
      var end := if comma then TChar(COMMA) else TCloseDup;
      StandsAtCons(toks, p1, TChar(COMMA), DigitTokens(hi) + [end]);
      DigitCount(hi);
      ParsesUpper(toks, p1 + 1, hi, end);
  }

  lemma ParsesUpper(toks: seq<Token>, pos: nat, hi: seq<Digit>, end: Token)
    requires StandsAt(toks, pos, DigitTokens(hi) + [end]) && end in {TCloseDup, TChar(COMMA)}
    ensures pos + |hi| < |toks| && toks[pos + |hi|] == end
    ensures FetchNumber(toks, pos, -1) == (Value(hi), pos + |hi|)
    ensures DigitsOf(toks[pos..pos + |hi|]) == hi
  {
    StandsAtSplit(toks, pos, DigitTokens(hi), [end]);
    StandsAtCons(toks, pos + |hi|, end, []);
    FetchesNumber(toks, pos, hi);
  }

  lemma ParsesOp(toks: seq<Token>, pos: nat, op: DupOp)
    requires StandsAt(toks, pos, OpTokens(op)) && OpOk(op)
    ensures TokenAt(toks, pos).IsDupOp() && ParseDupOp(toks, pos) == Ok(op, pos + |OpTokens(op)|)
  {
    match op
    case Interval(lo, up) =>
      StandsAtCons(toks, pos, TOpenDup, DigitTokens(lo) + UpperTokens(up));
      ParsesInterval(toks, pos + 1, lo, up);
    case _ =>
      StandsAtCons(toks, pos, OpTokens(op)[0], []);
  }

  // One step of each loop of the parser.

  lemma StepOps(toks: seq<Token>, pos: nat, acc: Piece, op: DupOp, next: nat)
    requires TokenAt(toks, pos).IsDupOp() && ParseDupOp(toks, pos) == Ok(op, next) && !(IsNull(acc) && NeedsOperand(op))
    ensures ParseOps(toks, pos, acc) == ParseOps(toks, next, Repeat(acc, op))
  {
  }

  lemma StepGroup(toks: seq<Token>, pos: nat, nest: nat, p: Pattern, next: nat)
    requires pos < |toks| && toks[pos] == TOpen
    requires ParsePattern(toks, pos + 1, nest + 1) == Ok(p, next) && next < |toks| && toks[next] == TClose
    ensures ParseExpression(toks, pos, nest) == ParseOps(toks, next + 1, Group(p))
  {
  }

  lemma StepBranch(toks: seq<Token>, pos: nat, nest: nat, acc: Branch, piece: Piece, next: nat)
    requires pos < |toks| && !EndsBranch(toks[pos], nest) && ParseExpression(toks, pos, nest) == Ok(piece, next)
    ensures ParseBranch(toks, pos, nest, acc) == ParseBranch(toks, next, nest, Then(acc, piece))
  {
  }

  lemma EndOfBranch(toks: seq<Token>, pos: nat, nest: nat, acc: Branch)
    requires pos <= |toks| && EndsBranch(TokenAt(toks, pos), nest)
    ensures ParseBranch(toks, pos, nest, acc) == Ok(acc, pos)
  {
  }

  lemma StepAlternatives(toks: seq<Token>, pos: nat, nest: nat, acc: Pattern, b: Branch, next: nat)
    requires pos < |toks| && toks[pos] == TAlt && ParseBranch(toks, pos + 1, nest, Empty) == Ok(b, next)
    ensures ParseAlternatives(toks, pos, nest, acc) == ParseAlternatives(toks, next, nest, Or(acc, b))
  {
  }

  /** Reading a piece brings the parser to its operator loop with that piece. */
  lemma {:induction false} ReadsPiece(toks: seq<Token>, pos: nat, nest: nat, piece: Piece)
    requires StandsAt(toks, pos, PieceTokens(piece)) && PieceOk(piece, nest)
    ensures pos < |toks| && !EndsBranch(toks[pos], nest) && !toks[pos].IsDupOp()
    ensures ParseExpression(toks, pos, nest) == ParseOps(toks, pos + |PieceTokens(piece)|, piece)
    decreases piece, 0
  {
    hide ParseExpression, ParseOps, PatternTokens, PatternOk, StandsAt, OpTokens, OpOk;
    if piece.Group? {
      ReadsGroup(toks, pos, nest, piece.p);
    } else if piece.Repeat? {
      ReadsRepeat(toks, pos, nest, piece.piece, piece.op);
    } else {
      ReadsByte(toks, pos, nest, piece);
    }
  }

  lemma {:induction false} ReadsRepeat(toks: seq<Token>, pos: nat, nest: nat, q: Piece, op: DupOp)
    requires StandsAt(toks, pos, PieceTokens(q) + OpTokens(op)) && PieceOk(Repeat(q, op), nest)
    ensures pos < |toks| && !EndsBranch(toks[pos], nest) && !toks[pos].IsDupOp()
    ensures ParseExpression(toks, pos, nest) == ParseOps(toks, pos + |PieceTokens(q) + OpTokens(op)|, Repeat(q, op))
    decreases q, 1
  {
    hide ParseExpression, ParseOps;
    StandsAtSplit(toks, pos, PieceTokens(q), OpTokens(op));
    ReadsPiece(toks, pos, nest, q);
    ReadsOp(toks, pos + |PieceTokens(q)|, q, op);
  }

  lemma ReadsOp(toks: seq<Token>, at: nat, q: Piece, op: DupOp)
    requires StandsAt(toks, at, OpTokens(op)) && OpOk(op) && !(IsNull(q) && NeedsOperand(op))
    ensures ParseOps(toks, at, q) == ParseOps(toks, at + |OpTokens(op)|, Repeat(q, op))
  {
    hide ParseOps, ParseDupOp, OpTokens, StandsAt;
    ParsesOp(toks, at, op);
    StepOps(toks, at, q, op, at + |OpTokens(op)|);
  }

  lemma ReadsByte(toks: seq<Token>, pos: nat, nest: nat, piece: Piece)
    requires !piece.Group? && !piece.Repeat? && PieceOk(piece, nest) && StandsAt(toks, pos, PieceTokens(piece))
    ensures pos < |toks| && !EndsBranch(toks[pos], nest) && !toks[pos].IsDupOp()
    ensures ParseExpression(toks, pos, nest) == ParseOps(toks, pos + 1, piece)
  {
    StandsAtCons(toks, pos, PieceTokens(piece)[0], []);
  }

  lemma {:induction false} ReadsGroup(toks: seq<Token>, pos: nat, nest: nat, p: Pattern)
    requires StandsAt(toks, pos, [TOpen] + (PatternTokens(p) + [TClose])) && PatternOk(p, nest + 1)
    ensures pos < |toks| && toks[pos] == TOpen
    ensures ParseExpression(toks, pos, nest) == ParseOps(toks, pos + |PatternTokens(p)| + 2, Group(p))
    decreases p, 2
  {
    StandsAtCons(toks, pos, TOpen, PatternTokens(p) + [TClose]);
    StandsAtSplit(toks, pos + 1, PatternTokens(p), [TClose]);
    var next := pos + 1 + |PatternTokens(p)|;
    StandsAtCons(toks, next, TClose, []);
    ReadsPattern(toks, pos + 1, nest + 1, p);
    StepGroup(toks, pos, nest, p, next);
  }

  lemma {:induction false} ReadsBranch(toks: seq<Token>, pos: nat, nest: nat, b: Branch)
    requires StandsAt(toks, pos, BranchTokens(b)) && BranchOk(b, nest)
    requires !TokenAt(toks, pos + |BranchTokens(b)|).IsDupOp()
    ensures ParseBranch(toks, pos, nest, Empty) == ParseBranch(toks, pos + |BranchTokens(b)|, nest, b)
    decreases b, 0
  {
    hide ParseExpression, ParseBranch, PieceTokens, PieceOk;
    match b
    case Empty =>
    case Then(front, piece) =>
      StandsAtSplit(toks, pos, BranchTokens(front), PieceTokens(piece));
      var at := pos + |BranchTokens(front)|;
      ReadsPiece(toks, at, nest, piece);
      ReadsBranch(toks, pos, nest, front);
      StepBranch(toks, at, nest, front, piece, at + |PieceTokens(piece)|);
  }

  lemma {:induction false} ReadsPattern(toks: seq<Token>, pos: nat, nest: nat, p: Pattern)
    requires StandsAt(toks, pos, PatternTokens(p)) && PatternOk(p, nest)
    requires EndsBranch(TokenAt(toks, pos + |PatternTokens(p)|), nest)
    ensures ParsePattern(toks, pos, nest) == ParseAlternatives(toks, pos + |PatternTokens(p)|, nest, p)
    decreases p, 1
  {
    match p
    case Single(b) =>
      ReadsBranch(toks, pos, nest, b);
    case Or(l, r) =>
      ReadsOr(toks, pos, nest, p);
  }

  lemma {:induction false} ReadsOr(toks: seq<Token>, pos: nat, nest: nat, p: Pattern)
    requires p.Or? && StandsAt(toks, pos, PatternTokens(p)) && PatternOk(p, nest)
    requires EndsBranch(TokenAt(toks, pos + |PatternTokens(p)|), nest)
    ensures ParsePattern(toks, pos, nest) == ParseAlternatives(toks, pos + |PatternTokens(p)|, nest, p)
    decreases p, 0
  {
    hide ParsePattern, ParseAlternatives, ParseBranch, BranchTokens, BranchOk;
    var l, r := p.left, p.right;
    StandsAtSplit(toks, pos, PatternTokens(l), [TAlt] + BranchTokens(r));
    var mid := pos + |PatternTokens(l)|;
    StandsAtCons(toks, mid, TAlt, BranchTokens(r));
    ReadsPattern(toks, pos, nest, l);
    ReadsBranch(toks, mid + 1, nest, r);
    EndOfBranch(toks, mid + 1 + |BranchTokens(r)|, nest, r);
    StepAlternatives(toks, mid, nest, l, r, mid + 1 + |BranchTokens(r)|);
  }

  /** Every well-formed pattern is recovered from its token list, with nothing left over. */
  lemma RenderThenParse(p: Pattern)
    requires PatternOk(p, 0)
    ensures ParsePattern(PatternTokens(p), 0, 0) == Ok(p, |PatternTokens(p)|)
  {
    ReadsPattern(PatternTokens(p), 0, 0, p);
  }

  // ----- parsing, then rendering

  lemma OpIsSound(toks: seq<Token>, pos: nat)
    requires TokenAt(toks, pos).IsDupOp()
    ensures var r := ParseDupOp(toks, pos);
            r.Ok? ==> OpOk(r.value) && toks[pos..r.pos] == OpTokens(r.value)
  {
    if toks[pos] == TOpenDup && ParseDupOp(toks, pos).Ok? {
      IntervalIsSound(toks, pos);
    }
  }

  lemma FetchedDigits(toks: seq<Token>, pos: nat)
    requires pos <= |toks| && FetchNumber(toks, pos, -1).0 != -2
    ensures Spells(toks[pos..FetchNumber(toks, pos, -1).1], FetchNumber(toks, pos, -1).0)
  {
    assert Spells(toks[pos..pos], -1);
    FetchIsSound(toks, pos, pos, -1);
  }

  lemma IntervalIsSound(toks: seq<Token>, pos: nat)
    requires pos < |toks| && toks[pos] == TOpenDup && ParseInterval(toks, pos + 1).Ok?
    ensures var r := ParseInterval(toks, pos + 1); OpOk(r.value) && toks[pos..r.pos] == OpTokens(r.value)
  {
    var r := ParseInterval(toks, pos + 1);
    var p1 := FetchNumber(toks, pos + 1, -1).1;
    hide FetchNumber, DigitsOf, Value, ParseUpper;
    FetchedDigits(toks, pos + 1);
    UpperIsSound(toks, p1);
    SliceJoin(toks, pos + 1, p1, r.pos);
    SliceJoin(toks, pos, pos + 1, r.pos);
    assert toks[pos..pos + 1] == [TOpenDup];
  }

  lemma SliceJoin(toks: seq<Token>, a: nat, b: nat, c: nat)
    requires a <= b <= c <= |toks|
    ensures toks[a..c] == toks[a..b] + toks[b..c]
  {
  }

  lemma UpperIsSound(toks: seq<Token>, p1: nat)
    requires p1 < |toks| && toks[p1] in {TCloseDup, TChar(COMMA)} && ParseUpper(toks, p1).Ok?
    ensures toks[p1..ParseUpper(toks, p1).pos] == UpperTokens(ParseUpper(toks, p1).value)
    ensures ParseUpper(toks, p1).value.UpTo? ==> Value(ParseUpper(toks, p1).value.digits) != -2
  {
    hide FetchNumber, DigitsOf, DigitTokens;
    if toks[p1] != TCloseDup {
      var p2 := FetchNumber(toks, p1 + 1, -1).1;
      FetchedDigits(toks, p1 + 1);
      UpperSlice(toks, p1, p2);
    }
  }

  lemma UpperSlice(toks: seq<Token>, p1: nat, p2: nat)
    requires p1 < p2 < |toks| && toks[p1] == TChar(COMMA)
    ensures toks[p1..p2 + 1] == [TChar(COMMA)] + (toks[p1 + 1..p2] + [toks[p2]])
  {
    SliceJoin(toks, p1, p1 + 1, p2 + 1);
    SliceJoin(toks, p1 + 1, p2, p2 + 1);
    assert toks[p1..p1 + 1] == [TChar(COMMA)] && toks[p2..p2 + 1] == [toks[p2]];
  }

  lemma {:induction false} OpsAreSound(toks: seq<Token>, start: nat, pos: nat, nest: nat, acc: Piece)
    requires start <= pos <= |toks| && PieceOk(acc, nest) && toks[start..pos] == PieceTokens(acc)
    ensures var r := ParseOps(toks, pos, acc);
            r.Ok? ==> PieceOk(r.value, nest) && toks[start..r.pos] == PieceTokens(r.value)
    decreases |toks| - pos, 2
  {
    if TokenAt(toks, pos).IsDupOp() && ParseDupOp(toks, pos).Ok? {
      var op, next := ParseDupOp(toks, pos).value, ParseDupOp(toks, pos).pos;
      if !(IsNull(acc) && NeedsOperand(op)) {
        OpIsSound(toks, pos);
        SliceJoin(toks, start, pos, next);
        OpsAreSound(toks, start, next, nest, Repeat(acc, op));
      }
    }
  }

  lemma {:induction false} PieceIsSound(toks: seq<Token>, pos: nat, nest: nat)
    requires pos < |toks| && !EndsBranch(toks[pos], nest)
    ensures var r := ParseExpression(toks, pos, nest);
            r.Ok? ==> PieceOk(r.value, nest) && toks[pos..r.pos] == PieceTokens(r.value)
    decreases |toks| - pos, 3
  {
    match toks[pos]
    case TChar(c) => OpsAreSound(toks, pos, pos + 1, nest, Literal(c));
    case TBracket(s) => OpsAreSound(toks, pos, pos + 1, nest, Bracket(s));
    case TClose => OpsAreSound(toks, pos, pos + 1, nest, LiteralClose);
    case TCloseDup => OpsAreSound(toks, pos, pos + 1, nest, LiteralCloseDup);
    case TPeriod => OpsAreSound(toks, pos, pos + 1, nest, AnyChar);
    case TOpen => GroupIsSound(toks, pos, nest);
    case _ =>
  }

  lemma {:induction false} GroupIsSound(toks: seq<Token>, pos: nat, nest: nat)
    requires pos < |toks| && toks[pos] == TOpen
    ensures var r := ParseExpression(toks, pos, nest);
            r.Ok? ==> PieceOk(r.value, nest) && toks[pos..r.pos] == PieceTokens(r.value)
    decreases |toks| - pos, 2
  {
    hide ParsePattern, ParseExpression, ParseOps, PatternOk, PatternTokens;
    var sub := ParsePattern(toks, pos + 1, nest + 1);
    GroupNeedsClose(toks, pos, nest);
    if sub.Ok? && TokenAt(toks, sub.pos) == TClose {
      PatternIsSound(toks, pos + 1, nest + 1);
      GroupSlice(toks, pos, sub.pos, sub.value);
      StepGroup(toks, pos, nest, sub.value, sub.pos);
      hide PieceTokens;
      OpsAreSound(toks, pos, sub.pos + 1, nest, Group(sub.value));
    }
  }

  lemma GroupNeedsClose(toks: seq<Token>, pos: nat, nest: nat)
    requires pos < |toks| && toks[pos] == TOpen
    ensures var sub := ParsePattern(toks, pos + 1, nest + 1);
            ParseExpression(toks, pos, nest).Ok? ==> sub.Ok? && TokenAt(toks, sub.pos) == TClose
  {
  }

  lemma GroupSlice(toks: seq<Token>, pos: nat, end: nat, p: Pattern)
    requires pos < end < |toks| && toks[pos] == TOpen && toks[end] == TClose && toks[pos + 1..end] == PatternTokens(p)
    ensures toks[pos..end + 1] == PieceTokens(Group(p))
  {
    hide PatternTokens;
    SliceJoin(toks, pos, pos + 1, end + 1);
    SliceJoin(toks, pos + 1, end, end + 1);
    assert toks[pos..pos + 1] == [TOpen] && toks[end..end + 1] == [TClose];
  }

  lemma {:induction false} BranchIsSound(toks: seq<Token>, start: nat, pos: nat, nest: nat, acc: Branch)
    requires start <= pos <= |toks| && BranchOk(acc, nest) && toks[start..pos] == BranchTokens(acc)
    ensures var r := ParseBranch(toks, pos, nest, acc);
            r.Ok? ==>
              && BranchOk(r.value, nest)
              && toks[start..r.pos] == BranchTokens(r.value)
              && EndsBranch(TokenAt(toks, r.pos), nest)
    decreases |toks| - pos, 4
  {
    if !EndsBranch(TokenAt(toks, pos), nest) {
      var r := ParseExpression(toks, pos, nest);
      if r.Ok? {
        PieceIsSound(toks, pos, nest);
        SliceJoin(toks, start, pos, r.pos);
        BranchIsSound(toks, start, r.pos, nest, Then(acc, r.value));
      }
    }
  }

  lemma AltSlice(toks: seq<Token>, start: nat, pos: nat, end: nat)
    requires start <= pos < end <= |toks| && toks[pos] == TAlt
    ensures toks[start..end] == toks[start..pos] + ([TAlt] + toks[pos + 1..end])
  {
    SliceJoin(toks, start, pos, end);
    SliceJoin(toks, pos, pos + 1, end);
    assert toks[pos..pos + 1] == [TAlt];
  }

  lemma {:induction false} AlternativesAreSound(toks: seq<Token>, start: nat, pos: nat, nest: nat, acc: Pattern)
    requires start <= pos <= |toks| && PatternOk(acc, nest) && toks[start..pos] == PatternTokens(acc)
    requires EndsBranch(TokenAt(toks, pos), nest)
    ensures var r := ParseAlternatives(toks, pos, nest, acc);
            r.Ok? ==>
              && PatternOk(r.value, nest)
              && toks[start..r.pos] == PatternTokens(r.value)
              && EndsBranch(TokenAt(toks, r.pos), nest)
    ensures var r := ParseAlternatives(toks, pos, nest, acc); r.Ok? ==> TokenAt(toks, r.pos) != TAlt
    decreases |toks| - pos, 5
  {
    hide ParseBranch;
    if TokenAt(toks, pos) == TAlt {
      var r := ParseBranch(toks, pos + 1, nest, Empty);
      if r.Ok? {
        assert toks[pos + 1..pos + 1] == [];
        BranchIsSound(toks, pos + 1, pos + 1, nest, Empty);
        AltSlice(toks, start, pos, r.pos);
        hide BranchTokens, BranchOk;
        AlternativesAreSound(toks, start, r.pos, nest, Or(acc, r.value));
      }
    }
  }

  lemma {:induction false} PatternIsSound(toks: seq<Token>, pos: nat, nest: nat)
    requires pos <= |toks|
    ensures var r := ParsePattern(toks, pos, nest);
            r.Ok? ==>
              && PatternOk(r.value, nest)
              && toks[pos..r.pos] == PatternTokens(r.value)
              && EndsBranch(TokenAt(toks, r.pos), nest)
    ensures var r := ParsePattern(toks, pos, nest); r.Ok? ==> TokenAt(toks, r.pos) != TAlt
    decreases |toks| - pos, 6
  {
    var r := ParseBranch(toks, pos, nest, Empty);
    assert toks[pos..pos] == [];
    BranchIsSound(toks, pos, pos, nest, Empty);
    if r.Ok? {
      AlternativesAreSound(toks, pos, r.pos, nest, Single(r.value));
    }
  }

  /** Whatever the parser accepts is a well-formed pattern whose token list is exactly the input. */
  lemma ParseThenRender(toks: seq<Token>)
    requires TEnd !in toks && ParsePattern(toks, 0, 0).Ok?
    ensures var r := ParsePattern(toks, 0, 0);
            && r.pos == |toks|
            && PatternTokens(r.value) == toks
            && PatternOk(r.value, 0)
  {
    PatternIsSound(toks, 0, 0);
    var r := ParsePattern(toks, 0, 0);
    assert toks[0..|toks|] == toks;
  }

  /** A token list is accepted if and only if it is the rendering of a well-formed pattern, and that
      pattern is then the only one. */
  lemma AcceptedIffRendered(toks: seq<Token>, p: Pattern)
    requires TEnd !in toks
    ensures ParsePattern(toks, 0, 0) == Ok(p, |toks|) <==> PatternOk(p, 0) && PatternTokens(p) == toks
    ensures PatternOk(p, 0) && PatternTokens(p) == toks ==> ParsePattern(toks, 0, 0).Ok?
  {
    if ParsePattern(toks, 0, 0).Ok? {
      ParseThenRender(toks);
    }
    if PatternOk(p, 0) && PatternTokens(p) == toks {
      RenderThenParse(p);
    }
  }
}
