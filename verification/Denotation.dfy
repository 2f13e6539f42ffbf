/** What the definitions of the grammar come to: the words of each kind of pattern in bytes and decimal
    numbers, the tokens that spell it, and the error that each kind of malformed token list gets. */
module Denotation {
  import opened Language
  import opened Grammar
  import opened RoundTrip

  // ----- words

  /** The atoms that stand for one byte. A period leaves out newline and NUL as the syntax says; a
      parenthesis or brace that closes nothing stands for itself. */
  lemma AtomMeans(sx: Syntax, w: seq<Byte>)
    ensures PieceHas(sx, AnyChar, w) <==>
              |w| == 1 && (w[0] != 10 || sx.dotNewline) && (w[0] != 0 || !sx.dotNotNull)
    ensures forall c: Byte :: PieceHas(sx, Literal(c), w) <==> w == [c]
    ensures PieceHas(sx, LiteralClose, w) <==> w == [41]
    ensures PieceHas(sx, LiteralCloseDup, w) <==> w == [125]
    ensures forall s: set<Byte> :: PieceHas(sx, Bracket(s), w) <==> |w| == 1 && w[0] in s
  {
  }

  /** Alternatives are a union, branches a concatenation in order, and groups add nothing. */
  lemma PatternMeans(sx: Syntax, p: Pattern, b: Branch, piece: Piece, w: seq<Byte>)
    ensures PatternHas(sx, Single(b), w) <==> BranchHas(sx, b, w)
    ensures PatternHas(sx, Or(p, b), w) <==> PatternHas(sx, p, w) || BranchHas(sx, b, w)
    ensures BranchHas(sx, Empty, w) <==> w == []
    ensures BranchHas(sx, Then(b, piece), w) <==>
            exists i :: 0 <= i <= |w| && BranchHas(sx, b, w[..i]) && PieceHas(sx, piece, w[i..])
    ensures PieceHas(sx, Group(p), w) <==> PatternHas(sx, p, w)
  {
  }

  /** Repetitions: none read nothing, and one more reads a word of the piece first. */
  lemma RepeatedMeans(sx: Syntax, q: Piece, k: nat, w: seq<Byte>)
    ensures PieceRepeated(sx, q, 0, w) <==> w == []
    ensures PieceRepeated(sx, q, k + 1, w) <==>
            exists i :: 0 <= i <= |w| && PieceHas(sx, q, w[..i]) && PieceRepeated(sx, q, k, w[i..])
  {
  }

  /** `w` is a non-empty word of the piece and then a word of its star. */
  ghost predicate StarUnfolds(sx: Syntax, q: Piece, w: seq<Byte>, i: int) {
    0 < i <= |w| && PieceHas(sx, q, w[..i]) && PieceHas(sx, Repeat(q, StarOp), w[i..])
  }

  /** A star: nothing, or a non-empty word of the piece and a star again. */
  lemma StarMeans(sx: Syntax, q: Piece, w: seq<Byte>)
    ensures PieceHas(sx, Repeat(q, StarOp), w) <==> w == [] || exists i :: StarUnfolds(sx, q, w, i)
  {
    hide PieceHas;
    if PieceHas(sx, Repeat(q, StarOp), w) {
      var k := PickRepeats(sx, q, StarOp, w);
      FirstNonEmpty(sx, q, k, w);
    }
    if w == [] {
      StarHas(sx, q, 0, w);
    }
    if i :| StarUnfolds(sx, q, w, i) {
      var k := PickRepeats(sx, q, StarOp, w[i..]);
      StarHas(sx, q, k + 1, w);
    }
  }

  lemma {:induction false} FirstNonEmpty(sx: Syntax, q: Piece, k: nat, w: seq<Byte>)
    requires PieceRepeated(sx, q, k, w)
    ensures w == [] || exists i :: StarUnfolds(sx, q, w, i)
    decreases k
  {
    hide PieceHas;
    if w != [] {
      var i :| 0 <= i <= |w| && PieceHas(sx, q, w[..i]) && PieceRepeated(sx, q, k - 1, w[i..]);
      if i == 0 {
        assert w[0..] == w;
        FirstNonEmpty(sx, q, k - 1, w);
      } else {
        StarHas(sx, q, k - 1, w[i..]);
        assert StarUnfolds(sx, q, w, i);
      }
    }
  }

  lemma StarHas(sx: Syntax, q: Piece, k: nat, w: seq<Byte>)
    requires PieceRepeated(sx, q, k, w)
    ensures PieceHas(sx, Repeat(q, StarOp), w)
  {
    assert Allows(StarOp, k);
  }

  lemma PickRepeats(sx: Syntax, q: Piece, op: DupOp, w: seq<Byte>) returns (k: nat)
    requires PieceHas(sx, Repeat(q, op), w)
    ensures PieceRepeated(sx, q, k, w) && Allows(op, k)
  {
    k :| PieceRepeated(sx, q, k, w) && Allows(op, k);
  }

  lemma PlusHas(sx: Syntax, q: Piece, k: nat, w: seq<Byte>)
    requires k > 0 && PieceRepeated(sx, q, k, w)
    ensures PieceHas(sx, Repeat(q, PlusOp), w)
  {
    assert Allows(PlusOp, k);
  }

  /** A plus: a word of the piece and then a star. */
  lemma PlusMeans(sx: Syntax, q: Piece, w: seq<Byte>)
    ensures PieceHas(sx, Repeat(q, PlusOp), w) <==>
            exists i :: 0 <= i <= |w| && PieceHas(sx, q, w[..i]) && PieceHas(sx, Repeat(q, StarOp), w[i..])
  {
    hide PieceHas;
    if PieceHas(sx, Repeat(q, PlusOp), w) {
      var k := PickRepeats(sx, q, PlusOp, w);
      var i :| 0 <= i <= |w| && PieceHas(sx, q, w[..i]) && PieceRepeated(sx, q, k - 1, w[i..]);
      StarHas(sx, q, k - 1, w[i..]);
    }
    if i :| 0 <= i <= |w| && PieceHas(sx, q, w[..i]) && PieceHas(sx, Repeat(q, StarOp), w[i..]) {
      var k := PickRepeats(sx, q, StarOp, w[i..]);
      PlusHas(sx, q, k + 1, w);
    }
  }

  lemma OnceMeans(sx: Syntax, q: Piece, w: seq<Byte>)
    ensures PieceRepeated(sx, q, 1, w) <==> PieceHas(sx, q, w)
  {
    if PieceRepeated(sx, q, 1, w) {
      var i :| 0 <= i <= |w| && PieceHas(sx, q, w[..i]) && PieceRepeated(sx, q, 0, w[i..]);
      assert w[..i] == w;
    }
    if PieceHas(sx, q, w) {
      assert w[..|w|] == w && PieceRepeated(sx, q, 0, w[|w|..]);
    }
  }

  /** A question mark: nothing, or a word of the piece. */
  lemma QuestionMeans(sx: Syntax, q: Piece, w: seq<Byte>)
    ensures PieceHas(sx, Repeat(q, QuestionOp), w) <==> w == [] || PieceHas(sx, q, w)
  {
    OnceMeans(sx, q, w);
    assert Allows(QuestionOp, 0) && Allows(QuestionOp, 1);
    assert PieceRepeated(sx, q, 0, w) <==> w == [];
    if PieceHas(sx, Repeat(q, QuestionOp), w) {
      var k: nat :| PieceRepeated(sx, q, k, w) && Allows(QuestionOp, k);
      assert k == 0 || k == 1;
    }
  }

  lemma DecimalMeans(ds: seq<Digit>, d: Digit)
    ensures Decimal([]) == 0 && Decimal(ds + [d]) == 10 * Decimal(ds) + d
  {
    assert (ds + [d])[..|ds|] == ds;
  }

  /** The interval `{n}`; a missing n is 0. */
  lemma ExactlyMeans(sx: Syntax, q: Piece, lo: seq<Digit>, w: seq<Byte>)
    requires Decimal(lo) <= 32767
    ensures PieceHas(sx, Repeat(q, Interval(lo, Same)), w) <==> PieceRepeated(sx, q, Decimal(lo), w)
  {
    hide PieceRepeated;
    ValueIsDecimal(lo);
    DecimalMeans([], 0);
    assert forall k: nat :: Allows(Interval(lo, Same), k) <==> k == Decimal(lo);
  }

  /** The interval `{n,}`. */
  lemma AtLeastMeans(sx: Syntax, q: Piece, lo: seq<Digit>, comma: bool, w: seq<Byte>)
    requires Decimal(lo) <= 32767
    ensures PieceHas(sx, Repeat(q, Interval(lo, UpTo([], comma))), w) <==>
            exists k: nat :: PieceRepeated(sx, q, k, w) && k >= Decimal(lo)
  {
    hide PieceRepeated;
    ValueIsDecimal(lo);
    DecimalMeans([], 0);
    var op := Interval(lo, UpTo([], comma));
    if PieceHas(sx, Repeat(q, op), w) {
      var k: nat :| PieceRepeated(sx, q, k, w) && Allows(op, k);
      assert PieceRepeated(sx, q, k, w) && k >= Decimal(lo);
    }
    if k: nat :| PieceRepeated(sx, q, k, w) && k >= Decimal(lo) {
      assert Allows(op, k);
    }
  }

  /** The interval `{n,m}`; an m below n counts as n. */
  lemma BetweenMeans(sx: Syntax, q: Piece, lo: seq<Digit>, hi: seq<Digit>, comma: bool, w: seq<Byte>)
    requires Decimal(lo) <= 32767 && Decimal(hi) <= 32767 && hi != []
    ensures PieceHas(sx, Repeat(q, Interval(lo, UpTo(hi, comma))), w) <==>
            exists k: nat :: PieceRepeated(sx, q, k, w) && (Decimal(lo) <= k <= Decimal(hi) || k == Decimal(lo))
  {
    hide PieceRepeated;
    ValueIsDecimal(lo);
    ValueIsDecimal(hi);
    DecimalMeans([], 0);
    var op := Interval(lo, UpTo(hi, comma));
    if PieceHas(sx, Repeat(q, op), w) {
      var k: nat :| PieceRepeated(sx, q, k, w) && Allows(op, k);
      assert PieceRepeated(sx, q, k, w) && (Decimal(lo) <= k <= Decimal(hi) || k == Decimal(lo));
    }
    if k: nat :| PieceRepeated(sx, q, k, w) && (Decimal(lo) <= k <= Decimal(hi) || k == Decimal(lo)) {
      assert Allows(op, k);
    }
  }

  // ----- spelling

  /** The tokens of each kind of pattern; digits are the characters from 48 on, the comma is 44. */
  lemma TokensMean(p: Pattern, b: Branch, q: Piece, op: DupOp, c: Byte, s: set<Byte>)
    ensures PatternTokens(Single(b)) == BranchTokens(b)
    ensures PatternTokens(Or(p, b)) == PatternTokens(p) + [TAlt] + BranchTokens(b)
    ensures BranchTokens(Empty) == [] && BranchTokens(Then(b, q)) == BranchTokens(b) + PieceTokens(q)
    ensures PieceTokens(Literal(c)) == [TChar(c)] && PieceTokens(Bracket(s)) == [TBracket(s)]
    ensures PieceTokens(AnyChar) == [TPeriod]
    ensures PieceTokens(LiteralClose) == [TClose] && PieceTokens(LiteralCloseDup) == [TCloseDup]
    ensures PieceTokens(Group(p)) == [TOpen] + PatternTokens(p) + [TClose]
    ensures PieceTokens(Repeat(q, op)) == PieceTokens(q) + OpTokens(op)
    ensures OpTokens(StarOp) == [TStar] && OpTokens(PlusOp) == [TPlus] && OpTokens(QuestionOp) == [TQuestion]
  {
  }

  /** The tokens of digits. */
  ghost predicate DigitsSpelled(toks: seq<Token>, ds: seq<Digit>) {
    |toks| == |ds| && forall i :: 0 <= i < |ds| ==> toks[i].TChar? && toks[i].c as int == 48 + ds[i] as int
  }

  lemma DigitsAreSpelled(toks: seq<Token>, ds: seq<Digit>)
    requires DigitsSpelled(toks, ds)
    ensures DigitTokens(ds) == toks
  {
  }

  lemma IntervalTokensMean(lo: seq<Digit>, hi: seq<Digit>, l: seq<Token>, h: seq<Token>)
    requires DigitsSpelled(l, lo) && DigitsSpelled(h, hi)
    ensures OpTokens(Interval(lo, Same)) == [TOpenDup] + l + [TCloseDup]
    ensures OpTokens(Interval(lo, UpTo(hi, false))) == [TOpenDup] + l + [TChar(44)] + h + [TCloseDup]
    ensures OpTokens(Interval(lo, UpTo(hi, true))) == [TOpenDup] + l + [TChar(44)] + h + [TChar(44)]
  {
    hide DigitTokens, DigitsSpelled;
    DigitsAreSpelled(l, lo);
    DigitsAreSpelled(h, hi);
  }

  /** Which patterns can be spelled: a closing parenthesis stands for itself only outside of groups,
      bounds do not exceed 32767, and `{}` has no number. */
  lemma WellFormedMeans(p: Pattern, q: Piece, op: DupOp, lo: seq<Digit>, hi: seq<Digit>, comma: bool, nest: nat)
    ensures PieceOk(LiteralClose, nest) <==> nest == 0
    ensures PieceOk(Group(p), nest) <==> PatternOk(p, nest + 1)
    ensures PieceOk(Repeat(q, op), nest) <==> PieceOk(q, nest) && OpOk(op) && !(IsNull(q) && NeedsOperand(op))
    ensures OpOk(StarOp) && OpOk(PlusOp) && OpOk(QuestionOp)
    ensures OpOk(Interval(lo, Same)) <==> lo != [] && Decimal(lo) <= 32767
    ensures OpOk(Interval(lo, UpTo(hi, comma))) <==> Decimal(lo) <= 32767 && Decimal(hi) <= 32767
  {
    ValueIsDecimal(lo);
    ValueIsDecimal(hi);
    DecimalMeans([], 0);
  }

  /** The pieces that the parser has no tree for are those repeated `{0}` or `{0,0}` times and `{1}` of
      such; any other operator on them needs an operand that is not there. */
  lemma NullMeans(q: Piece, lo: seq<Digit>, hi: seq<Digit>, comma: bool)
    requires Decimal(lo) <= 32767 && Decimal(hi) <= 32767
    ensures !IsNull(Repeat(q, StarOp)) && !IsNull(Repeat(q, PlusOp)) && !IsNull(Repeat(q, QuestionOp))
    ensures IsNull(Repeat(q, Interval(lo, Same))) <==> Decimal(lo) == 0 || IsNull(q)
    ensures IsNull(Repeat(q, Interval(lo, UpTo(hi, comma)))) <==>
            (Decimal(lo) == 0 && hi != [] && Decimal(hi) == 0) || IsNull(q)
    ensures NeedsOperand(StarOp) && NeedsOperand(PlusOp) && NeedsOperand(QuestionOp)
    ensures NeedsOperand(Interval(lo, Same)) <==> Decimal(lo) >= 2
    ensures NeedsOperand(Interval(lo, UpTo(hi, comma))) <==>
            Decimal(lo) >= 2 || hi == [] || Decimal(hi) > Decimal(lo)
  {
    ValueIsDecimal(lo);
    ValueIsDecimal(hi);
    DecimalMeans([], 0);
  }

  function Plain(s: seq<Byte>): Branch {
    if s == [] then Empty else Then(Plain(s[..|s| - 1]), Literal(s[|s| - 1]))
  }

  /** Ordinary characters in a row are a pattern for themselves. */
  lemma {:induction false} PlainMeans(sx: Syntax, s: seq<Byte>, w: seq<Byte>)
    ensures PatternOk(Single(Plain(s)), 0) && (PatternHas(sx, Single(Plain(s)), w) <==> w == s)
    ensures |PatternTokens(Single(Plain(s)))| == |s|
    ensures forall i :: 0 <= i < |s| ==> PatternTokens(Single(Plain(s)))[i] == TChar(s[i])
    decreases |s|
  {
    if s != [] {
      var front, c := s[..|s| - 1], s[|s| - 1];
      PlainMeans(sx, front, w);
      forall i | 0 <= i <= |w|
        ensures BranchHas(sx, Plain(front), w[..i]) <==> w[..i] == front
      {
        PlainMeans(sx, front, w[..i]);
      }
      AtomsOf(sx, c);
      assert s == front + [c];
      PlainSnoc(front, c);
      TokensMean(Single(Plain(front)), Plain(front), Literal(c), StarOp, c, {});
      TokensMean(Single(Plain(s)), Plain(s), Literal(c), StarOp, c, {});
      assert PatternTokens(Single(Plain(s))) == PatternTokens(Single(Plain(front))) + [TChar(c)];
      if BranchHas(sx, Plain(s), w) {
        var i :| 0 <= i <= |w| && BranchHas(sx, Plain(front), w[..i]) && PieceHas(sx, Literal(c), w[i..]);
        assert w == w[..i] + w[i..];
      }
      if w == s {
        assert w[..|front|] == front && w[|front|..] == [c];
        assert BranchHas(sx, Plain(front), w[..|front|]) && PieceHas(sx, Literal(c), w[|front|..]);
      }
    }
  }

  lemma PlainSnoc(front: seq<Byte>, c: Byte)
    ensures Plain(front + [c]) == Then(Plain(front), Literal(c))
  {
    var s := front + [c];
    assert s != [] && s[..|s| - 1] == front && s[|s| - 1] == c;
  }

  lemma AtomsOf(sx: Syntax, c: Byte)
    ensures forall w :: PieceHas(sx, Literal(c), w) <==> w == [c]
  {
  }

  // ----- what the parser notes, in tokens

  /** A token of an alternative or a repetition. */
  predicate IsPlural(t: Token) {
    t in {TAlt, TStar, TPlus, TQuestion, TOpenDup}
  }

  predicate HasPlural(toks: seq<Token>) {
    exists t :: t in toks && IsPlural(t)
  }

  lemma OpTokensNote(op: DupOp)
    ensures HasPlural(OpTokens(op)) && multiset(OpTokens(op))[TOpen] == 0
  {
    assert OpTokens(op)[0] in OpTokens(op);
    NoOpen(op);
  }

  lemma NoOpen(op: DupOp)
    ensures TOpen !in OpTokens(op)
  {
  }

  lemma PluralConcat(a: seq<Token>, b: seq<Token>)
    ensures HasPlural(a + b) <==> HasPlural(a) || HasPlural(b)
  {
    hide IsPlural;
  }

  lemma GroupTokensNote(inner: seq<Token>)
    ensures HasPlural([TOpen] + (inner + [TClose])) <==> HasPlural(inner)
    ensures multiset([TOpen] + (inner + [TClose]))[TOpen] == 1 + multiset(inner)[TOpen]
  {
    PluralConcat([TOpen], inner + [TClose]);
    PluralConcat(inner, [TClose]);
  }

  lemma AltTokensNote(a: seq<Token>, b: seq<Token>)
    ensures HasPlural(a + ([TAlt] + b))
    ensures multiset(a + ([TAlt] + b))[TOpen] == multiset(a)[TOpen] + multiset(b)[TOpen]
  {
    assert TAlt in a + ([TAlt] + b) && IsPlural(TAlt);
  }

  /** A pattern has alternatives or a repetition if one of its tokens says so, and as many groups as
      opening parentheses. */
  lemma {:induction false} PatternNotes(p: Pattern)
    ensures PluralPattern(p) <==> HasPlural(PatternTokens(p))
    ensures GroupsOfPattern(p) == multiset(PatternTokens(p))[TOpen]
  {
    hide HasPlural;
    match p
    case Single(b) => BranchNotes(b);
    case Or(l, r) =>
      PatternNotes(l);
      BranchNotes(r);
      AltTokensNote(PatternTokens(l), BranchTokens(r));
  }

  lemma {:induction false} BranchNotes(b: Branch)
    ensures PluralBranch(b) <==> HasPlural(BranchTokens(b))
    ensures GroupsOfBranch(b) == multiset(BranchTokens(b))[TOpen]
  {
    match b
    case Empty =>
    case Then(front, piece) =>
      hide HasPlural;
      BranchNotes(front);
      PieceNotes(piece);
      PluralConcat(BranchTokens(front), PieceTokens(piece));
  }

  lemma {:induction false} PieceNotes(piece: Piece)
    ensures PluralPiece(piece) <==> HasPlural(PieceTokens(piece))
    ensures GroupsOfPiece(piece) == multiset(PieceTokens(piece))[TOpen]
  {
    match piece
    case Group(p) =>
      hide HasPlural;
      PatternNotes(p);
      GroupTokensNote(PatternTokens(p));
    case Repeat(q, op) =>
      hide HasPlural, OpTokens;
      PieceNotes(q);
      OpTokensNote(op);
      PluralConcat(PieceTokens(q), OpTokens(op));
    case _ =>
      ByteNotes(piece);
  }

  lemma ByteNotes(piece: Piece)
    requires !piece.Group? && !piece.Repeat?
    ensures !HasPlural(PieceTokens(piece)) && multiset(PieceTokens(piece))[TOpen] == 0
  {
  }

  // ----- errors

  lemma OperatorFails(toks: seq<Token>, pos: nat, acc: Branch)
    requires pos < |toks| && toks[pos] in {TStar, TPlus, TQuestion, TOpenDup}
    ensures ParseBranch(toks, pos, 0, acc) == Fail(BadRepeat)
  {
  }

  /** An operator where an expression should start, at the beginning or after an alternative. */
  lemma OperatorFirst(p: Pattern, op: Token, rest: seq<Token>)
    requires PatternOk(p, 0) && op in {TStar, TPlus, TQuestion, TOpenDup}
    ensures ParsePattern([op] + rest, 0, 0) == Fail(BadRepeat)
    ensures ParsePattern(PatternTokens(p) + ([TAlt] + ([op] + rest)), 0, 0) == Fail(BadRepeat)
  {
    hide ParseBranch, PatternTokens, PatternOk;
    OperatorFails([op] + rest, 0, Empty);
    var toks := PatternTokens(p) + ([TAlt] + ([op] + rest));
    var at := |PatternTokens(p)|;
    assert StandsAt(toks, 0, PatternTokens(p)) && toks[at] == TAlt && toks[at + 1] == op;
    OperatorFails(toks, at + 1, Empty);
    ReadsPattern(toks, 0, 0, p);
  }

  /** A parenthesis that is not closed. */
  lemma Unclosed(p: Pattern)
    requires PatternOk(p, 1)
    ensures ParsePattern([TOpen] + PatternTokens(p), 0, 0) == Fail(BadPattern)
  {
    hide PatternTokens, PatternOk;
    var toks := [TOpen] + PatternTokens(p);
    assert StandsAt(toks, 1, PatternTokens(p));
    ReadsPattern(toks, 1, 1, p);
    assert ParsePattern(toks, 1, 1) == Ok(p, |toks|);
    assert ParseExpression(toks, 0, 0) == Fail(BadPattern);
    ExpressionFails(toks, BadPattern);
  }

  lemma ExpressionFails(toks: seq<Token>, e: Error)
    requires toks != [] && !EndsBranch(toks[0], 0) && ParseExpression(toks, 0, 0) == Fail(e)
    ensures ParsePattern(toks, 0, 0) == Fail(e)
  {
  }

  lemma PieceThenFails(toks: seq<Token>, q: Piece, e: Error)
    requires PieceOk(q, 0) && StandsAt(toks, 0, PieceTokens(q)) && ParseOps(toks, |PieceTokens(q)|, q) == Fail(e)
    ensures ParsePattern(toks, 0, 0) == Fail(e)
  {
    hide *;
    ReadsPiece(toks, 0, 0, q);
    ExpressionFails(toks, e);
  }

  /** An operator that needs an operand, after a piece that has no tree. */
  lemma NoOperand(q: Piece, op: DupOp)
    requires PieceOk(q, 0) && OpOk(op) && IsNull(q) && NeedsOperand(op)
    ensures ParsePattern(PieceTokens(q) + OpTokens(op), 0, 0) == Fail(NullOperand)
  {
    hide PieceTokens, PieceOk, OpTokens, OpOk, IsNull, NeedsOperand, ParseDupOp, ParsePattern;
    var toks := PieceTokens(q) + OpTokens(op);
    assert StandsAt(toks, 0, PieceTokens(q)) && StandsAt(toks, |PieceTokens(q)|, OpTokens(op));
    ParsesOp(toks, |PieceTokens(q)|, op);
    PieceThenFails(toks, q, NullOperand);
  }

  /** An interval that is malformed. */
  lemma BadInterval(q: Piece, rest: seq<Token>, e: Error)
    requires PieceOk(q, 0)
    requires var toks := PieceTokens(q) + ([TOpenDup] + rest); ParseInterval(toks, |PieceTokens(q)| + 1) == Fail(e)
    ensures ParsePattern(PieceTokens(q) + ([TOpenDup] + rest), 0, 0) == Fail(e)
  {
    hide PieceTokens, PieceOk, ParseInterval, ParsePattern;
    var toks := PieceTokens(q) + ([TOpenDup] + rest);
    assert StandsAt(toks, 0, PieceTokens(q)) && toks[|PieceTokens(q)|] == TOpenDup;
    PieceThenFails(toks, q, e);
  }

  /** The number that starts at `pos` ends at `e`: at a closing brace, a comma, or the end of the list. */
  ghost predicate NumberEnds(toks: seq<Token>, pos: nat, e: nat) {
    && pos <= e <= |toks|
    && (forall i :: pos <= i < e ==> toks[i] != TEnd && toks[i] != TCloseDup && toks[i] != TChar(44))
    && (e < |toks| ==> toks[e] == TCloseDup || toks[e] == TChar(44))
  }

  /** It is not a number up to 32767: it has no end, holds something else than digits, or is too large. */
  ghost predicate BadNumber(toks: seq<Token>, pos: nat, e: nat)
    requires pos <= e <= |toks|
  {
    || e == |toks|
    || (exists i :: pos <= i < e && !(toks[i].TChar? && 48 <= toks[i].c <= 57))
    || Decimal(DigitsOf(toks[pos..e])) > 32767
  }

  lemma {:induction false} FetchStaysBad(toks: seq<Token>, pos: nat, e: nat)
    requires NumberEnds(toks, pos, e)
    ensures FetchNumber(toks, pos, -2) == (-2, e)
    decreases e - pos
  {
    if pos < e {
      FetchStaysBad(toks, pos + 1, e);
    }
  }

  lemma {:induction false} FetchEnds(toks: seq<Token>, pos: nat, e: nat, num: int)
    requires NumberEnds(toks, pos, e)
    ensures FetchNumber(toks, pos, num).1 == e
    ensures e == |toks| || (exists i :: pos <= i < e && !(toks[i].TChar? && 48 <= toks[i].c <= 57)) ==>
              FetchNumber(toks, pos, num).0 == -2
    decreases e - pos
  {
    if pos < e {
      if IsDigit(toks[pos]) {
        FetchEnds(toks, pos + 1, e, NextValue(num, toks[pos].c - 48));
      } else {
        FetchStaysBad(toks, pos + 1, e);
      }
    }
  }

  /** What fetch_number reads: -2 for a bad number, -1 for none, and else the decimal number. */
  lemma FetchMeans(toks: seq<Token>, pos: nat, e: nat)
    requires NumberEnds(toks, pos, e)
    ensures FetchNumber(toks, pos, -1) ==
            (if BadNumber(toks, pos, e) then -2 else if e == pos then -1 else Decimal(DigitsOf(toks[pos..e])), e)
  {
    FetchEnds(toks, pos, e, -1);
    if e < |toks| && forall i :: pos <= i < e ==> toks[i].TChar? && 48 <= toks[i].c <= 57 {
      var ds := DigitsOf(toks[pos..e]);
      FetchesNumber(toks, pos, ds);
      ValueIsDecimal(ds);
    }
  }

  /** Intervals that are malformed before a comma. */
  lemma LowerErrors(toks: seq<Token>, pos: nat, e: nat)
    requires NumberEnds(toks, pos, e)
    ensures BadNumber(toks, pos, e) ==>
              ParseInterval(toks, pos) ==
              Fail(if e < |toks| && toks[e] == TCloseDup then BadBrace else UnmatchedBrace)
    ensures e == pos < |toks| && toks[e] == TCloseDup ==> ParseInterval(toks, pos) == Fail(BadBrace)
  {
    FetchMeans(toks, pos, e);
  }

  /** And those that are malformed behind it. */
  lemma UpperErrors(toks: seq<Token>, pos: nat, e: nat, e2: nat)
    requires NumberEnds(toks, pos, e) && !BadNumber(toks, pos, e) && toks[e] == TChar(44)
    requires NumberEnds(toks, e + 1, e2) && BadNumber(toks, e + 1, e2)
    ensures ParseInterval(toks, pos) ==
            Fail(if e2 < |toks| && toks[e2] == TCloseDup then BadBrace else UnmatchedBrace)
  {
    FetchMeans(toks, pos, e);
    FetchMeans(toks, e + 1, e2);
  }
}
