/** re_compile_internal, regexec and the theorem that ties them together: a search reports a match if
    and only if some part of the string is a word of the pattern. */
module Compile {
  import opened Language
  import opened NfaModel
  import opened Analyze
  import opened Grammar
  import opened RoundTrip
  import opened TreeLanguage
  import opened TreePool
  import opened Closure
  import opened Partition
  import opened DfaCache
  import opened Matcher
  import opened Search
  import opened Fronts
  import P = Parser

  /** The tree of a pattern and the END_OF_RE node behind it, as parse leaves them in the pool. */
  ghost predicate Parsed(pool: seq<BinTree>, nodes: seq<Node>, root: int, t: Tree, eor: nat)
    requires Forest(pool, nodes)
  {
    && 0 <= root < |pool| && IsRoot(pool, root) && WellFormed(t)
    && TreeOf(pool, nodes, root) == CatOf(t, Leaf(eor, EndOfRe))
  }

  /** The wiring of the root wires the pattern's tree in front of the END_OF_RE node. */
  lemma RootIsWired(nfa: Nfa, t: Tree, eor: nat, next: int)
    requires nfa.Shape() && Wired(nfa, CatOf(t, Leaf(eor, EndOfRe)), next)
    ensures Wired(nfa, t, eor) && nfa.Has(eor) && nfa.nodes[eor] == EndOfRe
    ensures First(CatOf(t, Leaf(eor, EndOfRe)), next) == First(t, eor) || t != Null
  {
  }

  lemma {:induction false} NodesAreNotEor(nfa: Nfa, t: Tree, next: int, n: int)
    requires nfa.Shape() && WellFormed(t) && Wired(nfa, t, next) && n in Nodes(t)
    ensures nfa.Has(n) && nfa.nodes[n] != EndOfRe
  {
    match t
    case Leaf(_, _) =>
    case Cat(l, r) =>
      if n in Nodes(l) {
        NodesAreNotEor(nfa, l, First(r, next), n);
      } else {
        NodesAreNotEor(nfa, r, next, n);
      }
    case Alt(i, l, r) =>
      if n in Nodes(l) {
        NodesAreNotEor(nfa, l, next, n);
      } else if n in Nodes(r) {
        NodesAreNotEor(nfa, r, next, n);
      }
    case Dup(i, op, l) =>
      if n in Nodes(l) {
        NodesAreNotEor(nfa, l, if op == Question then next else i, n);
      }
  }

  /** From a wired tree, edges lead only to nodes of the tree and the END_OF_RE node. */
  lemma LiveNodes(nfa: Nfa, t: Tree, eor: nat, n: int)
    requires nfa.Shape() && WellFormed(t) && Wired(nfa, t, eor) && nfa.Has(eor) && nfa.nodes[eor] == EndOfRe
    requires forall S: set<int> :: Closed(nfa, S) && First(t, eor) in S ==> n in S
    ensures nfa.Has(n) && (nfa.nodes[n] == EndOfRe <==> n == eor)
  {
    WiredIsClosed(nfa, t, eor);
    if n != eor {
      NodesAreNotEor(nfa, t, eor, n);
    }
  }

  /** The edges of the NFA stay in range: nodes outside the tree have none. */
  lemma WiredInRange(nfa: Nfa, t: Tree, eor: nat)
    requires nfa.Shape() && WellFormed(t) && Wired(nfa, t, eor) && nfa.Has(eor) && nfa.nodes[eor] == EndOfRe
    requires forall i :: 0 <= i < |nfa.nodes| && i !in Nodes(t) + {eor} ==> nfa.edests[i] == []
    ensures EdgesInRange(nfa)
  {
    WiredIsClosed(nfa, t, eor);
    var S := Nodes(t) + {eor};
    forall n, e | 0 <= n < |nfa.nodes| && nfa.nodes[n].IsEpsilon() && e in nfa.edests[n]
      ensures 0 <= e < |nfa.nodes|
    {
      assert n in S;
      assert EdgesInside(nfa, n, S) && e in S;
      assert EdgesInside(nfa, e, S);
    }
  }

  /** The tree of the pattern is analyzed: `nexts` and `edests` are right for it. */
  ghost predicate AnalyzedFor(nfa: Nfa, t: Tree, eor: nat)
  {
    && nfa.Shape() && WellFormed(t) && Wired(nfa, t, eor) && nfa.Has(eor) && nfa.nodes[eor] == EndOfRe
    && EdgesInRange(nfa)
  }

  /** analyze, up to the epsilon closures */
  method AnalyzeRoot(sx: Syntax, nodes: seq<Node>, pool: seq<BinTree>, root: nat, ghost t: Tree, eor: nat)
      returns (nfa: Nfa, first: int)
    requires Forest(pool, nodes) && Fresh(pool) && Parsed(pool, nodes, root, t, eor)
    ensures nfa.sx == sx && nfa.nodes == nodes && AnalyzedFor(nfa, t, eor) && first == First(t, eor)
  {
    var analyzer := new Analyzer(nodes, pool);
    analyzer.AnalyzeTree(root);
    nfa := Nfa(sx, nodes, analyzer.nexts, analyzer.edests);
    first := analyzer.pool[root].first;
    forall q | q in Below(pool, nodes, root)
      ensures 0 <= q < |pool| && EntryAnalyzed(pool, nodes, q, analyzer.nexts, analyzer.edests)
    {
      assert analyzer.Analyzed(q);
      assert AttributesOk(pool, nodes, q, analyzer.pool[q], analyzer.nexts, analyzer.edests);
    }
    AnalyzedIsWired(sx, pool, nodes, root, analyzer.nexts, analyzer.edests);
    RootIsWired(nfa, t, eor, NextOf(pool, nodes, root));
    assert Nodes(CatOf(t, Leaf(eor, EndOfRe))) == Nodes(t) + {eor};
    WiredInRange(nfa, t, eor);
    if t != Null {
      FirstIgnoresNext(t, NULL, eor);
    }
  }

  /** calc_eclosure and calc_inveclosure */
  method CloseEpsilon(nfa: Nfa) returns (eclosures: seq<seq<int>>, inveclosures: seq<seq<int>>)
    requires EdgesInRange(nfa) && |nfa.nodes| > 0
    ensures |eclosures| == |nfa.nodes| && IsConverse(eclosures, inveclosures)
    ensures forall n :: 0 <= n < |eclosures| ==> IsClosure(nfa, n, eclosures[n])
  {
    var n := |nfa.nodes|;
    var table := new Entry[n](_ => Pending);
    CalcEclosure(nfa, table);
    var entries := table[..];
    eclosures := seq(n, i requires 0 <= i < n && entries[i].Done? => entries[i].elems);
    forall i, m | 0 <= i < n && m in eclosures[i]
      ensures 0 <= m < n
    {
      ClosureInRange(nfa, i, m);
    }
    var inverse := new seq<int>[n](_ => []);
    CalcInveclosure(eclosures, inverse);
    inveclosures := inverse[..];
  }

  lemma ClosureInRange(nfa: Nfa, n: int, m: int)
    requires EdgesInRange(nfa) && 0 <= n < |nfa.nodes| && Path(nfa, n, [], m)
    ensures 0 <= m < |nfa.nodes|
  {
    var k: nat :| Steps(nfa, n, [], m, k);
    StepsInRange(nfa, n, m, k);
  }

  lemma {:induction false} StepsInRange(nfa: Nfa, n: int, m: int, k: nat)
    requires EdgesInRange(nfa) && 0 <= n < |nfa.nodes| && Steps(nfa, n, [], m, k)
    ensures 0 <= m < |nfa.nodes|
    decreases k
  {
    if k > 0 {
      var e :| e in nfa.edests[n] && Steps(nfa, e, [], m, k - 1);
      StepsInRange(nfa, e, m, k - 1);
    }
  }

  datatype CompileResult = Ready(re: Regex) | Error(e: Grammar.Error)

  /** The compiled pattern accepts exactly the words of `p`. */
  ghost predicate Implements(c: DfaCache.Compiled, p: Pattern) {
    c.Valid() && forall w :: Accepted(c, w) <==> PatternHas(c.nfa.sx, p, w)
  }

  lemma AnalyzedImplements(c: DfaCache.Compiled, t: Tree, p: Pattern)
    requires c.eor >= 0 && c.Valid() && AnalyzedFor(c.nfa, t, c.eor) && c.first == First(t, c.eor) && PatternTree(t, p)
    ensures Implements(c, p)
  {
    forall w
      ensures Accepted(c, w) <==> PatternHas(c.nfa.sx, p, w)
    {
      NfaAcceptsExactlyTheLanguage(c.nfa, t, c.eor, w);
    }
  }

  /** re_compile_internal and re_compile_fastmap. It fails exactly as the grammar function does, and
      otherwise the compiled pattern accepts exactly what the pattern denotes. The slots of
      build_trtable are enough if no bracket is empty, or if all the nodes together need no more; they
      are not if more than 256 alternatives are empty brackets. */
  method ReCompile(sx: Syntax, toks: seq<Token>, patLen: nat) returns (result: CompileResult)
    requires TEnd !in toks
    ensures match ParsePattern(toks, 0, 0)
            case Fail(e) => result == Error(e)
            case Ok(p, _) =>
              && result.Ready? && result.re.Valid() && Implements(result.re.dfa.c, p) && result.re.dfa.c.nfa.sx == sx
              && fresh(result.re.dfa) && fresh(result.re.dfa.stateTable) && fresh(result.re.dfa.states)
              && result.re.hasPluralMatch == PluralPattern(p)
              && FastmapOk(result.re.dfa.c, result.re.fastmap, result.re.canBeNull)
              && FastmapTight(result.re.dfa.c, result.re.fastmap, result.re.canBeNull)
              && SizeOk(result.re.dfa.stateTable.Length, patLen)
              && (NoEmptyBracket(toks) ==> FewSlots(result.re.dfa.c.nfa))
              && (FewSlots(result.re.dfa.c.nfa) ==> result.re.dfa.c.Roomy())
              && (EmptyAlternatives(p) > SBC_MAX ==> !result.re.dfa.c.Fits([]))
  {
    hide NoEmptyBracket, PatternHas, Accepted, FewSlots, EmptyAlternatives, FastmapOk, FastmapTight, SizeOk;
    var parser := new P.Parser(toks);
    var root, eor, status := parser.Parse();
    if status.Failure? {
      return Error(status.error);
    }
    ghost var p := ParsePattern(toks, 0, 0).value;
    ghost var t :| PatternTree(t, p) && parser.dfa.Tree(root) == CatOf(t, Leaf(eor, EndOfRe));
    var c := CompileTree(sx, parser.dfa.nodes, parser.dfa.pool, root, t, p, eor);
    StrictIsFew(parser.dfa, c.nfa);
    if FewSlots(c.nfa) {
      c.FewSlotsIsRoomy();
    }
    var re := InitRegex(c, patLen, parser.hasPluralMatch);
    result := Ready(re);
  }

  /** The state table with the initial state, and the fastmap. */
  method InitRegex(c: DfaCache.Compiled, patLen: nat, hasPluralMatch: bool) returns (re: Regex)
    requires c.Valid()
    ensures re.Valid() && re.dfa.c == c && re.hasPluralMatch == hasPluralMatch
    ensures FastmapOk(c, re.fastmap, re.canBeNull) && FastmapTight(c, re.fastmap, re.canBeNull)
    ensures SizeOk(re.dfa.stateTable.Length, patLen)
    ensures fresh(re.dfa) && fresh(re.dfa.stateTable) && fresh(re.dfa.states)
  {
    var tableSize := TableSize(patLen);
    var dfa := new Dfa(c, tableSize);
    var fastmap, canBeNull := CompileFastmap(dfa);
    re := Regex(dfa, fastmap, canBeNull, hasPluralMatch);
  }

  /** The groups always fit if every bracket accepts something. */
  lemma StrictIsFew(pool: Pool, nfa: Nfa)
    requires pool.Valid() && nfa.Shape() && nfa.nodes == pool.nodes
    ensures pool.strict ==> FewSlots(nfa)
  {
    if pool.strict {
      forall n | 0 <= n < |nfa.nodes|
        ensures AcceptsSome(nfa.nodes[n])
      {
        assert pool.Admits(pool.nodes[n]);
      }
      BracketsFit(nfa, AllNodes(nfa));
    }
  }

  predicate PowerOfTwo(n: nat) {
    n == 1 || (n > 1 && n % 2 == 0 && PowerOfTwo(n / 2))
  }

  /** The least power of two above the length of the pattern. */
  predicate SizeOk(size: nat, patLen: nat) {
    PowerOfTwo(size) && patLen < size && (size == 1 || size <= 2 * patLen)
  }

  /** The size of the state table: the least power of two above the length of the pattern. */
  method TableSize(patLen: nat) returns (size: nat)
    ensures SizeOk(size, patLen)
  {
    size := 1;
    while size <= patLen
      invariant PowerOfTwo(size) && (size == 1 || size <= 2 * patLen)
    {
      size := 2 * size;
    }
  }

  method CompileTree(sx: Syntax, nodes: seq<Node>, pool: seq<BinTree>, root: nat, ghost t: Tree, ghost p: Pattern,
                     eor: nat)
      returns (c: DfaCache.Compiled)
    requires Forest(pool, nodes) && Fresh(pool) && Parsed(pool, nodes, root, t, eor) && PatternTree(t, p)
    ensures c.Valid() && Implements(c, p) && c.nfa.sx == sx && c.nfa.nodes == nodes
    ensures EmptyAlternatives(p) > SBC_MAX ==> !c.Fits([])
  {
    hide EmptyAlternatives;
    var nfa, first := AnalyzeRoot(sx, nodes, pool, root, t, eor);
    var eclosures, inveclosures := CloseEpsilon(nfa);
    c := DfaCache.Compiled(nfa, eclosures, inveclosures, first, eor);
    forall n | c.Live(n)
      ensures nfa.Has(n) && (nfa.nodes[n] == EndOfRe <==> n == eor)
    {
      LiveNodes(nfa, t, eor, n);
    }
    AnalyzedImplements(c, t, p);
    PatternFronts(pool, nodes, root, t, p, eor);
    if EmptyAlternatives(p) > SBC_MAX {
      FrontsOverflow(c, t, eor);
    }
  }

  /** The leaves of empty alternatives are different nodes. */
  lemma PatternFronts(pool: seq<BinTree>, nodes: seq<Node>, root: nat, t: Tree, p: Pattern, eor: nat)
    requires Forest(pool, nodes) && Parsed(pool, nodes, root, t, eor) && PatternTree(t, p)
    ensures |FrontSet(t)| >= EmptyAlternatives(p)
  {
    if t != Null {
      TreeParts(pool, nodes, root);
      FrontsDiffer(pool, nodes, pool[root].left);
    }
  }

  // ----- searching, in terms of the pattern

  /** A word of the pattern stands in `str` from `i` to `j`. */
  ghost predicate Occurs(sx: Syntax, p: Pattern, str: seq<Byte>, i: int, j: int) {
    0 <= i <= j <= |str| && PatternHas(sx, p, str[i..j])
  }

  /** A search from the start of `str`: the leftmost occurrence is found, and of those that start
      there the longest one, or the shortest one if the caller wants no positions. */
  ghost predicate Found(sx: Syntax, p: Pattern, str: seq<Byte>, longest: bool, r: SearchResult) {
    match r
    case OutOfSlots => false
    case NoMatch => forall i, j :: !Occurs(sx, p, str, i, j)
    case Match(first, last) =>
      && Occurs(sx, p, str, first, first + last)
      && (forall i, j :: i < first ==> !Occurs(sx, p, str, i, j))
      && (longest ==> forall j :: j > first + last ==> !Occurs(sx, p, str, first, j))
      && (!longest ==> forall j :: j < first + last ==> !Occurs(sx, p, str, first, j))
  }

  lemma OccursIsMatch(c: DfaCache.Compiled, p: Pattern, str: seq<Byte>, i: nat, j: nat)
    requires Implements(c, p) && i <= j <= |str|
    ensures Occurs(c.nfa.sx, p, str, i, j) <==> Accepted(c, str[i..][..j - i])
  {
    assert str[i..][..j - i] == str[i..j];
  }

  lemma SearchIsFound(re: Regex, p: Pattern, str: seq<Byte>, longest: bool, r: SearchResult)
    requires Implements(re.dfa.c, p) && SearchOk(re, str, 0, |str|, longest, r)
    ensures r.OutOfSlots? || Found(re.dfa.c.nfa.sx, p, str, longest, r)
  {
    hide Compiled.Valid, SlotsBefore, Stops;
    var c := re.dfa.c;
    forall i, j | Occurs(c.nfa.sx, p, str, i, j)
      ensures MatchesAt(c, str, i)
      ensures r.Match? && i == r.first ==> MatchResult(c, str[i..], longest, r.last) && Accepted(c, str[i..][..j - i])
    {
      OccursIsMatch(c, p, str, i, j);
    }
    if r.Match? {
      OccursIsMatch(c, p, str, r.first, r.first + r.last);
    }
  }

  /** regexec: the search over the whole string. */
  method RegExec(re: Regex, ghost p: Pattern, str: seq<Byte>, nmatch: nat, pmatch: array<(int, int)>)
      returns (result: SearchResult)
    requires re.Valid() && Implements(re.dfa.c, p) && pmatch.Length >= nmatch
    modifies re.dfa`states, re.dfa.stateTable, re.dfa.states, pmatch
    ensures re.Valid() && fresh(re.dfa.states - old(re.dfa.states))
    ensures result.OutOfSlots? <==> Stops(re, str, 0, |str|, nmatch != 0)
    ensures re.dfa.c.Roomy() ==> !result.OutOfSlots?
    ensures result.OutOfSlots? || Found(re.dfa.c.nfa.sx, p, str, nmatch != 0, result)
    ensures result.Match? && nmatch > 0 ==> pmatch[0] == (result.first, result.first + result.last)
  {
    hide Implements, Found, Pruned, SearchOk, Stops, Dfa.TableOk, Dfa.TrtableOk, Compiled.Valid;
    var stateLog;
    result, stateLog := ReSearchInternal(re, str, 0, |str|, nmatch, pmatch);
    SearchIsFound(re, p, str, nmatch != 0, result);
    OutOfSlotsExactlyWhen(re, str, 0, |str|, nmatch != 0, result);
    RoomyIsEnough(re, str, 0, |str|, nmatch != 0, result);
  }

  /** octet_regex: the text has a part that is a word of the pattern. */
  method OctetRegex(re: Regex, ghost p: Pattern, text: seq<Byte>) returns (fits: bool, found: bool)
    requires re.Valid() && Implements(re.dfa.c, p)
    modifies re.dfa`states, re.dfa.stateTable, re.dfa.states
    ensures re.Valid() && fresh(re.dfa.states - old(re.dfa.states))
    ensures fits <==> !Stops(re, text, 0, |text|, false)
    ensures re.dfa.c.Roomy() ==> fits
    ensures fits ==> (found <==> exists i, j :: Occurs(re.dfa.c.nfa.sx, p, text, i, j))
  {
    hide Implements, Stops, Dfa.TableOk, Dfa.TrtableOk, Compiled.Valid, Compiled.Roomy;
    var none := new (int, int)[0];
    var result := RegExec(re, p, text, 0, none);
    fits, found := !result.OutOfSlots?, result.Match?;
  }

  // ----- from the pattern's tokens to the match

  /** More than 256 alternatives of the pattern are empty brackets, and the text starts like one of its
      words; with no positions to find, the empty word must not be one. */
  ghost predicate RunsOut(sx: Syntax, p: Pattern, text: seq<Byte>, nmatch: nat) {
    && EmptyAlternatives(p) > SBC_MAX
    && (nmatch == 0 ==> !PatternHas(sx, p, []))
    && exists w :: SharesFirst(w, text) && PatternHas(sx, p, w)
  }

  predicate SharesFirst(w: seq<Byte>, text: seq<Byte>) {
    w != [] && text != [] && w[0] == text[0]
  }

  /** The fastmap does not skip the start of a text that starts like a word. */
  lemma TriedAtTheStart(re: Regex, text: seq<Byte>, w: seq<Byte>)
    requires re.dfa.c.Valid() && Accepted(re.dfa.c, w) && SharesFirst(w, text)
    requires re.fastmap != [] ==> FastmapOk(re.dfa.c, re.fastmap, re.canBeNull)
    ensures Tried(re, text, |text|, 0)
  {
    var c := re.dfa.c;
    assert w == [] + [w[0]] + w[1..];
    var q := PathCut(c.nfa, c.first, [], w[0], w[1..], c.eor);
    assert CanStart(c, w[0]);
  }

  /** If the initial state has no room, the search ends there. */
  lemma StopsAtTheStart(re: Regex, text: seq<Byte>, longest: bool)
    requires re.dfa.c.Valid() && !re.dfa.c.Fits([]) && text != [] && Tried(re, text, |text|, 0)
    requires longest || !Accepted(re.dfa.c, [])
    ensures Stops(re, text, 0, |text|, longest)
  {
    hide Compiled.Valid, Compiled.Fits, Accepted, Tried;
    assert text[0..] == text && text[..0] == [];
    assert OverflowsAt(re.dfa.c, text, longest, 0);
    assert StopsAt(re, text, 0, |text|, longest, 0);
  }

  /** Compiling a pattern and searching a text with it: compilation succeeds exactly for the token
      lists that spell a pattern, and the search finds what that pattern denotes, unless it runs out
      of slots. */
  method CompileAndSearch(sx: Syntax, toks: seq<Token>, patLen: nat, text: seq<Byte>, nmatch: nat)
      returns (ready: CompileResult, result: SearchResult)
    requires TEnd !in toks
    ensures ready.Ready? <==> exists p :: PatternOk(p, 0) && PatternTokens(p) == toks
    ensures ready.Ready? ==> forall p :: PatternOk(p, 0) && PatternTokens(p) == toks ==>
              && (result.OutOfSlots? || Found(sx, p, text, nmatch != 0, result))
              && (RunsOut(sx, p, text, nmatch) ==> result.OutOfSlots?)
    ensures NoEmptyBracket(toks) ==> !result.OutOfSlots?
    ensures ready.Ready? && FewSlots(ready.re.dfa.c.nfa) ==> !result.OutOfSlots?
  {
    hide Found, FewSlots, EmptyAlternatives, Compiled.Valid, Compiled.Roomy, Compiled.Fits, StopsAt, Stops;
    ready := ReCompile(sx, toks, patLen);
    result := NoMatch;
    SpellsOnePattern(toks);
    if ready.Error? {
      return;
    }
    ghost var p := ParsePattern(toks, 0, 0).value;
    if RunsOut(sx, p, text, nmatch) {
      var w :| SharesFirst(w, text) && PatternHas(sx, p, w);
      TriedAtTheStart(ready.re, text, w);
      StopsAtTheStart(ready.re, text, nmatch != 0);
    }
    var pmatch := new (int, int)[nmatch];
    result := RegExec(ready.re, p, text, nmatch, pmatch);
  }

  lemma SpellsOnePattern(toks: seq<Token>)
    requires TEnd !in toks
    ensures ParsePattern(toks, 0, 0).Ok? <==> exists p :: PatternOk(p, 0) && PatternTokens(p) == toks
    ensures forall p :: PatternOk(p, 0) && PatternTokens(p) == toks ==> ParsePattern(toks, 0, 0) == Ok(p, |toks|)
  {
    if ParsePattern(toks, 0, 0).Ok? {
      ParseThenRender(toks);
    }
    forall p | PatternOk(p, 0) && PatternTokens(p) == toks
      ensures ParsePattern(toks, 0, 0) == Ok(p, |toks|)
    {
      RenderThenParse(p);
    }
  }

  /** `n` empty brackets and the byte `b` as alternatives. */
  function EmptyBracketsOr(n: nat, b: Byte): Pattern {
    if n == 0 then Single(Then(Empty, Literal(b)))
    else Or(EmptyBracketsOr(n - 1, b), Then(Empty, Bracket({})))
  }

  lemma {:induction false} EmptyBracketsOrMeans(n: nat, b: Byte, sx: Syntax, w: seq<Byte>)
    ensures PatternOk(EmptyBracketsOr(n, b), 0) && EmptyAlternatives(EmptyBracketsOr(n, b)) == n
    ensures PatternHas(sx, EmptyBracketsOr(n, b), w) <==> w == [b]
  {
    if n > 0 {
      EmptyBracketsOrMeans(n - 1, b, sx, w);
    } else {
      var branch := Then(Empty, Literal(b));
      assert w[..0] == [] && w[0..] == w;
      if BranchHas(sx, branch, w) {
        var i :| 0 <= i <= |w| && BranchHas(sx, Empty, w[..i]) && PieceHas(sx, Literal(b), w[i..]);
        assert i == 0;
      }
      if w == [b] {
        assert BranchHas(sx, Empty, w[..0]) && PieceHas(sx, Literal(b), w[0..]);
      }
    }
  }

  /** An input that runs out of slots: 257 empty brackets and a byte as alternatives, and a text that
      starts with this byte. */
  lemma EmptyBracketsRunOut(sx: Syntax, b: Byte, text: seq<Byte>, nmatch: nat)
    ensures var p := EmptyBracketsOr(257, b);
            PatternOk(p, 0) && RunsOut(sx, p, [b] + text, nmatch)
  {
    EmptyBracketsOrMeans(257, b, sx, [b]);
    EmptyBracketsOrMeans(257, b, sx, []);
    assert SharesFirst([b], [b] + text);
  }
}
