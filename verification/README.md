# Verification of libSieve's core algorithms

libSieve interprets Sieve mail-filtering scripts (RFC 3028). This project models its hard parts in Dafny and proves
what they promise:

- the regular-expression engine of `src/sv_regex`: a recursive-descent parser, interval expansion, NFA construction by
  attributes, epsilon closures, a lazily built DFA, the fastmap, forward matching and backward sifting;
- the `:matches` and `:contains` comparators of `src/sv_parser/comparator.c`;
- the header index of `src/sv_interface/message2.c`;
- the streaming MD5 of `src/sv_util/md5.c`;
- the evaluation of scripts and the action callbacks (`script.c`, `callbacks2.c` in `src/sv_interface`).

The regex files compose. `Language` says what a tree denotes, `Grammar` what a pattern denotes; `RoundTrip` shows that
parsing and rendering are inverse; `TreePool`, `TreeLanguage`, `Intervals` and `Parser` show that the parser's tree
denotes the pattern; `Analyze` and `Nfa` that the NFA accepts the tree's language; `Closure`, `Partition` and `Dfa`
that the automaton built on demand is the subset construction; `Matcher`, `Sift` and `Search` what a search finds,
and `Fronts` what many empty brackets do to it. `Compile` joins them: unless it runs out of slots for destination groups,
a search reports a match exactly when some part of the string is a word of the pattern, the match is the leftmost one
and, when the caller asks for positions, the longest from there.

Pattern files work on bytes. Tree nodes live in a pool and are referred to by index, with -1 for NULL, as in the node
arrays of the source; DFA states are objects. Loops and field updates are methods with loops over arrays and fields;
the functions they are proved against are specifications with theorems of their own. `ParsePattern` and the other
`Parse` functions of `Grammar` are such a specification: `Parser` refines them, `RoundTrip` characterizes them.
`Denotation` says in bytes, decimal numbers and tokens what the definitions of `Grammar` come to; the other files have
such lemmas of their own.

What the code does and its own comments or its standard do not say:

- `re_node_set_insert` never looks whether the element is there (`src/sv_regex/regex_internal.c:808-867`), so node sets
  are non-decreasing lists and their specifications speak of the set of elements.
- An interval whose upper bound is below its lower one is accepted and means the lower bound alone. A second comma ends
  an interval and what follows it is read as ordinary characters (`src/sv_regex/regcomp.c:2205-2235`).
- In a `:matches` pattern a backslash and the character after it stand for a backslash
  (`src/sv_parser/comparator.c:104-108`); `Comparator.AgreesExactlyWhen` says which patterns are not affected. At the
  end of a pattern the character after it is the NUL; `Comparator.PastEndExactlyWhen` says when that matters.
- The larger table that a comment promises for more header names than slots is never allocated
  (`src/sv_interface/message2.c:125-127`); `HeaderIndex.IndexAgreesExactlyWhen` says exactly when that matters.
- `libsieve_eval` promises a negative result on an error (`src/sv_interface/script.c:311-313`), but a conflict gives
  the positive SIEVE2_ERROR_EXEC, which `sieve2_execute` takes for a stop; see `Actions.NegativeOnErrorExactlyWhen`.
- The message for vacation speaks of a second vacation (`src/sv_interface/script.c:580-581`), which nothing refuses:
  `Actions.SecondVacationIsPerformed` is such a run, `Actions.TwoVacationsExactlyWhen` describes them all.
- A bracket that accepts no byte takes a slot in `group_nodes_into_DFAstates` (`src/sv_regex/regexec.c:3404-3412`), and
  only the bytes bound the number of slots. `Partition.GroupNodesIntoDFAstates` says exactly when the slots are enough,
  `Search.OutOfSlotsExactlyWhen` when a search notices, and `Compile.EmptyBracketsRunOut` gives an input.

`dafny verify dfyconfig.toml` checks the whole project.

## Model

| member | source | states |
|---|---|---|
| NfaModel.NfaAcceptsExactlyTheLanguage | src/sv_regex/regcomp.c:949-1147 | NFA construction preserves meaning: for every tree, empty alternatives and nested repetitions included, a word labels a path from the tree's first node to END_OF_RE if and only if it is in the tree's language |
| NfaModel.PathThroughIsInLang | src/sv_regex/regcomp.c:949-1147 | soundness half: whatever a path reads between entering a tree and leaving it towards END_OF_RE is a word of the tree, and the rest of the path is shorter |
| NfaModel.LoopPathIsPower | src/sv_regex/regcomp.c:1092-1147 | a path that starts at a star or plus node reads some number of words of the operand before it leaves the loop |
| NfaModel.InLangHasPath | src/sv_regex/regcomp.c:949-1147 | completeness half: every word of a tree can be read on a path through it, in front of any path from what follows |
| NfaModel.WiredIsClosed | src/sv_regex/regcomp.c:949-1147 | no edge leaves the nodes of a tree except to END_OF_RE |
| NfaModel.PathCut | src/sv_regex/regexec.c:955-1066 | a path that reads a non-empty word passes, for any of its bytes, a node that reads that byte; the cut on which forward and backward simulation rest |
| NfaModel.Pair | src/sv_regex/regex_internal.c:583-612 | re_node_set_init_2: the two elements in strictly increasing order, a single entry if they are equal |
| Analyze.AnalyzedIsWired | src/sv_regex/regcomp.c:949-1147 | once every tree entry below a root has its attributes, nexts and edests connect the NFA as the tree demands |
| Analyze.Analyzer.CalcFirst | src/sv_regex/regcomp.c:979-1043 | sets "first" to the entry node of the tree, and changes no attribute that was already computed, whatever the order of evaluation |
| Analyze.Analyzer.CalcNext | src/sv_regex/regcomp.c:1045-1090 | sets "next" to the node that follows the tree, found through its parents, and keeps all computed attributes |
| Analyze.Analyzer.CalcEpsdest | src/sv_regex/regcomp.c:1092-1147 | the epsilon edges of the entry's node are those the tree demands; no other node's edges change |
| Analyze.Analyzer.AnalyzeTree | src/sv_regex/regcomp.c:949-977 | after it, every entry below the root is analyzed, and only edges of that tree's nodes have changed |
| NodeSets.MergedIsUnion | src/sv_regex/regex_internal.c:688-805 | merging is union on the sets of elements and keeps the order non-decreasing |
| NodeSets.MergedIncreases | src/sv_regex/regex_internal.c:688-805 | an element that both sets have is kept once |
| NodeSets.Contains | src/sv_regex/regex_internal.c:888-909 | re_node_set_contains: non-zero exactly for members, and then one more than a position of the element |
| NodeSets.Compare | src/sv_regex/regex_internal.c:873-886 | re_node_set_compare: true exactly for equal lists |
| NodeSets.NodeSet.Copy | src/sv_regex/regex_internal.c:614-636 | a fresh set with the same elements |
| NodeSets.NodeSet.OfUnion | src/sv_regex/regex_internal.c:688-737 | re_node_set_init_union: the merge of both sets |
| NodeSets.NodeSet.Insert | src/sv_regex/regex_internal.c:812-867 | adds the element before the first one that is not smaller, even if it is there already, and stays in order and within the array, which grows if it is full |
| NodeSets.NodeSet.Merge | src/sv_regex/regex_internal.c:741-805 | the in-place merge with its moving binary search and shifting tail gives the merge of both sets |
| NodeSets.NodeSet.MergeWhileBoth | src/sv_regex/regex_internal.c:759-796 | the main loop of the merge: what is done, and the merge of what is left, always make up the merge of the two sets |
| NodeSets.NodeSet.AddIntersect | src/sv_regex/regex_internal.c:640-685 | adds exactly the common elements of two sets, keeping the order, although the scan position never goes back |
| Closure.LeaveForGood | src/sv_regex/regcomp.c:1375-1449 | cycles can be cut off: what a node reaches, it reaches by one edge and a path that does not come back |
| Closure.CalcEclosureIter | src/sv_regex/regcomp.c:1375-1449 | the depth-first pass, with nodes in progress: its result lies between what is reached avoiding the nodes in progress and all that is reached, an entry that is stored is exact, and every call ends |
| Closure.ClosureIsLeast | src/sv_regex/regcomp.c:1331-1374 | the closure of a node is the least set that holds the node and is closed under the epsilon edges |
| Closure.CalcEclosure | src/sv_regex/regcomp.c:1331-1374 | every entry ends as the exact reflexive and transitive closure of the epsilon edges, on cyclic graphs too, although incomplete results are thrown away |
| Closure.CalcInveclosure | src/sv_regex/regcomp.c:1314-1327 | the inverse closures are the converse of the closures |
| Partition.AcceptSet | src/sv_regex/regexec.c:3315-3332 | the byte set built for a node holds exactly the bytes that check_node_accept accepts |
| Partition.AtMostAllBytes | src/sv_regex/regexec.c:3292-3420 | disjoint byte groups number at most 256 plus the groups without bytes |
| Partition.CountByLooks | src/sv_regex/regexec.c:3335-3412 | groups whose bytes are told apart by some node number at most as many as the sets of nodes that read a byte, plus the groups without bytes |
| Partition.CountAll | src/sv_regex/regexec.c:3292-3420 | when all nodes are distributed: exactly one group for every different set of nodes that reads a byte, plus the groups without bytes |
| Partition.BracketsFit | src/sv_regex/regexec.c:3292-3420 | if every bracket accepts a byte, the groups of any set of nodes fit into the 256 slots |
| Partition.EmptyBracketsAddUp | src/sv_regex/regexec.c:3315-3412 | a list of brackets that accept no byte needs a slot for each of its entries |
| Partition.SlotsGrow | src/sv_regex/regexec.c:3292-3420 | more nodes need no fewer slots: bytes that some nodes tell apart stay apart |
| Partition.GroupCountOfSet | src/sv_regex/regexec.c:3292-3420 | for the node lists that closures make, the number of groups depends on the set of nodes alone |
| Partition.SplitGroup | src/sv_regex/regexec.c:3363-3398 | dividing a group keeps the groups disjoint, their bytes the same, and each group's nodes exactly those that read any of its bytes |
| Partition.GroupNodesIntoDFAstates | src/sv_regex/regexec.c:3292-3420 | for every node list and arrays of any length, with 256 slots in the source: the slots are enough if and only if there are at least as many as the different sets of nodes that read a byte plus the brackets without bytes; then this is the number of groups, and they are disjoint, cover exactly the accepted bytes, and have exactly the nodes that accept any given byte of theirs |
| Partition.Spread | src/sv_regex/regexec.c:3354-3412 | the inner loop over groups whose number grows: the bytes that are left are in none of the groups seen, and the slots run out only if the nodes need more of them |
| Partition.Distribute | src/sv_regex/regexec.c:3315-3412 | taking one more node into account keeps the partition and adds a group without bytes exactly for a bracket without bytes |
| DfaCache.CalcStateHash | src/sv_regex/regex_internal.c:972-983 | the hash of a node list |
| DfaCache.StateHashMeans | src/sv_regex/regex_internal.c:972-983 | each node adds itself and one, modulo 2^32 |
| DfaCache.Compiled.FewSlotsIsRoomy | src/sv_regex/regexec.c:3292-3420 | if the slots are enough for all the nodes together, they are enough whatever has been read |
| DfaCache.Dfa.constructor | src/sv_regex/regcomp.c:756-905 | the table is coherent and the initial state is in it |
| DfaCache.Dfa.CreateInitialState | src/sv_regex/regcomp.c:829-905 | the initial state holds exactly the closure of the first node |
| DfaCache.Dfa.AcquireState | src/sv_regex/regex_internal.c:993-1037 | a registered state with exactly these nodes, the same one every time; a new one only if there was none, and NULL for no nodes |
| DfaCache.Dfa.Lookup | src/sv_regex/regex_internal.c:1008-1018 | searching one bucket decides whether any registered state has these nodes |
| DfaCache.Dfa.CreateNewState | src/sv_regex/regex_internal.c:1083-1175 | a new state is registered in its bucket; every earlier state and table stays right |
| DfaCache.Dfa.GroupLeads | src/sv_regex/regexec.c:3167-3225 | all bytes of a group lead to the same nodes, so one destination state serves them all |
| DfaCache.Dfa.BuildTrtable | src/sv_regex/regexec.c:3075-3285 | the 256 slots are enough exactly when the nodes of the state need no more; then the table entry of every byte is the state of the closures of the next nodes of the nodes that read it, NULL exactly when no node reads it; tables built earlier stay right |
| DfaCache.Dfa.FillTable | src/sv_regex/regexec.c:3227-3272 | each byte gets the state of the one group that holds it |
| DfaCache.Dfa.TransitState | src/sv_regex/regexec.c:2033-2096 | one step of the lazy automaton is one step of the subset construction, whether the table was there or had to be built; the table is kept and its entry is what is returned; there is no step exactly when the groups of the state do not fit into the slots |
| Matcher.TracksStep | src/sv_regex/regexec.c:955-1066 | if a state holds exactly the nodes reached on a prefix, its successor does so for one more byte |
| Matcher.DeadStaysDead | src/sv_regex/regexec.c:1011-1047 | once there is no state, no longer word is accepted, so the loop may stop |
| Matcher.TrackedFits | src/sv_regex/regexec.c:2033-2096 | whether the table of a state can be built depends only on what has been read |
| Matcher.NoOverflow | src/sv_regex/regexec.c:1007-1066 | when the loop ends, by the end of the input, for want of a state or at a match, no later state could run out of slots before the match is settled |
| Matcher.CompileFastmap | src/sv_regex/regcomp.c:268-283 | a byte outside the map starts no match, and if a byte is outside the map the empty match is possible only when can_be_null says so; can_be_null is never set for a pattern that rejects the empty word and is set for one that accepts it unless it may start with a period; the map is exact apart from these two cases |
| Matcher.CompileFastmapIter | src/sv_regex/regcomp.c:301-375 | the same for the loop that returns early: can_be_null is set exactly when END_OF_RE comes before any period |
| Matcher.TransitAndLog | src/sv_regex/regexec.c:2033-2176 | the state after one more byte tracks the input, and the state log records it at its position only, exactly when the groups fit |
| Matcher.CheckMatching | src/sv_regex/regexec.c:955-1066 | the length of the longest accepted prefix, or of the shortest one when that is enough, and -1 exactly when no prefix is accepted; the state log tracks the input; runs out of slots if and only if the groups of some state that is read from, before the match is settled, do not fit |
| Matcher.MatchLoop | src/sv_regex/regexec.c:1007-1066 | the loop of check_matching: the best match so far is right after every byte |
| Sift.SurvivesViaAccepting | src/sv_regex/regexec.c:1376-1506 | the logged nodes from which the match can be completed are those that reach, by epsilon edges, a node that reads the byte and leads to such a node |
| Sift.AddEpsilonSrcNodes | src/sv_regex/regexec.c:1612-1638 | adds exactly the candidates that reach one of the nodes by epsilon edges, computed with the inverse closures |
| Sift.UpdateCurSiftedState | src/sv_regex/regexec.c:1565-1610 | the state of the nodes together with their epsilon sources among the candidates |
| Sift.CollectAccepting | src/sv_regex/regexec.c:1450-1492 | exactly the logged nodes that accept the byte and whose next node survives |
| Sift.ClearBefore | src/sv_regex/regexec.c:1430-1438 | when nothing survives at a position, nothing survives at the positions before it |
| Sift.SiftStatesBackward | src/sv_regex/regexec.c:1399-1506 | backward sifting is exact: every position holds exactly the logged nodes from which the halt node is reached by the rest of the match |
| Search.FastmapSkips | src/sv_regex/regexec.c:652-693 | a start position whose byte is not in the fastmap starts no match |
| Search.SkipByFastmap | src/sv_regex/regexec.c:652-693 | the scan forwards or backwards passes no start of a match, gives up only if there is none left, and stops exactly at a byte of the map |
| Search.SiftedIsPruned | src/sv_regex/regexec.c:821-905 | the sifted log holds exactly the nodes on accepting paths over the match |
| Search.CheckHaltState | src/sv_regex/regexec.c:1090-1112 | finds the END_OF_RE node of a halting state |
| Search.PruneImpossibleNodes | src/sv_regex/regexec.c:821-905 | every position of the log is cut to the nodes that lie on an accepting path |
| Search.SearchStep | src/sv_regex/regexec.c:649-775 | one turn of the search loop: no match is skipped, and a match that is reported is one |
| Search.OutOfSlotsExactlyWhen | src/sv_regex/regexec.c:576-819 | a search runs out of slots if and only if it comes to a position that the fastmap does not skip and at which matching does; no other position matters |
| Search.SearchMeans | src/sv_regex/regexec.c:576-819 | a search result in positions: no word is accepted at a position that comes earlier in the direction of the search, nor a longer (or shorter) one at the match, and none at all without a match |
| Search.ReSearchInternal | src/sv_regex/regexec.c:576-819 | the first match in search order, in either direction, unless the slots run out before; pmatch[0] is the match, and the log for set_regs is pruned exactly |
| Search.SetWholeMatch | src/sv_regex/regexec.c:782-793 | before set_regs is called, the first register is the whole match relative to its start, and the others up to nmatch are unset |
| Search.ShiftRegisters | src/sv_regex/regexec.c:803-810 | every register that is set becomes a position in the whole string; no other changes |
| RoundTrip.RenderThenParse | src/sv_regex/regcomp.c:1778-2345 | every well-formed pattern is recovered from its tokens, with nothing left over and the same grouping of operators |
| RoundTrip.ParseThenRender | src/sv_regex/regcomp.c:1778-2345 | whatever is accepted is a well-formed pattern that renders to exactly the input |
| RoundTrip.AcceptedIffRendered | src/sv_regex/regcomp.c:1778-2345 | a token list is accepted, as a given pattern, if and only if it is the rendering of that pattern |
| RoundTrip.FetchIsSound | src/sv_regex/regcomp.c:3404-3425 | a number that is fetched is the value of the digits before its end |
| RoundTrip.ParsesInterval | src/sv_regex/regcomp.c:2205-2235 | the bounds of a rendered interval are read back |
| Grammar.ValueIsDecimal | src/sv_regex/regcomp.c:3404-3425 | the value of digits is -1 for none, the decimal number they denote up to RE_DUP_MAX, and -2 for every larger one |
| Denotation.AtomMeans | src/sv_regex/regcomp.c:2064-2074 | the words of the atoms in bytes: `.` is any byte but, as the syntax says, newline and NUL; other characters, a stray parenthesis and a stray brace are themselves; a bracket is any of its bytes |
| Denotation.PatternMeans | src/sv_regex/regcomp.c:1816-1908 | alternatives are a union, expressions in a row a concatenation in their order, parentheses change nothing |
| Denotation.StarMeans | src/sv_regex/regcomp.c:2308-2321 | a star is nothing, or a non-empty word of the operand and the star again |
| Denotation.PlusMeans | src/sv_regex/regcomp.c:2308-2321 | a plus is a word of the operand and a star |
| Denotation.QuestionMeans | src/sv_regex/regcomp.c:2308-2321 | a question mark is nothing or a word of the operand |
| Denotation.RepeatedMeans | src/sv_regex/regcomp.c:2244-2253 | no repetitions read nothing, and one more reads a word of the operand first |
| Denotation.ExactlyMeans | src/sv_regex/regcomp.c:2205-2253 | `{n}` is n repetitions, n in decimal, at most 32767 |
| Denotation.AtLeastMeans | src/sv_regex/regcomp.c:2255-2276 | `{n,}` is n or more |
| Denotation.BetweenMeans | src/sv_regex/regcomp.c:2277-2307 | `{n,m}` is from n to m, or n if m is smaller |
| Denotation.TokensMean | src/sv_regex/regcomp.c:1816-2110 | the tokens that spell each kind of pattern |
| Denotation.IntervalTokensMean | src/sv_regex/regcomp.c:3404-3425 | digits are the characters from 48 on, the bounds of an interval are separated by the character 44 |
| Denotation.WellFormedMeans | src/sv_regex/regcomp.c:2192-2235 | which patterns can be spelled: bounds of at most 32767, a number in `{n}`, a stray parenthesis only outside of groups |
| Denotation.NullMeans | src/sv_regex/regcomp.c:2236-2242 | which pieces have no tree, and which operators need one |
| Denotation.PlainMeans | src/sv_regex/regcomp.c:1869-1908 | ordinary characters in a row are a pattern for just themselves |
| Denotation.PatternNotes | src/sv_regex/regcomp.c:2119-2188 | what the parser notes in terms of tokens: alternatives or repetitions, and as many groups as opening parentheses |
| Denotation.OperatorFirst | src/sv_regex/regcomp.c:1914-2110 | an operator where an expression should start, at the beginning or behind an alternative, is REG_BADRPT |
| Denotation.Unclosed | src/sv_regex/regcomp.c:2119-2188 | a parenthesis that is not closed is REG_BADPAT |
| Denotation.NoOperand | src/sv_regex/regcomp.c:2236-2345 | an operator that needs an operand behind a piece without a tree is the error NullOperand (see Left out) |
| Denotation.BadInterval | src/sv_regex/regcomp.c:2098-2109 | a malformed interval is the error of the whole pattern |
| Denotation.FetchMeans | src/sv_regex/regcomp.c:3404-3425 | fetch_number reads up to the next brace, comma or the end: -1 for nothing, -2 for other characters than digits, for more than 32767 or for no end, and else the decimal number |
| Denotation.LowerErrors | src/sv_regex/regcomp.c:2205-2235 | a malformed first number, or none before a brace: REG_BADBR if a brace ends it, and REG_EBRACE else |
| Denotation.UpperErrors | src/sv_regex/regcomp.c:2220-2235 | the same for a malformed second number |
| TreeLanguage.ThenTree | src/sv_regex/regcomp.c:1869-1908 | the tree that parse_branch makes of a front and one more expression denotes their concatenation, also when one is NULL |
| TreeLanguage.OrTree | src/sv_regex/regcomp.c:1816-1860 | an ALT node denotes the union, also with empty branches |
| TreeLanguage.GroupTree | src/sv_regex/regcomp.c:2119-2188 | the subexpression nodes around a pattern, empty or not, do not change its language |
| TreeLanguage.SameLanguage | src/sv_regex/regcomp.c:3495-3544 | trees that differ only in node numbers denote the same language |
| TreeLanguage.PowerSplit | src/sv_regex/regcomp.c:2192-2345 | a word of j + k repetitions splits into one of j and one of k |
| TreeLanguage.CatRanges | src/sv_regex/regcomp.c:2246-2306 | concatenating two repetitions of one operand adds their bounds |
| TreeLanguage.StarTree | src/sv_regex/regcomp.c:2255-2275 | a star node denotes any number of repetitions |
| TreeLanguage.OptionTree | src/sv_regex/regcomp.c:2277-2296 | a question node denotes at most one |
| TreeLanguage.RepeatTree | src/sv_regex/regcomp.c:2192-2345 | a tree for the repetitions an operator allows denotes the repeated piece |
| TreePool.AttachForest | src/sv_regex/regcomp.c:3448-3478 | create_tree keeps the pool a forest |
| TreePool.GrowsKeepsTree | src/sv_regex/regcomp.c:3448-3544 | nothing the parser adds changes a tree that was there |
| TreePool.Pool.AddNode | src/sv_regex/regex_internal.c:928-969 | appends the node and returns its index; all trees stay |
| TreePool.Pool.CreateTree | src/sv_regex/regcomp.c:3448-3478 | a new root above the two given roots; all other trees stay |
| TreePool.Pool.DuplicateTree | src/sv_regex/regcomp.c:3495-3544 | a copy with the same shape and tokens made of new nodes only; the original stays |
| Intervals.Repeated | src/sv_regex/regcomp.c:2244-2253 | the operand and its copies in a row denote exactly n repetitions |
| Intervals.Unbounded | src/sv_regex/regcomp.c:2255-2276 | with a star behind: n or more |
| Intervals.Bounded | src/sv_regex/regcomp.c:2277-2307 | with m - n optional copies behind: from n to m |
| Intervals.Expand | src/sv_regex/regcomp.c:2244-2307 | the tree built for an interval denotes the union of the powers in range; an upper bound below the lower one counts as the lower one |
| Parser.Parser.FetchNumber | src/sv_regex/regcomp.c:3404-3425 | the value and the position after a number |
| Parser.Parser.ParseBounds | src/sv_regex/regcomp.c:2205-2235 | the bounds of an interval, and the error cases of a malformed one |
| Parser.Parser.ParseDupOp | src/sv_regex/regcomp.c:2192-2345 | reads the operator the grammar says and returns a root that denotes the repeated piece |
| Parser.Parser.Interval | src/sv_regex/regcomp.c:2236-2308 | the interval case, `{0}` included, which drops the operand |
| Parser.Parser.ParseDupOps | src/sv_regex/regcomp.c:2098-2109 | all the operators that follow an atom apply to it from left to right |
| Parser.Parser.ParseExpression | src/sv_regex/regcomp.c:1914-2110 | reads what the grammar calls a piece, fails when it does, and returns a root that denotes the piece; NULL at the end of a branch |
| Parser.Parser.ParseSubExp | src/sv_regex/regcomp.c:2119-2188 | a parenthesized pattern, `()` included, with the number of the group in the nodes of its parentheses; an unmatched parenthesis is an error |
| Parser.Parser.ParseBranch | src/sv_regex/regcomp.c:1869-1908 | reads what the grammar calls a branch and returns a root that denotes it |
| Parser.Parser.ParseRegExp | src/sv_regex/regcomp.c:1816-1860 | reads what the grammar calls a pattern and returns a root that denotes it |
| Parser.Parser.Parse | src/sv_regex/regcomp.c:1778-1806 | the root of the pattern's tree in front of the END_OF_RE node, or the grammar's error; has_plural_match and the number of groups are those of the pattern |
| Compile.AnalyzeRoot | src/sv_regex/regcomp.c:910-936 | nexts and edests are right for the pattern's tree, and first is where it starts |
| Compile.CloseEpsilon | src/sv_regex/regcomp.c:935-941 | the closures and their converse, complete and exact |
| Compile.LiveNodes | src/sv_regex/regcomp.c:949-1147 | from the first node, edges lead only to nodes of the pattern's tree and its END_OF_RE node |
| Compile.TableSize | src/sv_regex/regcomp.c:770-776 | the least power of two above the pattern length |
| Compile.ReCompile | src/sv_regex/regcomp.c:664-755 | for every token list: fails exactly with the grammar's error (where a NULL operand is repeated, see Left out), and otherwise accepts exactly the words that the pattern denotes; no search runs out of slots if they are enough for all the nodes together, as without empty brackets; the initial state runs out if more than 256 alternatives are empty brackets; the fastmap, has_plural_match and the size of the state table are right |
| Compile.StrictIsFew | src/sv_regex/regexec.c:3292-3420 | if every bracket accepts a byte, the slots are enough for all the nodes together |
| Fronts.FrontsDiffer | src/sv_regex/regcomp.c:3448-3478 | leaves of one tree are different NFA nodes |
| Fronts.FrontIsReached | src/sv_regex/regcomp.c:1092-1147 | the leaves below alternatives are reached from the first node before anything is read |
| Fronts.FrontsOverflow | src/sv_regex/regexec.c:3315-3412 | more than 256 alternatives without bytes: the table of the initial state cannot be built |
| Compile.SearchIsFound | src/sv_regex/regexec.c:576-819 | a search result that is not out of slots, stated with positions in the string and words of the pattern: leftmost, and longest if positions are wanted |
| Compile.RegExec | src/sv_regex/regexec.c:210-228 | for every compiled pattern: says exactly when the slots run out; otherwise no match is reported exactly when no part of the string is a word of the pattern, and a match is the leftmost, and from there the longest when nmatch > 0 |
| Compile.OctetRegex | src/sv_parser/comparator.c:128-131 | true if and only if some part of the text is a word of the pattern, unless the slots run out |
| Compile.CompileAndSearch | src/sv_regex/regcomp.c:664-755 | from tokens to match, for every token list: compilation succeeds exactly for token lists that spell a pattern, and the search then finds what that pattern denotes, unless it runs out of slots; it does not without empty brackets or with few slots for all the nodes, and it does with more than 256 empty alternatives and a text that starts like a word |
| Compile.StopsAtTheStart | src/sv_regex/regexec.c:649-775 | a first position that is tried ends the search if the initial state has no room |
| Compile.EmptyBracketsRunOut | src/sv_regex/regexec.c:3315-3412 | an input that runs out of slots: 257 empty brackets and a byte as alternatives, and any text that starts with the byte |
| Compile.SpellsOnePattern | src/sv_regex/regcomp.c:1778-1806 | a token list spells at most one pattern, the one that is parsed |
| Comparator.OctetMatches | src/sv_parser/comparator.c:61-121 | for all patterns and texts: decides exactly the wildcard relation of the code, in which a backslash and the character after it stand for a backslash; says when the pattern is read past its end instead |
| Comparator.PlainMeans | src/sv_parser/comparator.c:110-117 | a pattern without wildcards and backslashes matches exactly itself, byte for byte, or with letters in either case when case is mapped |
| Comparator.StarInBytes | src/sv_parser/comparator.c:82-103 | `*` stands for any bytes, in the code as in section 2.7.1 of RFC 3028 |
| Comparator.QueryInBytes | src/sv_parser/comparator.c:76-81 | `?` stands for one byte, in both |
| Comparator.EscapeInBytes | src/sv_parser/comparator.c:104-117 | a backslash and a character stand for a backslash in the code, and for the character in section 2.7.1 of RFC 3028 |
| Comparator.PastEndExactlyWhen | src/sv_parser/comparator.c:104-117 | a pattern that ends in a backslash of its own is read past its end if and only if what stands before that backslash matches the text up to some backslash |
| Comparator.BackslashPastEnd | src/sv_parser/comparator.c:104-117 | such an input: a backslash as the pattern and as the text |
| Comparator.LastBackslash | src/sv_parser/comparator.c:104-108 | exactly the patterns that end in such a backslash are incomplete |
| Comparator.Coalesce | src/sv_parser/comparator.c:82-97 | a run of wildcards after a star: each question mark eats one character, further stars add nothing |
| Comparator.StarStar | src/sv_parser/comparator.c:82-93 | a star after a star adds nothing |
| Comparator.StarQuery | src/sv_parser/comparator.c:82-93 | a question mark after a star eats one character |
| Comparator.TryEverywhere | src/sv_parser/comparator.c:99-103 | the rest of the pattern is tried at every position; if none fits, the fall-through starts at the end of the text |
| Comparator.AgreesExactlyWhen | src/sv_parser/comparator.c:61-121 | the code agrees with section 2.7.1 of RFC 3028 on all texts if and only if the pattern escapes nothing but backslashes |
| Comparator.NoBackslashAgrees | src/sv_parser/comparator.c:61-121 | patterns without a backslash satisfy that condition |
| Comparator.EscapedStarFails | src/sv_parser/comparator.c:104-117 | an escaped star matches a star by the standard and not in the code |
| Comparator.AsciiCasemapContains | src/sv_parser/comparator.c:137-155 | true if and only if the pattern stands somewhere in the text up to case |
| Comparator.ContainedMeans | src/sv_parser/comparator.c:146-148 | up to case: each byte is the same or the other case of the letter |
| HeaderIndex.HashHeader | src/sv_interface/message2.c:34-46 | the name up to the first control character, space or colon, read as a number in base 256, modulo the table size: the remainders taken on the way do not matter |
| HeaderIndex.HashStep | src/sv_interface/message2.c:40-45 | one turn of the loop is one more digit of the base-256 number, modulo the table size |
| HeaderIndex.HashMeans | src/sv_interface/message2.c:34-46 | a name hashes to 0 if it is empty; one more character from 33 to 126, 58 apart, is one more digit, and any other character ends the name |
| HeaderIndex.StepMeans | src/sv_interface/message2.c:121-128 | probing goes up by one slot at a time and comes round at the end |
| HeaderIndex.ScanFails | src/sv_interface/message2.c:171-209 | a scan fails exactly for names that no header has |
| HeaderIndex.ScanOneMore | src/sv_interface/message2.c:108-168 | one more header puts its body behind those of its name and touches no other name |
| HeaderIndex.LowerIsSpelled | src/sv_interface/message2.c:184 | every spelling of a name, with capital letters in any places, is looked up as the one name without any |
| HeaderIndex.FullTable | src/sv_interface/message2.c:121-150 | with every slot taken by other names, a body goes to the name whose slot the new one hashes to, and a lookup of the new name fails |
| HeaderIndex.ProbeFinds | src/sv_interface/message2.c:187-198 | with no gaps and no repeated names, probing ends where the name is stored |
| HeaderIndex.ProbeMisses | src/sv_interface/message2.c:121-128 | a name that is not stored is not found; probing ends at the first free slot on its way, if there is one |
| HeaderIndex.FreeSlot | src/sv_interface/message2.c:121-128 | a new name finds a free slot as long as there are no more different names than slots |
| HeaderIndex.InsertKnown | src/sv_interface/message2.c:130-150 | another body of a stored name goes behind its bodies and nowhere else |
| HeaderIndex.InsertNew | src/sv_interface/message2.c:155-158 | a new name takes the first free slot on its way, and leaves no gap |
| HeaderIndex.BuildAgrees | src/sv_interface/message2.c:108-168 | after any list of headers with room for its names, the table holds exactly these names, each with its bodies in list order |
| HeaderIndex.IndexAgreesExactlyWhen | src/sv_interface/message2.c:108-209 | every lookup answers as a scan of the list does if and only if there are no more different names than slots |
| HeaderIndex.Entry.constructor | src/sv_parser/header.y:125-175 | the parser's structure: one body, then NULL, in two slots |
| HeaderIndex.Entry.Append | src/sv_interface/message2.c:130-150 | one more body and the terminating NULL within space + 1 slots, after growing by eight if there is no space |
| HeaderIndex.Message.constructor | src/sv_interface/message2.c:66-91 | an empty table |
| HeaderIndex.Message.Find | src/sv_interface/message2.c:120-128 | the probing loop of parseheader ends where the specification says, also when it comes back to its start |
| HeaderIndex.Message.Add | src/sv_interface/message2.c:119-158 | one header changes the index as the specification says |
| HeaderIndex.Message.ParseHeader | src/sv_interface/message2.c:108-168 | the index after all headers, marked as full; an empty list is an error |
| HeaderIndex.Message.GetHeader | src/sv_interface/message2.c:171-209 | hands out the NULL-terminated bodies found for the name in any spelling, or fails with NULL |
| HeaderIndex.ParseAndGet | src/sv_interface/message2.c:108-209 | filling an index of 1019 slots and asking it for a name in any spelling gives what a scan of the header list gives, if there are no more different names than slots, and what the table holds in any case |
| Md5.PaddingIsLeast | src/sv_util/md5.c:186-227 | the padded message consists of whole blocks, with the fewest zero bytes that section 3.1 of RFC 1321 allows |
| Md5.PaddingMeans | src/sv_util/md5.c:186-227 | the padding in numbers: the byte 0x80, zero bytes, and eight bytes that are the length in bits modulo 2^64, low byte first; 9 to 72 bytes that fill up whole blocks |
| Md5.InitialBytes | src/sv_util/md5.c:72-82 | the four words written out are the byte list of section 3.3 of RFC 1321 |
| Md5.DigestMeans | src/sv_util/md5.c:186-276 | the blocks of the padded message are folded in order from these words, and the result is written out |
| Md5.ChainConcat | src/sv_util/md5.c:232-276 | whole blocks may be folded first, whatever the data is split into |
| Md5.BytesInBuffer | src/sv_util/md5.c:239-244 | the low word of the bit count, which may have wrapped, still tells how many bytes wait in the buffer |
| Md5.WideSum | src/sv_util/md5.c:237-242 | the two-word bit count with its carry is addition modulo 2^64 |
| Md5.PadOneBlock | src/sv_util/md5.c:211-221 | the length fits into the last block |
| Md5.PadTwoBlocks | src/sv_util/md5.c:203-221 | the length needs another block |
| Md5.Context.constructor | src/sv_util/md5.c:72-82 | a context that has read nothing |
| Md5.Context.CountBits | src/sv_util/md5.c:237-242 | the bit count grows by eight per byte, modulo 2^64 |
| Md5.Context.Update | src/sv_util/md5.c:232-276 | streaming: chaining variables, buffered tail and bit count are those of the concatenation of all data so far, however it was split |
| Md5.Context.Final | src/sv_util/md5.c:186-227 | the digest of exactly the padded message of sections 3.1 and 3.2 of RFC 1321 |
| Md5.MakeHash | src/sv_util/md5.c:278-289 | the digest of the two strings put together |
| Actions.EvalTest | src/sv_interface/script.c:205-291 | anyof, allof, not, true and false over the other tests' answers; stopping early changes nothing |
| Actions.TestsMean | src/sv_interface/script.c:205-291 | what each boolean test says about its parts, allof and anyof of nothing included |
| Actions.RefusedMeans | src/sv_interface/callbacks2.c:36-215 | which action is refused after which others, with the code 5 |
| Actions.RunOfIf | src/sv_interface/script.c:333-338 | an if runs the side its test is answered for, and what follows it unless that side ended the run |
| Actions.RunOfAction | src/sv_interface/script.c:339-343 | an action is performed and the run goes on, or it is refused and ends the run |
| Actions.RunOfVacation | src/sv_interface/script.c:575-584 | a vacation command responds like an action, is skipped, or goes wrong and ends the run with -1 |
| Actions.RunOfOthers | src/sv_interface/script.c:590-640 | a stop ends the run with 1, a flag command changes nothing, and the end of the list is a success |
| Actions.RunConcat | src/sv_interface/script.c:648-652 | a run goes on with the next commands only if the ones before it returned 0 |
| Actions.Context.DoReject | src/sv_interface/callbacks2.c:36-59 | performed unless another reject, fileinto, redirect, keep or vacation was; otherwise an error and no change |
| Actions.Context.DoFileinto | src/sv_interface/callbacks2.c:64-91 | performed unless a reject was |
| Actions.Context.DoRedirect | src/sv_interface/callbacks2.c:96-111 | performed unless a reject was |
| Actions.Context.DoKeep | src/sv_interface/callbacks2.c:116-141 | performed unless a reject was |
| Actions.Context.DoDiscard | src/sv_interface/callbacks2.c:146-156 | always performed |
| Actions.Context.DoVacationReply | src/sv_interface/callbacks2.c:161-186 | performed unless a reject was |
| Actions.Context.DoNotify | src/sv_interface/callbacks2.c:191-215 | always performed |
| Actions.Context.Eval | src/sv_interface/script.c:317-656 | the nested evaluation performs and returns what the straight-line run of the flattened script does, from any context |
| Actions.Context.EvalCommand | src/sv_interface/script.c:330-646 | one command of the switch, nested lists included |
| Actions.RunPerformsPrefix | src/sv_interface/script.c:648-655 | a run performs the commands up to the first stop, failure or conflict, and nothing after it at any depth |
| Actions.RunIsSafe | src/sv_interface/callbacks2.c:36-186 | no script and no outcome of its tests leads to a reject together with fileinto, redirect, keep, vacation or another reject |
| Actions.RunIsLongestClear | src/sv_interface/script.c:648-655 | what a run performs is read off the script: the longest prefix of actions none of which clashes with an earlier one |
| Actions.ConflictExactlyWhen | src/sv_interface/callbacks2.c:36-186 | the result is SIEVE2_ERROR_EXEC if and only if some action of the script clashes with an earlier one and only actions stand before it |
| Actions.NegativeExactlyWhen | src/sv_interface/script.c:584 | the result is negative if and only if a vacation command goes wrong and nothing before it ends the run |
| Actions.NegativeOnErrorExactlyWhen | src/sv_interface/script.c:311-317 | the result that is promised to be negative on every error is so if and only if no action of the script clashes with an earlier one before the first stop or failure |
| Actions.ConflictLooksLikeStop | src/sv_interface/script.c:339-343 | a keep followed by a reject: the reject is not performed and the result is positive, as after a stop |
| Actions.SecondVacationIsPerformed | src/sv_interface/callbacks2.c:161-186 | two vacation commands in a row: both replies are made and the result is 0 |
| Actions.TwoVacationsExactlyWhen | src/sv_interface/script.c:575-581 | a run makes two vacation replies if and only if two of them stand in the script before anything that ends the run |
| Actions.EvalFresh | src/sv_interface/script2.c:264-265 | evaluation in a fresh context: what was performed is such a prefix and free of forbidden combinations |
| Actions.Execute | src/sv_interface/script2.c:264-277 | the longest prefix of the script without a clash, stop or failure is performed and free of forbidden combinations; an execution error is reported exactly when the script comes to a vacation command that goes wrong |

## Left out

- Anchors, word and line contexts, back-references and what serves only them: every node constraint is 0. The
  registers beyond the whole match (set_regs) are not part of this model.
- Multibyte characters, locales, translation tables and REG_ICASE: one byte is one character.
- Turning pattern bytes into tokens, and reading a bracket expression, which is one token with its byte set; `\w` and
  `\W`, for which the source builds a bracket too, count as such tokens. Inside an
  interval the source would still read single characters of a bracket; there the error code may differ.
- Compile.RegExec: what the source does after it has run out of slots.
- Compile.ReCompile: repetition of a NULL tree, such as `a{0}*`, is the error NullOperand here. The source builds the
  operator's node over NULL, reads on, reports an error of the rest of the pattern if there is one (as for `a{0}*(`), and
  otherwise dereferences NULL in analyze_tree; copies for an interval dereference it at once in duplicate_tree.
- The no_sub flag, with which a caller gets no positions, and the scan of the state log in check_matching after there is
  no state any more, which finds nothing when no node accepts more than one byte.
- The trtable_search tables and the fl_search flag of check_matching, which re_search_internal always passes as 0.
- The string buffers behind the input (reconstruction and growth), and the state log's growth: the input is a byte
  sequence and the log has its length plus one.
- The machine representation of byte sets (sets of bytes here), of the state hash (unbounded; the table size is a power
  of two, so masking a wrapped hash is the remainder modulo the table size) and of node sets that are stored inside
  tables (values, copied out and back).
- Allocation failure and freeing, everywhere.
- Comparator.OctetMatches: what the source does after it has read past the end of a pattern.
- HeaderIndex.HashHeader: names are ASCII; with a signed `char` other bytes would give negative hashes. The text of
  headers is taken as parsed: the scanner and the folding of long lines are not part of this model.
- Md5.Context.Final: the block transform is a parameter, the words are stored as on a little-endian machine, and the
  clearing of the context afterwards (of the size of a pointer only) and the hexadecimal form are left out.
- Actions.EvalTest: tests other than anyof, allof, not, true and false are answered by an oracle that gives the same
  answer each time (allof asks twice).
- Actions.Context.Eval: what decides whether a vacation reply is sent is an oracle's decision; the IMAP flag lists that
  setflag, addflag and removeflag edit, and the values and callbacks of the application, are not part of this model.
- The other comparators and relational tests, addresses and sub-addresses, the generated scanners and parsers,
  exceptions, tracing and string helpers: input and output, foreign code or easy.
