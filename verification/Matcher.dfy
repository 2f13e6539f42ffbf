/** The fastmap and check_matching: running the DFA from one start position. */
module Matcher {
  import opened Language
  import opened NfaModel
  import opened NodeSets
  import opened Closure
  import opened Partition
  import opened DfaCache

  /** The compiled pattern accepts the word `w`. */
  ghost predicate Accepted(c: Compiled, w: seq<Byte>)
    requires c.Valid()
  {
    Path(c.nfa, c.first, w, c.eor)
  }

  /** `s` holds exactly the nodes that the pattern's first node reaches by reading `w`; NULL if there are none. */
  ghost predicate Tracks(c: Compiled, w: seq<Byte>, s: State?)
    requires c.Valid()
  {
    if s == null then forall m :: !Path(c.nfa, c.first, w, m)
    else Sorted(s.nodes) && Once(c.nfa, s.nodes) && forall m :: m in s.nodes <==> Path(c.nfa, c.first, w, m)
  }

  lemma TracksStep(c: Compiled, w: seq<Byte>, s: State, b: Byte, t: State?)
    requires c.Valid() && Tracks(c, w, s) && c.IsStep(s.nodes, b, t)
    ensures Tracks(c, w + [b], t)
  {
    assert w + [b] + [] == w + [b];
    forall m
      ensures Path(c.nfa, c.first, w + [b], m) <==> c.StepTo(s.nodes, b, m)
    {
      if Path(c.nfa, c.first, w + [b], m) {
        var p := PathCut(c.nfa, c.first, w, b, [], m);
      }
      if c.StepTo(s.nodes, b, m) {
        var p :| p in s.nodes && Reads(c.nfa, p, b) && Path(c.nfa, c.nfa.nexts[p], [], m);
        PathViaJoins(c.nfa, c.first, w, p, b, [], m);
      }
    }
  }

  /** Whether the transition table of a state can be built depends only on what has been read. */
  lemma TrackedFits(c: Compiled, w: seq<Byte>, s: State)
    requires c.Valid() && Tracks(c, w, s)
    ensures c.SlotsFit(s.nodes) <==> c.Fits(w)
  {
    GroupCountOfSet(c.nfa, s.nodes);
    c.ReachedByIsUnique(w, Elements(s.nodes));
  }

  /** Once no node is reached, no longer word is accepted. */
  lemma DeadStaysDead(c: Compiled, w: seq<Byte>, v: seq<Byte>)
    requires c.Valid() && Tracks(c, w, null)
    ensures !Accepted(c, w + v)
  {
    if v == [] {
      assert w + v == w;
    } else if Accepted(c, w + v) {
      assert w + v == w + [v[0]] + v[1..];
      var p := PathCut(c.nfa, c.first, w, v[0], v[1..], c.eor);
    }
  }

  /** A path that reads `u + v` passes a node between the two parts. */
  lemma PathSplit(nfa: Nfa, n: int, u: seq<Byte>, v: seq<Byte>, m: int) returns (p: int)
    requires nfa.Shape() && Path(nfa, n, u + v, m)
    ensures Path(nfa, n, u, p) && Path(nfa, p, v, m)
  {
    if v == [] {
      assert u + v == u;
      p := m;
      PathHere(nfa, m);
    } else {
      assert u + v == u + [v[0]] + v[1..];
      p := PathCut(nfa, n, u, v[0], v[1..], m);
      ByteStep(nfa, p, v[0], v[1..], m);
      assert [v[0]] + v[1..] == v;
    }
  }

  // ----- fastmap

  /** The initial state reads `b`. */
  ghost predicate CanStart(c: Compiled, b: Byte)
    requires c.Valid()
  {
    exists p :: Path(c.nfa, c.first, [], p) && Reads(c.nfa, p, b)
  }

  /** What the search relies on: a byte that is not in the map starts no match, and if the map leaves
      any byte out, the empty match is possible only when `canBeNull` says so. */
  ghost predicate FastmapOk(c: Compiled, fastmap: seq<bool>, canBeNull: bool)
    requires c.Valid()
  {
    && |fastmap| == SBC_MAX
    && (forall b: Byte :: CanStart(c, b) ==> fastmap[b])
    && (Accepted(c, []) ==> canBeNull || forall b: Byte :: fastmap[b])
  }

  /** A byte in the map starts a match, unless the pattern accepts the empty word or may start with a
      period: then the whole map is set. If no period comes first, `canBeNull` says exactly whether the
      pattern accepts the empty word. */
  ghost predicate FastmapTight(c: Compiled, fastmap: seq<bool>, canBeNull: bool)
    requires c.Valid()
  {
    && |fastmap| == SBC_MAX
    && (canBeNull ==> Accepted(c, []))
    && (Accepted(c, []) && !StartsWithPeriod(c) ==> canBeNull)
    && (!Accepted(c, []) && !StartsWithPeriod(c) ==> forall b: Byte :: fastmap[b] ==> CanStart(c, b))
  }

  ghost predicate StartsWithPeriod(c: Compiled)
    requires c.Valid()
  {
    exists p :: Path(c.nfa, c.first, [], p) && c.nfa.Has(p) && c.nfa.nodes[p].Period?
  }

  /** re_compile_fastmap: all initial states are the same state. */
  method CompileFastmap(dfa: Dfa) returns (fastmap: seq<bool>, canBeNull: bool)
    requires dfa.Valid()
    ensures FastmapOk(dfa.c, fastmap, canBeNull) && FastmapTight(dfa.c, fastmap, canBeNull)
  {
    var map_ := new bool[SBC_MAX](_ => false);
    canBeNull := CompileFastmapIter(dfa, dfa.initState, map_);
    fastmap := map_[..];
  }

  /** Byte `b` is marked if one of the first `i` nodes of the state reads it. */
  ghost predicate MarkedUpTo(c: Compiled, nodes: seq<int>, i: nat, fastmap: seq<bool>)
    requires c.Valid() && i <= |nodes| && |fastmap| == SBC_MAX
  {
    forall k, b: Byte :: 0 <= k < i && Reads(c.nfa, nodes[k], b) ==> fastmap[b]
  }

  /** The END_OF_RE node comes in the list, and no period before it. */
  ghost predicate EndsFirst(c: Compiled, nodes: seq<int>)
    requires c.Valid() && c.AllLive(nodes)
  {
    exists i :: 0 <= i < |nodes| && nodes[i] == c.eor && NoneOf(c, nodes[..i])
  }

  /** None of the nodes is END_OF_RE or a period. */
  ghost predicate NoneOf(c: Compiled, nodes: seq<int>)
    requires c.Valid()
  {
    forall n :: n in nodes ==> n != c.eor && !(c.nfa.Has(n) && c.nfa.nodes[n].Period?)
  }

  /** re_compile_fastmap_iter. It returns at the first node that is END_OF_RE or OP_PERIOD. */
  method CompileFastmapIter(dfa: Dfa, state: State, fastmap: array<bool>) returns (canBeNull: bool)
    requires dfa.Valid() && state == dfa.initState && fastmap.Length == SBC_MAX
    requires forall b: Byte :: !fastmap[b]
    modifies fastmap
    ensures FastmapOk(dfa.c, fastmap[..], canBeNull) && FastmapTight(dfa.c, fastmap[..], canBeNull)
    ensures dfa.StateOk(state) && (canBeNull <==> EndsFirst(dfa.c, state.nodes))
  {
    hide Dfa.TrtableOk, Compiled.Fits, StateHash;
    var c := dfa.c;
    canBeNull := false;
    assert dfa.StateOk(state);
    for i := 0 to |state.nodes|
      invariant MarkedUpTo(c, state.nodes, i, fastmap[..])
      invariant NoneOf(c, state.nodes[..i])
      invariant forall b: Byte :: fastmap[b] ==> CanStart(c, b)
    {
      var n := state.nodes[i];
      assert n in state.nodes && c.Live(n);
      var node := c.nfa.nodes[n];
      if node.Character? {
        assert Reads(c.nfa, n, node.c);
        fastmap[node.c] := true;
      } else if node.SimpleBracket? {
        MarkBracket(node.sbcset, fastmap);
        assert forall b: Byte :: b in node.sbcset ==> Reads(c.nfa, n, b);
      } else if node.EndOfRe? || node.Period? {
        forall ch | 0 <= ch < SBC_MAX {
          fastmap[ch] := true;
        }
        canBeNull := node.EndOfRe?;
        return;
      }
    }
  }

  /** The bytes of a bracket are set in the fastmap. */
  method MarkBracket(sbcset: set<Byte>, fastmap: array<bool>)
    requires fastmap.Length == SBC_MAX
    modifies fastmap
    ensures forall b: Byte :: fastmap[b] <==> old(fastmap[b]) || b in sbcset
  {
    for ch := 0 to SBC_MAX
      invariant forall b: Byte :: fastmap[b] <==> old(fastmap[b]) || (b < ch && b in sbcset)
    {
      if ch in sbcset {
        fastmap[ch] := true;
      }
    }
  }

  // ----- matching at one position

  /** Reading `input` comes to a state whose groups do not fit, before the match is settled. */
  ghost predicate Overflows(c: Compiled, input: seq<Byte>, longest: bool)
    requires c.Valid()
  {
    exists k :: OverflowsAt(c, input, longest, k)
  }

  ghost predicate OverflowsAt(c: Compiled, input: seq<Byte>, longest: bool, k: int)
    requires c.Valid()
  {
    0 <= k < |input| && !c.Fits(input[..k]) && (longest || forall m :: 0 <= m <= k ==> !Accepted(c, input[..m]))
  }

  /** Where no node is reached, no slot is needed. */
  lemma DeadFits(c: Compiled, w: seq<Byte>, v: seq<Byte>)
    requires c.Valid() && Tracks(c, w, null)
    ensures c.Fits(w + v)
  {
    forall m
      ensures !Path(c.nfa, c.first, w + v, m)
    {
      if Path(c.nfa, c.first, w + v, m) {
        var p := PathSplit(c.nfa, c.first, w, v, m);
      }
    }
    NoSlots(c.nfa);
    c.ReachedByIsUnique(w + v, {});
  }

  lemma NoSlots(nfa: Nfa)
    requires nfa.Shape()
    ensures SlotsFor(nfa, {}) == 0
  {
    assert BytesRead(nfa, {}) == {} && EmptyIn(nfa, {}) == {};
    assert Looks(nfa, {}, {}) == {};
  }

  /** None of the first `n` states that are read from overflows. */
  ghost predicate FitsBefore(c: Compiled, input: seq<Byte>, n: nat)
    requires c.Valid() && n <= |input|
  {
    forall k :: 0 <= k < n ==> c.Fits(input[..k])
  }

  lemma OverflowsHere(c: Compiled, input: seq<Byte>, idx: nat, longest: bool, last: int)
    requires c.Valid() && idx < |input| && BestSoFar(c, input, idx, longest, last) && !c.Fits(input[..idx])
    ensures Overflows(c, input, longest)
  {
    assert OverflowsAt(c, input, longest, idx);
  }

  /** After the end of the loop nothing overflows any more: there is no state, or any match will do. */
  lemma NoOverflow(c: Compiled, input: seq<Byte>, n: nat, longest: bool)
    requires c.Valid() && n <= |input| && FitsBefore(c, input, n)
    requires n == |input| || Tracks(c, input[..n], null) || (!longest && Accepted(c, input[..n]))
    ensures !Overflows(c, input, longest)
  {
    hide Compiled.Valid, Compiled.Fits;
    forall k
      ensures !OverflowsAt(c, input, longest, k)
    {
      if n <= k < |input| && Tracks(c, input[..n], null) {
        DeadFits(c, input[..n], input[n..k]);
        assert input[..n] + input[n..k] == input[..k];
      }
    }
  }

  /** What check_matching promises about the length `r` of the match at the start of `input`. */
  ghost predicate MatchResult(c: Compiled, input: seq<Byte>, longest: bool, r: int)
    requires c.Valid()
  {
    && -1 <= r <= |input|
    && (r == -1 ==> forall k :: 0 <= k <= |input| ==> !Accepted(c, input[..k]))
    && (r >= 0 ==> Accepted(c, input[..r]))
    && (r >= 0 && longest ==> forall k :: r < k <= |input| ==> !Accepted(c, input[..k]))
    && (r >= 0 && !longest ==> forall k :: 0 <= k < r ==> !Accepted(c, input[..k]))
  }

  /** The states logged for the first `n` positions track the input. */
  ghost predicate LogOk(c: Compiled, input: seq<Byte>, log: seq<State?>, n: nat)
    requires c.Valid() && n <= |log| && n <= |input| + 1
  {
    forall i :: 0 <= i < n ==> Tracks(c, input[..i], log[i])
  }

  /** The best match among the words of length up to `n`. */
  ghost predicate BestSoFar(c: Compiled, input: seq<Byte>, n: nat, longest: bool, last: int)
    requires c.Valid() && n <= |input|
  {
    && -1 <= last <= n
    && (last >= 0 ==> longest && Accepted(c, input[..last]))
    && forall k :: last < k <= n ==> !Accepted(c, input[..k])
  }

  /** transit_state on the byte at `idx`, with the state log kept up to date when there is one. */
  method TransitAndLog(dfa: Dfa, input: seq<Byte>, idx: nat, state: State, log: array?<State?>)
      returns (fits: bool, next: State?)
    requires dfa.Valid()
    requires state in dfa.states && idx < |input| && Tracks(dfa.c, input[..idx], state)
    requires log != null ==> log.Length > |input| && LogOk(dfa.c, input, log[..], idx + 1)
    modifies dfa`states, dfa.stateTable, dfa.states, log
    ensures dfa.Valid() && old(dfa.states) <= dfa.states && fresh(dfa.states - old(dfa.states))
    ensures fits <==> dfa.c.Fits(input[..idx])
    ensures fits && next != null ==> next in dfa.states && (next.halt <==> dfa.c.eor in next.nodes)
    ensures fits ==> Tracks(dfa.c, input[..idx + 1], next)
    ensures fits && log != null ==>
              LogOk(dfa.c, input, log[..], idx + 2) && log[..] == old(log[..])[idx + 1 := next]
  {
    hide LogOk, Tracks, Accepted, Dfa.TableOk, Dfa.TrtableOk, Compiled.Valid, Compiled.Fits;
    ghost var before := if log == null then [] else log[..];
    fits, next := Transit(dfa, input, idx, state);
    if fits && log != null {
      assert log[..] == before;
      log[idx + 1] := next;
      LogExtends(dfa.c, input, before, idx, next);
    }
  }

  /** transit_state on the byte at `idx`. */
  method Transit(dfa: Dfa, input: seq<Byte>, idx: nat, state: State) returns (fits: bool, next: State?)
    requires dfa.Valid()
    requires state in dfa.states && idx < |input| && Tracks(dfa.c, input[..idx], state)
    modifies dfa`states, dfa.stateTable, dfa.states
    ensures dfa.Valid() && old(dfa.states) <= dfa.states && fresh(dfa.states - old(dfa.states))
    ensures fits <==> dfa.c.Fits(input[..idx])
    ensures fits && next != null ==> next in dfa.states && (next.halt <==> dfa.c.eor in next.nodes)
    ensures fits ==> Tracks(dfa.c, input[..idx + 1], next)
  {
    hide Tracks, Dfa.TableOk, Dfa.TrtableOk, Dfa.EntryOk;
    hide Compiled.Valid, Compiled.Fits, Compiled.SlotsFit, Compiled.IsStep;
    assert input[..idx + 1] == input[..idx] + [input[idx]];
    TrackedFits(dfa.c, input[..idx], state);
    fits, next := dfa.TransitState(state, input[idx]);
    if fits {
      TracksStep(dfa.c, input[..idx], state, input[idx], next);
    }
  }

  lemma LogExtends(c: Compiled, input: seq<Byte>, log: seq<State?>, idx: nat, next: State?)
    requires c.Valid() && idx < |input| < |log| && LogOk(c, input, log, idx + 1) && Tracks(c, input[..idx + 1], next)
    ensures LogOk(c, input, log[idx + 1 := next], idx + 2)
  {
    hide Tracks;
  }

  /** One more position: it is a match if the state halts. */
  lemma BestStep(c: Compiled, input: seq<Byte>, idx: nat, longest: bool, last: int, s: State)
    requires c.Valid() && idx < |input| && BestSoFar(c, input, idx, longest, last) && Tracks(c, input[..idx + 1], s)
    ensures c.eor !in s.nodes ==> BestSoFar(c, input, idx + 1, longest, last)
    ensures c.eor in s.nodes ==> Accepted(c, input[..idx + 1])
    ensures c.eor in s.nodes && longest ==> BestSoFar(c, input, idx + 1, longest, idx + 1)
    ensures c.eor in s.nodes && !longest ==> MatchResult(c, input, longest, idx + 1)
  {
  }

  lemma BestAtTheEnd(c: Compiled, input: seq<Byte>, longest: bool, last: int)
    requires c.Valid() && BestSoFar(c, input, |input|, longest, last)
    ensures MatchResult(c, input, longest, last)
  {
  }

  lemma BestWhenDead(c: Compiled, input: seq<Byte>, idx: nat, longest: bool, last: int)
    requires c.Valid() && idx < |input| && BestSoFar(c, input, idx, longest, last) && Tracks(c, input[..idx + 1], null)
    ensures MatchResult(c, input, longest, last)
  {
    forall k | idx + 1 <= k <= |input|
      ensures !Accepted(c, input[..k])
    {
      DeadStaysDead(c, input[..idx + 1], input[idx + 1..k]);
      assert input[..idx + 1] + input[idx + 1..k] == input[..k];
    }
    BestAtTheEnd(c, input, longest, last);
  }

  /** The initial state, before anything is read. */
  lemma BestAtStart(dfa: Dfa, input: seq<Byte>, longest: bool)
    requires dfa.Valid()
    ensures var s := dfa.initState;
            && s in dfa.states && Tracks(dfa.c, input[..0], s)
            && (s.halt && !longest ==> MatchResult(dfa.c, input, longest, 0) && Accepted(dfa.c, input[..0]))
            && (!s.halt || longest ==> BestSoFar(dfa.c, input, 0, longest, if s.halt then 0 else -1))
  {
    assert input[..0] == [] && dfa.StateOk(dfa.initState);
  }

  lemma LogStarts(c: Compiled, input: seq<Byte>, log: seq<State?>, s: State)
    requires c.Valid() && |log| > |input| && Tracks(c, input[..0], s)
    ensures LogOk(c, input, log[0 := s], 1)
  {
    hide Tracks;
  }

  /** check_matching with `fl_search` 0; a null `log` stands for the missing state log. */
  method CheckMatching(dfa: Dfa, input: seq<Byte>, longest: bool, log: array?<State?>)
      returns (fits: bool, matchLast: int)
    requires dfa.Valid()
    requires log != null ==> log.Length > |input|
    modifies dfa`states, dfa.stateTable, dfa.states, log
    ensures dfa.Valid() && old(dfa.states) <= dfa.states && fresh(dfa.states - old(dfa.states))
    ensures fits <==> !Overflows(dfa.c, input, longest)
    ensures fits ==> MatchResult(dfa.c, input, longest, matchLast)
    ensures fits && log != null && matchLast >= 0 ==> LogOk(dfa.c, input, log[..], matchLast + 1)
  {
    hide LogOk, MatchResult, BestSoFar, Tracks, Accepted, Overflows;
    hide Dfa.TableOk, Dfa.TrtableOk, Compiled.Valid, Compiled.Fits;
    var curState := dfa.initState;
    matchLast := -1;
    BestAtStart(dfa, input, longest);
    if log != null {
      ghost var before := log[..];
      log[0] := curState;
      LogStarts(dfa.c, input, before, curState);
      assert log[..] == before[0 := curState];
    }
    if curState.halt {
      if !longest {
        NoOverflow(dfa.c, input, 0, longest);
        return true, 0;
      }
      matchLast := 0;
    }
    fits, matchLast := MatchLoop(dfa, input, curState, longest, matchLast, log);
  }

  /** The loop of check_matching, entered in the initial state. */
  method MatchLoop(dfa: Dfa, input: seq<Byte>, initState: State, longest: bool, initLast: int, log: array?<State?>)
      returns (fits: bool, matchLast: int)
    requires dfa.Valid() && initState in dfa.states && Tracks(dfa.c, input[..0], initState)
    requires BestSoFar(dfa.c, input, 0, longest, initLast)
    requires log != null ==> log.Length > |input| && LogOk(dfa.c, input, log[..], 1)
    modifies dfa`states, dfa.stateTable, dfa.states, log
    ensures dfa.Valid() && old(dfa.states) <= dfa.states && fresh(dfa.states - old(dfa.states))
    ensures fits <==> !Overflows(dfa.c, input, longest)
    ensures fits ==> MatchResult(dfa.c, input, longest, matchLast)
    ensures fits && log != null && matchLast >= 0 ==> LogOk(dfa.c, input, log[..], matchLast + 1)
  {
    hide LogOk, MatchResult, BestSoFar, Tracks, Accepted, Overflows;
    hide Dfa.TableOk, Dfa.TrtableOk, Compiled.Valid, Compiled.Fits;
    var curIdx, curState := 0, initState;
    fits, matchLast := true, initLast;
    while curIdx < |input|
      invariant 0 <= curIdx <= |input|
      invariant dfa.Valid() && old(dfa.states) <= dfa.states && fresh(dfa.states - old(dfa.states))
      invariant curState in dfa.states && Tracks(dfa.c, input[..curIdx], curState)
      invariant fits && BestSoFar(dfa.c, input, curIdx, longest, matchLast)
      invariant FitsBefore(dfa.c, input, curIdx)
      invariant log != null ==> LogOk(dfa.c, input, log[..], curIdx + 1)
    {
      var next, done;
      fits, next, matchLast, done := MatchStep(dfa, input, curIdx, curState, longest, matchLast, log);
      if !fits || done {
        return;
      }
      curIdx := curIdx + 1;
      curState := next;
    }
    BestBounds(dfa.c, input, curIdx, longest, matchLast);
    LogPrefix(dfa.c, input, if log == null then [] else log[..], curIdx + 1, matchLast + 1);
    BestAtTheEnd(dfa.c, input, longest, matchLast);
    NoOverflow(dfa.c, input, curIdx, longest);
  }

  lemma BestBounds(c: Compiled, input: seq<Byte>, n: nat, longest: bool, last: int)
    requires c.Valid() && n <= |input| && BestSoFar(c, input, n, longest, last)
    ensures -1 <= last <= n
  {
  }

  lemma LogPrefix(c: Compiled, input: seq<Byte>, log: seq<State?>, n: nat, m: nat)
    requires c.Valid() && m <= n <= |input| + 1
    ensures n <= |log| && LogOk(c, input, log, n) ==> LogOk(c, input, log, m)
  {
  }

  /** One byte: the loop is done if there is no next state, or a match and any match will do. */
  method MatchStep(dfa: Dfa, input: seq<Byte>, idx: nat, state: State, longest: bool, last0: int, log: array?<State?>)
      returns (fits: bool, next: State?, last: int, done: bool)
    requires dfa.Valid() && idx < |input| && FitsBefore(dfa.c, input, idx)
    requires state in dfa.states && Tracks(dfa.c, input[..idx], state)
    requires BestSoFar(dfa.c, input, idx, longest, last0)
    requires log != null ==> log.Length > |input| && LogOk(dfa.c, input, log[..], idx + 1)
    modifies dfa`states, dfa.stateTable, dfa.states, log
    ensures dfa.Valid() && old(dfa.states) <= dfa.states && fresh(dfa.states - old(dfa.states))
    ensures !fits ==> Overflows(dfa.c, input, longest)
    ensures fits ==> FitsBefore(dfa.c, input, idx + 1)
    ensures fits && done ==> MatchResult(dfa.c, input, longest, last) && !Overflows(dfa.c, input, longest)
    ensures fits && done && log != null && last >= 0 ==> last <= |input| && LogOk(dfa.c, input, log[..], last + 1)
    ensures fits && !done ==> next in dfa.states && Tracks(dfa.c, input[..idx + 1], next)
    ensures fits && !done ==> BestSoFar(dfa.c, input, idx + 1, longest, last)
    ensures fits && !done && log != null ==> LogOk(dfa.c, input, log[..], idx + 2)
  {
    hide LogOk, MatchResult, BestSoFar, Tracks, Accepted, Overflows;
    hide Dfa.TableOk, Dfa.TrtableOk, Compiled.Valid, Compiled.Fits;
    last := last0;
    BestBounds(dfa.c, input, idx, longest, last);
    fits, next := TransitAndLog(dfa, input, idx, state, log);
    done := false;
    if !fits {
      OverflowsHere(dfa.c, input, idx, longest, last);
      return;
    }
    if next == null {
      NoOverflow(dfa.c, input, idx + 1, longest);
      BestWhenDead(dfa.c, input, idx, longest, last);
      LogPrefix(dfa.c, input, if log == null then [] else log[..], idx + 2, last + 1);
      return true, next, last, true;
    }
    BestStep(dfa.c, input, idx, longest, last, next);
    if next.halt {
      last := idx + 1;
      done := !longest;
      if done {
        NoOverflow(dfa.c, input, idx + 1, longest);
      }
    }
  }
}
