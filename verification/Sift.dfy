/** sift_states_backward: the state log cut down to the nodes that lie on a path to the halt node. */
module Sift {
  import opened Language
  import opened NfaModel
  import opened NodeSets
  import opened Closure
  import opened DfaCache
  import opened Matcher

  /** Node `n` is logged at position `i` and reaches `h` by reading the rest of `word`. */
  ghost predicate Survives(c: Compiled, word: seq<Byte>, log: seq<State?>, i: nat, h: int, n: int)
    requires c.Valid() && |log| > |word| && i <= |word|
  {
    log[i] != null && n in log[i].nodes && Path(c.nfa, n, word[i..], h)
  }

  /** The state `s` holds exactly the survivors of position `i`; NULL if there are none. */
  ghost predicate Sifted(c: Compiled, word: seq<Byte>, log: seq<State?>, i: nat, h: int, s: State?)
    requires c.Valid() && |log| > |word| && i <= |word|
  {
    if s == null then forall n :: !Survives(c, word, log, i, h, n)
    else s.nodes != [] && Sorted(s.nodes) && forall n :: n in s.nodes <==> Survives(c, word, log, i, h, n)
  }

  ghost predicate SiftedFrom(c: Compiled, word: seq<Byte>, log: seq<State?>, i: nat, h: int, sifted: seq<State?>)
    requires c.Valid() && |log| > |word| && |sifted| > |word|
  {
    forall k :: i <= k <= |word| ==> Sifted(c, word, log, k, h, sifted[k])
  }

  function Nodes(s: State?): seq<int> {
    if s == null then [] else s.nodes
  }

  /** `prev` reads the byte at `i` and its next node survives at `i + 1`. */
  ghost predicate Accepting(c: Compiled, word: seq<Byte>, log: seq<State?>, i: nat, h: int, prev: int)
    requires c.Valid() && |log| > |word| && i < |word|
  {
    prev in Nodes(log[i]) && Reads(c.nfa, prev, word[i]) && Survives(c, word, log, i + 1, h, c.nfa.nexts[prev])
  }

  /** The survivors of a position are the logged nodes that reach an accepting one by epsilon edges. */
  lemma SurvivesViaAccepting(c: Compiled, word: seq<Byte>, log: seq<State?>, i: nat, h: int, n: int)
    requires c.Valid() && |log| > |word| && i < |word| && LogOk(c, word, log, |word| + 1)
    ensures Survives(c, word, log, i, h, n) <==>
            n in Nodes(log[i]) && exists p :: Accepting(c, word, log, i, h, p) && Path(c.nfa, n, [], p)
  {
    var rest := word[i + 1..];
    assert word[i..] == [] + [word[i]] + rest && word[..i + 1] == word[..i] + [word[i]];
    if Survives(c, word, log, i, h, n) {
      var p := PathCut(c.nfa, n, [], word[i], rest, h);
      assert Tracks(c, word[..i], log[i]) && Tracks(c, word[..i + 1], log[i + 1]);
      PathJoin(c.nfa, c.first, word[..i], n, [], p);
      assert word[..i] + [] == word[..i];
      PathHere(c.nfa, c.nfa.nexts[p]);
      PathViaJoins(c.nfa, c.first, word[..i], p, word[i], [], c.nfa.nexts[p]);
      assert word[..i] + [word[i]] + [] == word[..i + 1];
      assert Accepting(c, word, log, i, h, p);
    }
    if n in Nodes(log[i]) && exists p :: Accepting(c, word, log, i, h, p) && Path(c.nfa, n, [], p) {
      var p :| Accepting(c, word, log, i, h, p) && Path(c.nfa, n, [], p);
      PathViaJoins(c.nfa, n, [], p, word[i], rest, h);
    }
  }

  /** Whatever survives at a position leads to a survivor of every later position. */
  lemma SurvivorAhead(c: Compiled, word: seq<Byte>, log: seq<State?>, i: nat, j: nat, h: int, n: int) returns (p: int)
    requires c.Valid() && |log| > |word| && j <= i <= |word| && LogOk(c, word, log, |word| + 1)
    requires Survives(c, word, log, j, h, n)
    ensures Survives(c, word, log, i, h, p)
  {
    assert word[j..] == word[j..i] + word[i..] && word[..j] + word[j..i] == word[..i];
    p := PathSplit(c.nfa, n, word[j..i], word[i..], h);
    assert Tracks(c, word[..j], log[j]) && Tracks(c, word[..i], log[i]);
    PathJoin(c.nfa, c.first, word[..j], n, word[j..i], p);
  }

  /** The set `dest` and all candidates that reach it by epsilon edges. */
  ghost predicate WithSources(c: Compiled, dest: seq<int>, candidates: seq<int>, result: seq<int>)
    requires c.Valid()
  {
    forall n :: n in result <==> n in dest || (n in candidates && exists d :: d in dest && Path(c.nfa, n, [], d))
  }

  lemma SourcesOf(c: Compiled, d: int)
    requires c.Valid() && c.nfa.Has(d)
    ensures 0 <= d < |c.inveclosures| && Sorted(c.inveclosures[d])
    ensures forall n :: c.nfa.Has(n) ==> (n in c.inveclosures[d] <==> Path(c.nfa, n, [], d))
  {
    forall n | c.nfa.Has(n)
      ensures n in c.inveclosures[d] <==> Path(c.nfa, n, [], d)
    {
      assert IsClosure(c.nfa, n, c.eclosures[n]);
    }
  }

  /** add_epsilon_src_nodes */
  method AddEpsilonSrcNodes(c: Compiled, destNodes: seq<int>, candidates: seq<int>) returns (result: seq<int>)
    requires c.Valid() && Sorted(destNodes) && Sorted(candidates)
    requires forall d :: d in destNodes ==> c.nfa.Has(d)
    requires forall n :: n in candidates ==> c.nfa.Has(n)
    ensures Sorted(result) && WithSources(c, destNodes, candidates, result)
  {
    assert c.nfa.Shape();
    hide Compiled.Valid, Compiled.Fits;
    var dest := new NodeSet.Copy(destNodes);
    for srcIdx := 0 to |destNodes|
      invariant dest.Valid() && fresh(dest) && fresh(dest.elems)
      invariant forall n :: n in dest.Contents() <==>
                  n in destNodes || (n in candidates && exists d :: d in destNodes[..srcIdx] && Path(c.nfa, n, [], d))
    {
      var d := destNodes[srcIdx];
      assert d in destNodes && destNodes[..srcIdx + 1] == destNodes[..srcIdx] + [d];
      SourcesOf(c, d);
      dest.AddIntersect(candidates, c.inveclosures[d]);
    }
    assert destNodes[..|destNodes|] == destNodes;
    result := dest.elems[..dest.nelem];
  }

  /** update_cur_sifted_state without back-references */
  method UpdateCurSiftedState(dfa: Dfa, destNodes: seq<int>, candidates: seq<int>) returns (sifted: State?)
    requires dfa.Valid() && Sorted(destNodes) && Sorted(candidates) && dfa.c.AllLive(candidates)
    requires forall d :: d in destNodes ==> d in candidates
    modifies dfa`states, dfa.stateTable
    ensures dfa.Valid() && old(dfa.states) <= dfa.states && fresh(dfa.states - old(dfa.states))
    ensures sifted != null ==> sifted in dfa.states && sifted.nodes != [] && Sorted(sifted.nodes)
    ensures WithSources(dfa.c, destNodes, candidates, Nodes(sifted))
  {
    hide Dfa.TrtableOk;
    assert forall n :: n in candidates ==> dfa.c.Live(n);
    var nodes := destNodes;
    if |destNodes| > 0 {
      nodes := AddEpsilonSrcNodes(dfa.c, destNodes, candidates);
    }
    sifted := dfa.AcquireState(nodes);
  }

  /** The logged states are usable as candidate lists. */
  ghost predicate LogStates(c: Compiled, log: seq<State?>)
    requires c.Valid()
  {
    forall i :: 0 <= i < |log| ==> Sorted(Nodes(log[i])) && c.AllLive(Nodes(log[i]))
  }

  /** The nodes of `log[strIdx]` that accept the byte there and whose next node survives. */
  method CollectAccepting(c: Compiled, word: seq<Byte>, log: seq<State?>, strIdx: nat, ghost h: int, nextSifted: State?)
      returns (curDest: seq<int>)
    requires c.Valid() && |log| > |word| && strIdx < |word| && LogStates(c, log)
    requires Sifted(c, word, log, strIdx + 1, h, nextSifted)
    ensures Sorted(curDest) && forall p :: p in curDest <==> Accepting(c, word, log, strIdx, h, p)
  {
    var curSrc := Nodes(log[strIdx]);
    var dest := new NodeSet(1);
    for i := 0 to |curSrc|
      invariant dest.Valid() && fresh(dest) && fresh(dest.elems)
      invariant forall p :: p in dest.Contents() <==> p in curSrc[..i] && Accepting(c, word, log, strIdx, h, p)
    {
      var prev := curSrc[i];
      assert curSrc[..i + 1] == curSrc[..i] + [prev];
      assert prev in curSrc && c.Live(prev);
      if !c.nfa.nodes[prev].IsEpsilon() {
        if Accepts(c.nfa.sx, c.nfa.nodes[prev], word[strIdx]) {
          var found := Contains(Nodes(nextSifted), c.nfa.nexts[prev]);
          if found != 0 {
            dest.Insert(prev);
          }
        }
      }
    }
    assert curSrc[..|curSrc|] == curSrc;
    curDest := dest.elems[..dest.nelem];
  }

  /** The sifted state of position `i` is what update_cur_sifted_state makes of the accepting nodes. */
  lemma StepIsSifted(c: Compiled, word: seq<Byte>, log: seq<State?>, i: nat, h: int, dest: seq<int>, s: State?)
    requires c.Valid() && |log| > |word| && i < |word| && LogOk(c, word, log, |word| + 1)
    requires forall p :: p in dest <==> Accepting(c, word, log, i, h, p)
    requires WithSources(c, dest, Nodes(log[i]), Nodes(s))
    requires s != null ==> s.nodes != [] && Sorted(s.nodes)
    ensures Sifted(c, word, log, i, h, s)
  {
    forall n
      ensures n in Nodes(s) <==> Survives(c, word, log, i, h, n)
    {
      SurvivesViaAccepting(c, word, log, i, h, n);
      if n in dest {
        PathHere(c.nfa, n);
      }
    }
  }

  lemma LastIsSifted(c: Compiled, word: seq<Byte>, log: seq<State?>, h: int, s: State?)
    requires c.Valid() && |log| > |word| && h in Nodes(log[|word|])
    requires WithSources(c, [h], Nodes(log[|word|]), Nodes(s))
    requires s != null ==> s.nodes != [] && Sorted(s.nodes)
    ensures Sifted(c, word, log, |word|, h, s)
  {
    assert word[|word|..] == [];
    PathHere(c.nfa, h);
    forall n
      ensures n in Nodes(s) <==> Survives(c, word, log, |word|, h, n)
    {
      assert Path(c.nfa, n, [], h) ==> h in [h] && Path(c.nfa, n, [], h);
    }
  }

  /** `mctx->max_mb_elem_len` when no node accepts more than one byte. */
  const MAX_MB_ELEM_LEN := 0

  /** sift_states_backward: `sifted[i]` becomes exactly the nodes of `log[i]` from which the rest of
      `word` leads to the halt node `lastNode`. */
  method SiftStatesBackward(dfa: Dfa, word: seq<Byte>, log: seq<State?>, lastNode: int, sifted: array<State?>)
    requires dfa.Valid() && |log| > |word| && sifted.Length == |word| + 1
    requires LogOk(dfa.c, word, log, |word| + 1) && LogStates(dfa.c, log) && lastNode in Nodes(log[|word|])
    modifies dfa`states, dfa.stateTable, sifted
    ensures dfa.Valid() && old(dfa.states) <= dfa.states && fresh(dfa.states - old(dfa.states))
    ensures SiftedFrom(dfa.c, word, log, 0, lastNode, sifted[..])
  {
    hide LogOk, LogStates, Dfa.TableOk, Dfa.TrtableOk, Compiled.Valid, Compiled.Fits;
    var nullCnt, strIdx := 0, |word|;
    SiftLast(dfa, word, log, lastNode, sifted);
    while strIdx > 0
      invariant 0 <= strIdx <= |word| && nullCnt == 0
      invariant dfa.Valid() && old(dfa.states) <= dfa.states && fresh(dfa.states - old(dfa.states))
      invariant SiftedFrom(dfa.c, word, log, strIdx, lastNode, sifted[..])
    {
      nullCnt := if sifted[strIdx] == null then nullCnt + 1 else 0;
      if nullCnt > MAX_MB_ELEM_LEN {
        ClearBefore(dfa.c, word, log, strIdx, lastNode, sifted);
        return;
      }
      strIdx := strIdx - 1;
      SiftOne(dfa, word, log, strIdx, lastNode, sifted);
    }
  }

  /** The last position: the halt node and what reaches it by epsilon edges. */
  method SiftLast(dfa: Dfa, word: seq<Byte>, log: seq<State?>, lastNode: int, sifted: array<State?>)
    requires dfa.Valid() && |log| > |word| && sifted.Length == |word| + 1
    requires LogStates(dfa.c, log) && lastNode in Nodes(log[|word|])
    modifies dfa`states, dfa.stateTable, sifted
    ensures dfa.Valid() && old(dfa.states) <= dfa.states && fresh(dfa.states - old(dfa.states))
    ensures SiftedFrom(dfa.c, word, log, |word|, lastNode, sifted[..])
  {
    hide LogOk, Dfa.TableOk, Dfa.TrtableOk, Compiled.Valid, Compiled.Fits;
    var last := UpdateCurSiftedState(dfa, [lastNode], Nodes(log[|word|]));
    sifted[|word|] := last;
    LastIsSifted(dfa.c, word, log, lastNode, last);
  }

  /** One position of the backward pass. */
  method SiftOne(dfa: Dfa, word: seq<Byte>, log: seq<State?>, strIdx: nat, ghost lastNode: int, sifted: array<State?>)
    requires dfa.Valid() && |log| > |word| && strIdx < |word| && sifted.Length == |word| + 1
    requires LogOk(dfa.c, word, log, |word| + 1) && LogStates(dfa.c, log)
    requires SiftedFrom(dfa.c, word, log, strIdx + 1, lastNode, sifted[..])
    modifies dfa`states, dfa.stateTable, sifted
    ensures dfa.Valid() && old(dfa.states) <= dfa.states && fresh(dfa.states - old(dfa.states))
    ensures SiftedFrom(dfa.c, word, log, strIdx, lastNode, sifted[..])
  {
    hide LogOk, Dfa.TableOk, Dfa.TrtableOk, Compiled.Valid, Compiled.Fits;
    ghost var before := sifted[..];
    assert Sifted(dfa.c, word, log, strIdx + 1, lastNode, before[strIdx + 1]);
    var curDest := CollectAccepting(dfa.c, word, log, strIdx, lastNode, sifted[strIdx + 1]);
    var s := UpdateCurSiftedState(dfa, curDest, Nodes(log[strIdx]));
    StepIsSifted(dfa.c, word, log, strIdx, lastNode, curDest, s);
    sifted[strIdx] := s;
    assert forall k :: strIdx < k <= |word| ==> sifted[..][k] == before[k];
  }

  /** memset on the front of the sifted log after a position without survivors. */
  method ClearBefore(c: Compiled, word: seq<Byte>, log: seq<State?>, strIdx: nat, ghost h: int, sifted: array<State?>)
    requires c.Valid() && |log| > |word| && strIdx <= |word| && sifted.Length == |word| + 1
    requires LogOk(c, word, log, |word| + 1)
    requires SiftedFrom(c, word, log, strIdx, h, sifted[..]) && sifted[strIdx] == null
    modifies sifted
    ensures SiftedFrom(c, word, log, 0, h, sifted[..])
  {
    ghost var before := sifted[..];
    assert Sifted(c, word, log, strIdx, h, before[strIdx]);
    forall k | 0 <= k < strIdx {
      sifted[k] := null;
    }
    forall k, n | 0 <= k < strIdx
      ensures !Survives(c, word, log, k, h, n)
    {
      if Survives(c, word, log, k, h, n) {
        var p := SurvivorAhead(c, word, log, strIdx, k, h, n);
      }
    }
    assert forall k :: strIdx <= k <= |word| ==> sifted[..][k] == before[k];
  }
}
