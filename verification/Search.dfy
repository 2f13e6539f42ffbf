/** re_search_internal: the leftmost (or, searching backwards, rightmost) start of a match. */
module Search {
  import opened Language
  import opened NfaModel
  import opened NodeSets
  import opened DfaCache
  import opened Matcher
  import opened Sift

  /** regex_t; an empty `fastmap` stands for a NULL or inaccurate one. */
  datatype Regex = Regex(dfa: Dfa, fastmap: seq<bool>, canBeNull: bool, hasPluralMatch: bool) {
    ghost predicate Valid()
      reads dfa, dfa.stateTable, dfa.states
    {
      dfa.Valid() && (fastmap != [] ==> FastmapOk(dfa.c, fastmap, canBeNull))
    }
  }

  /** OutOfSlots: build_trtable comes to a group for which it has no slot. */
  datatype SearchResult = NoMatch | Match(first: nat, last: nat) | OutOfSlots

  /** Some word that starts at position `p` of `str` is accepted. */
  ghost predicate MatchesAt(c: Compiled, str: seq<Byte>, p: int)
    requires c.Valid() && 0 <= p <= |str|
  {
    exists k :: 0 <= k <= |str[p..]| && Accepted(c, str[p..][..k])
  }

  /** A search over `range` that has started at `from` has left the position `q` behind when it comes to `p`. */
  predicate Passed(range: int, from: int, p: int, q: int) {
    if range >= 0 then from <= q < p else p < q <= from
  }

  /** No match starts at the positions that a search from `start` has passed before it comes to `p`. */
  ghost predicate NoneBefore(c: Compiled, str: seq<Byte>, start: int, range: int, p: int)
    requires c.Valid()
  {
    forall q :: 0 <= q <= |str| && Passed(range, start, p, q) ==> !MatchesAt(c, str, q)
  }

  /** The position `p` is one that a search over `range` tries. */
  predicate InRange(start: int, range: int, p: int) {
    if range >= 0 then start <= p <= start + range else start + range <= p <= start
  }

  /** The position behind the last one of a search. */
  function Behind(range: int, p: int): int {
    if range >= 0 then p + 1 else p - 1
  }

  /** The fastmap does not skip the position `p`. */
  predicate Tried(re: Regex, str: seq<Byte>, range: int, p: nat) {
    var b := ByteAt(str, p);
    re.fastmap == [] || range == 0 || re.canBeNull || (b < |re.fastmap| && re.fastmap[b])
  }

  /** Matching at `p` runs out of slots. */
  ghost predicate StuckAt(re: Regex, str: seq<Byte>, range: int, longest: bool, p: int)
    requires re.dfa.c.Valid()
  {
    0 <= p <= |str| && Tried(re, str, range, p) && Overflows(re.dfa.c, str[p..], longest)
  }

  /** No position that was passed before `p` ran out of slots. */
  ghost predicate SlotsBefore(re: Regex, str: seq<Byte>, start: int, range: int, longest: bool, p: int)
    requires re.dfa.c.Valid()
  {
    forall q :: Passed(range, start, p, q) ==> !StuckAt(re, str, range, longest, q)
  }

  /** A search comes to the position `p` and runs out of slots there. */
  ghost predicate StopsAt(re: Regex, str: seq<Byte>, start: int, range: int, longest: bool, p: int)
    requires re.dfa.c.Valid()
  {
    InRange(start, range, p) && NoneBefore(re.dfa.c, str, start, range, p) && StuckAt(re, str, range, longest, p)
  }

  /** A search comes to such a position. */
  ghost predicate Stops(re: Regex, str: seq<Byte>, start: int, range: int, longest: bool)
    requires re.dfa.c.Valid()
  {
    exists p :: StopsAt(re, str, start, range, longest, p)
  }

  /** What a search over the positions from `start` to `start + range` returns. */
  ghost predicate SearchOk(re: Regex, str: seq<Byte>, start: int, range: int, longest: bool, r: SearchResult)
    requires re.dfa.c.Valid()
  {
    match r
    case NoMatch =>
      var end := Behind(range, start + range);
      NoneBefore(re.dfa.c, str, start, range, end) && SlotsBefore(re, str, start, range, longest, end)
    case Match(first, last) =>
      && InRange(start, range, first)
      && first <= |str|
      && MatchResult(re.dfa.c, str[first..], longest, last)
      && NoneBefore(re.dfa.c, str, start, range, first)
      && SlotsBefore(re, str, start, range, longest, Behind(range, first))
    case OutOfSlots => Stops(re, str, start, range, longest)
  }

  /** A search runs out of slots if and only if it comes to a position where matching does. */
  lemma OutOfSlotsExactlyWhen(re: Regex, str: seq<Byte>, start: int, range: int, longest: bool, r: SearchResult)
    requires re.dfa.c.Valid() && SearchOk(re, str, start, range, longest, r)
    ensures r.OutOfSlots? <==> Stops(re, str, start, range, longest)
  {
    if p :| StopsAt(re, str, start, range, longest, p) {
      if r.Match? && Passed(range, start, p, r.first) {
        MatchIsThere(re.dfa.c, str, r.first, longest, r.last);
      }
    }
  }

  /** Position `q` comes before `p` in a search that goes up, or down if `range` is negative. */
  predicate Earlier(range: int, q: int, p: int) {
    (range >= 0 && q < p) || (range < 0 && q > p)
  }

  /** A match is at the first position in the order of the search at which some word is accepted; if
      there is none, no word is accepted at any of the positions, its ends included. */
  lemma SearchMeans(re: Regex, str: seq<Byte>, start: nat, range: int, longest: bool, r: SearchResult, q: nat, k: nat)
    requires re.dfa.c.Valid() && SearchOk(re, str, start, range, longest, r)
    requires start <= q <= start + range || start + range <= q <= start
    requires k <= |str| && q + k <= |str|
    ensures r == NoMatch ==> !Accepted(re.dfa.c, str[q..q + k])
    ensures r.Match? ==>
              && (start <= r.first <= start + range || start + range <= r.first <= start)
              && r.first + r.last <= |str| && Accepted(re.dfa.c, str[r.first..r.first + r.last])
              && (Earlier(range, q, r.first) ==> !Accepted(re.dfa.c, str[q..q + k]))
              && (q == r.first && longest && k > r.last ==> !Accepted(re.dfa.c, str[q..q + k]))
              && (q == r.first && !longest && k < r.last ==> !Accepted(re.dfa.c, str[q..q + k]))
  {
    var c := re.dfa.c;
    hide Accepted, SlotsBefore, Stops;
    assert str[q..][..k] == str[q..q + k] && 0 <= k <= |str[q..]|;
    if Accepted(c, str[q..][..k]) {
      assert MatchesAt(c, str, q);
    }
    if r.Match? {
      assert str[r.first..][..r.last] == str[r.first..r.first + r.last];
    }
  }

  lemma MatchIsThere(c: Compiled, str: seq<Byte>, p: nat, longest: bool, last: nat)
    requires c.Valid() && p <= |str| && MatchResult(c, str[p..], longest, last)
    ensures MatchesAt(c, str, p)
  {
    assert Accepted(c, str[p..][..last]);
  }

  /** With room for the groups of every state, no search runs out of slots. */
  lemma RoomyIsEnough(re: Regex, str: seq<Byte>, start: int, range: int, longest: bool, r: SearchResult)
    requires re.dfa.c.Valid() && SearchOk(re, str, start, range, longest, r)
    ensures re.dfa.c.Roomy() ==> !r.OutOfSlots?
  {
    hide Compiled.Valid, Compiled.Fits, NoneBefore;
  }

  /** The byte that the fastmap is asked about at position `p`. */
  function ByteAt(str: seq<Byte>, p: int): Byte
    requires 0 <= p
  {
    if p >= |str| then 0 else str[p]
  }

  /** A position whose byte is not in the fastmap starts no match. */
  lemma FastmapSkips(c: Compiled, fastmap: seq<bool>, str: seq<Byte>, p: nat)
    requires c.Valid() && FastmapOk(c, fastmap, false) && p <= |str| && !fastmap[ByteAt(str, p)]
    ensures !MatchesAt(c, str, p)
  {
    forall k | 0 <= k <= |str[p..]|
      ensures !Accepted(c, str[p..][..k])
    {
      var w := str[p..][..k];
      if Accepted(c, w) && k > 0 {
        assert w == [] + [w[0]] + w[1..];
        var q := PathCut(c.nfa, c.first, [], w[0], w[1..], c.eor);
        assert CanStart(c, w[0]);
      }
    }
  }

  /** Let the fastmap move the start position on; `none` if it shows that no match is left. */
  method SkipByFastmap(c: Compiled, fastmap: seq<bool>, str: seq<Byte>, start: nat, range: int, from: nat)
      returns (matchFirst: int, none: bool)
    requires c.Valid() && FastmapOk(c, fastmap, false)
    requires start <= |str| && 0 <= start + range <= |str|
    requires InRange(start, range, from)
    requires NoneBefore(c, str, start, range, from)
    ensures !none ==> (if range >= 0 then from <= matchFirst <= start + range else start + range <= matchFirst <= from)
    ensures !none ==> NoneBefore(c, str, start, range, matchFirst)
    ensures !none ==> fastmap[ByteAt(str, matchFirst)]
    ensures none ==> NoneBefore(c, str, start, range, Behind(range, start + range))
    ensures forall q :: 0 <= q && Passed(range, from, if none then Behind(range, start + range) else matchFirst, q) ==>
              !fastmap[ByteAt(str, q)]
  {
    matchFirst, none := from, false;
    if range >= 0 {
      var rightLim := start + range;
      while matchFirst < rightLim && !fastmap[str[matchFirst]]
        invariant from <= matchFirst <= rightLim && NoneBefore(c, str, start, range, matchFirst)
        invariant forall q :: 0 <= q && Passed(range, from, matchFirst, q) ==> !fastmap[ByteAt(str, q)]
      {
        FastmapSkips(c, fastmap, str, matchFirst);
        matchFirst := matchFirst + 1;
      }
      if matchFirst == rightLim {
        if !fastmap[ByteAt(str, matchFirst)] {
          FastmapSkips(c, fastmap, str, matchFirst);
          none := true;
        }
      }
    } else {
      var leftLim := start + range;
      while matchFirst >= leftLim
        invariant leftLim - 1 <= matchFirst <= from && NoneBefore(c, str, start, range, matchFirst)
        invariant forall q :: 0 <= q && Passed(range, from, matchFirst, q) ==> !fastmap[ByteAt(str, q)]
        decreases matchFirst - leftLim + 1
      {
        if fastmap[ByteAt(str, matchFirst)] {
          break;
        }
        FastmapSkips(c, fastmap, str, matchFirst);
        matchFirst := matchFirst - 1;
      }
      none := matchFirst < leftLim;
    }
  }

  /** The states in `log` hold exactly the nodes that lie on an accepting path over `word`. */
  ghost predicate Pruned(c: Compiled, word: seq<Byte>, log: seq<State?>)
    requires c.Valid()
  {
    |log| > |word| &&
    forall i :: 0 <= i <= |word| ==> PrunedAt(c, word, i, log[i])
  }

  ghost predicate PrunedAt(c: Compiled, word: seq<Byte>, i: nat, s: State?)
    requires c.Valid() && i <= |word|
  {
    s != null && forall n :: n in s.nodes <==> Path(c.nfa, c.first, word[..i], n) && Path(c.nfa, n, word[i..], c.eor)
  }

  lemma SiftedIsPruned(c: Compiled, word: seq<Byte>, log: seq<State?>, sifted: seq<State?>)
    requires c.Valid() && |log| > |word| && |sifted| > |word| && LogOk(c, word, log, |word| + 1)
    requires SiftedFrom(c, word, log, 0, c.eor, sifted) && Accepted(c, word)
    ensures Pruned(c, word, sifted)
  {
    forall i | 0 <= i <= |word|
      ensures PrunedAt(c, word, i, sifted[i])
    {
      assert word[..i] + word[i..] == word;
      var p := PathSplit(c.nfa, c.first, word[..i], word[i..], c.eor);
      assert Tracks(c, word[..i], log[i]);
      assert Survives(c, word, log, i, c.eor, p);
      assert Sifted(c, word, log, i, c.eor, sifted[i]);
      forall n
        ensures Survives(c, word, log, i, c.eor, n) <==>
                  Path(c.nfa, c.first, word[..i], n) && Path(c.nfa, n, word[i..], c.eor)
      {
      }
    }
  }

  /** check_halt_state_context: the halt node of the state, or 0 */
  method CheckHaltState(c: Compiled, state: State) returns (node: int)
    requires c.Valid() && c.AllLive(state.nodes)
    ensures node == if c.eor in state.nodes then c.eor else 0
  {
    for i := 0 to |state.nodes|
      invariant c.eor !in state.nodes[..i]
    {
      assert state.nodes[i] in state.nodes && c.Live(state.nodes[i]);
      if c.nfa.nodes[state.nodes[i]] == EndOfRe {
        return state.nodes[i];
      }
      assert state.nodes[..i + 1] == state.nodes[..i] + [state.nodes[i]];
    }
    assert state.nodes[..|state.nodes|] == state.nodes;
    node := 0;
  }

  lemma LogOkGivesStates(c: Compiled, word: seq<Byte>, log: seq<State?>)
    requires c.Valid() && |log| == |word| + 1 && LogOk(c, word, log, |word| + 1)
    ensures LogStates(c, log)
  {
    forall i | 0 <= i < |log|
      ensures Sorted(Sift.Nodes(log[i])) && c.AllLive(Sift.Nodes(log[i]))
    {
      assert Tracks(c, word[..i], log[i]);
      forall n | n in Sift.Nodes(log[i])
        ensures c.Live(n)
      {
        c.PathIsLive(word[..i], n);
      }
    }
  }

  /** prune_impossible_nodes without back-references */
  method PruneImpossibleNodes(dfa: Dfa, word: seq<Byte>, log: seq<State?>) returns (sifted: seq<State?>)
    requires dfa.Valid() && |log| == |word| + 1 && LogOk(dfa.c, word, log, |word| + 1) && Accepted(dfa.c, word)
    modifies dfa`states, dfa.stateTable
    ensures dfa.Valid() && old(dfa.states) <= dfa.states && fresh(dfa.states - old(dfa.states))
    ensures Pruned(dfa.c, word, sifted)
  {
    hide SiftedFrom, Pruned, LogStates, Dfa.TableOk, Dfa.TrtableOk, Compiled.Fits;
    assert word[..|word|] == word && Tracks(dfa.c, word, log[|word|]);
    LogOkGivesStates(dfa.c, word, log);
    assert dfa.c.AllLive(Sift.Nodes(log[|word|]));
    var haltNode := CheckHaltState(dfa.c, log[|word|]);
    var table := new State?[|word| + 1](_ => null);
    SiftStatesBackward(dfa, word, log, haltNode, table);
    sifted := table[..];
    SiftedIsPruned(dfa.c, word, log, sifted);
  }

  /** Match at one start position, and prune the state log if set_regs is going to read it. */
  method TryAt(re: Regex, str: seq<Byte>, p: nat, nmatch: nat)
      returns (fits: bool, matchLast: int, stateLog: seq<State?>)
    requires re.Valid() && p <= |str|
    modifies re.dfa`states, re.dfa.stateTable, re.dfa.states
    ensures re.Valid() && old(re.dfa.states) <= re.dfa.states && fresh(re.dfa.states - old(re.dfa.states))
    ensures fits <==> !Overflows(re.dfa.c, str[p..], nmatch != 0)
    ensures fits ==> MatchResult(re.dfa.c, str[p..], nmatch != 0, matchLast)
    ensures fits && matchLast >= 0 && nmatch > 1 && re.hasPluralMatch ==>
              Pruned(re.dfa.c, str[p..][..matchLast], stateLog)
  {
    hide Pruned, LogOk, Overflows, Dfa.TableOk, Dfa.TrtableOk, Compiled.Valid, Compiled.Fits;
    var input, log: array?<State?> := str[p..], null;
    stateLog := [];
    if nmatch > 1 {
      log := new State?[|input| + 1](_ => null);
    }
    fits, matchLast := CheckMatching(re.dfa, input, nmatch != 0, log);
    if fits && matchLast != -1 && nmatch > 1 {
      stateLog := log[..matchLast + 1];
      var word := input[..matchLast];
      LogOkOnWord(re.dfa.c, input, matchLast, log[..], stateLog);
      if re.hasPluralMatch {
        stateLog := PruneImpossibleNodes(re.dfa, word, stateLog);
      }
    }
  }

  lemma LogOkOnWord(c: Compiled, input: seq<Byte>, last: nat, log: seq<State?>, front: seq<State?>)
    requires c.Valid() && last <= |input| < |log| && LogOk(c, input, log, last + 1) && front == log[..last + 1]
    ensures LogOk(c, input[..last], front, last + 1)
  {
    forall i | 0 <= i <= last
      ensures Tracks(c, input[..last][..i], front[i])
    {
      assert input[..last][..i] == input[..i] && Tracks(c, input[..i], log[i]);
    }
  }

  lemma NoMatchHere(c: Compiled, str: seq<Byte>, p: nat, longest: bool)
    requires c.Valid() && p <= |str| && MatchResult(c, str[p..], longest, -1)
    ensures !MatchesAt(c, str, p)
  {
  }

  /** One iteration of the search loop: skip by the fastmap, then try to match. */
  method SearchStep(re: Regex, str: seq<Byte>, start: nat, range: int, nmatch: nat, from: nat)
      returns (matchFirst: int, done: bool, result: SearchResult, stateLog: seq<State?>)
    requires re.Valid() && start <= |str| && 0 <= start + range <= |str|
    requires InRange(start, range, from) && NoneBefore(re.dfa.c, str, start, range, from)
    requires SlotsBefore(re, str, start, range, nmatch != 0, from)
    modifies re.dfa`states, re.dfa.stateTable, re.dfa.states
    ensures re.Valid() && old(re.dfa.states) <= re.dfa.states && fresh(re.dfa.states - old(re.dfa.states))
    ensures done ==> SearchOk(re, str, start, range, nmatch != 0, result)
    ensures done && result.Match? && nmatch > 1 && re.hasPluralMatch ==>
              Pruned(re.dfa.c, str[result.first..][..result.last], stateLog)
    ensures !done ==> InRange(start, range, matchFirst)
    ensures !done ==> if range >= 0 then from <= matchFirst else matchFirst <= from
    ensures !done ==> NoneBefore(re.dfa.c, str, start, range, Behind(range, matchFirst))
    ensures !done ==> SlotsBefore(re, str, start, range, nmatch != 0, Behind(range, matchFirst))
  {
    hide Pruned, Overflows, Dfa.TableOk, Dfa.TrtableOk, Compiled.Valid, Compiled.Fits;
    matchFirst, done, result, stateLog := from, false, NoMatch, [];
    if re.fastmap != [] && range != 0 && !re.canBeNull {
      matchFirst, done := SkipByFastmap(re.dfa.c, re.fastmap, str, start, range, matchFirst);
      if done {
        return;
      }
    }
    var fits, matchLast;
    fits, matchLast, stateLog := TryAt(re, str, matchFirst, nmatch);
    if !fits {
      assert StopsAt(re, str, start, range, nmatch != 0, matchFirst);
      done, result := true, OutOfSlots;
    } else if matchLast != -1 {
      done, result := true, Match(matchFirst, matchLast);
    } else {
      NoMatchHere(re.dfa.c, str, matchFirst, nmatch != 0);
    }
  }

  /** The search loop of re_search_internal. */
  method SearchLoop(re: Regex, str: seq<Byte>, start: nat, range: int, nmatch: nat)
      returns (result: SearchResult, stateLog: seq<State?>)
    requires re.Valid() && start <= |str| && 0 <= start + range <= |str|
    modifies re.dfa`states, re.dfa.stateTable, re.dfa.states
    ensures re.Valid() && old(re.dfa.states) <= re.dfa.states && fresh(re.dfa.states - old(re.dfa.states))
    ensures SearchOk(re, str, start, range, nmatch != 0, result)
    ensures result.Match? && nmatch > 1 && re.hasPluralMatch ==>
              Pruned(re.dfa.c, str[result.first..][..result.last], stateLog)
  {
    hide Pruned, Overflows, Dfa.TableOk, Dfa.TrtableOk, Compiled.Valid, Compiled.Fits;
    var incr := if range < 0 then -1 else 1;
    var leftLim, rightLim := if range < 0 then start + range else start, if range < 0 then start else start + range;
    var matchFirst := start;
    while true
      invariant InRange(start, range, matchFirst)
      invariant re.Valid() && old(re.dfa.states) <= re.dfa.states && fresh(re.dfa.states - old(re.dfa.states))
      invariant NoneBefore(re.dfa.c, str, start, range, matchFirst)
      invariant SlotsBefore(re, str, start, range, nmatch != 0, matchFirst)
      decreases if range < 0 then matchFirst - leftLim else rightLim - matchFirst
    {
      var done;
      matchFirst, done, result, stateLog := SearchStep(re, str, start, range, nmatch, matchFirst);
      if done {
        return;
      }
      matchFirst := matchFirst + incr;
      if matchFirst < leftLim || rightLim < matchFirst {
        return NoMatch, [];
      }
    }
  }

  /** re_search_internal without set_regs, which would stand between the two steps of filling `pmatch`
      and read `stateLog`. */
  method ReSearchInternal(re: Regex, str: seq<Byte>, start: nat, range: int, nmatch: nat, pmatch: array<(int, int)>)
      returns (result: SearchResult, stateLog: seq<State?>)
    requires re.Valid() && start <= |str| && 0 <= start + range <= |str| && pmatch.Length >= nmatch
    modifies re.dfa`states, re.dfa.stateTable, re.dfa.states, pmatch
    ensures re.Valid() && old(re.dfa.states) <= re.dfa.states && fresh(re.dfa.states - old(re.dfa.states))
    ensures SearchOk(re, str, start, range, nmatch != 0, result)
    ensures result.Match? && nmatch > 0 ==> pmatch[0] == (result.first, result.first + result.last)
    ensures result.Match? && nmatch > 1 && re.hasPluralMatch ==>
              Pruned(re.dfa.c, str[result.first..][..result.last], stateLog)
  {
    hide SearchOk, Pruned, Dfa.TableOk, Dfa.TrtableOk, Compiled.Valid, Compiled.Fits;
    result, stateLog := SearchLoop(re, str, start, range, nmatch);
    if result.Match? && nmatch > 0 {
      SetWholeMatch(pmatch, nmatch, result.last);
      ShiftRegisters(pmatch, nmatch, result.first);
    }
  }

  /** Where set_regs starts: the whole match, relative to its own start, and no other register. */
  method SetWholeMatch(pmatch: array<(int, int)>, nmatch: nat, last: nat)
    requires 0 < nmatch <= pmatch.Length
    modifies pmatch
    ensures pmatch[0] == (0, last)
    ensures forall i :: 1 <= i < nmatch ==> pmatch[i] == (-1, -1)
    ensures forall i :: nmatch <= i < pmatch.Length ==> pmatch[i] == old(pmatch[i])
  {
    for regIdx := 0 to nmatch
      invariant forall i :: 0 <= i < regIdx ==> pmatch[i] == (-1, -1)
      invariant forall i :: nmatch <= i < pmatch.Length ==> pmatch[i] == old(pmatch[i])
    {
      pmatch[regIdx] := (-1, -1);
    }
    pmatch[0] := (0, last);
  }

  /** The registers that are set become positions in the whole string. */
  method ShiftRegisters(pmatch: array<(int, int)>, nmatch: nat, first: nat)
    requires nmatch <= pmatch.Length
    modifies pmatch
    ensures forall i :: 0 <= i < nmatch && old(pmatch[i].0) != -1 ==>
              pmatch[i] == (old(pmatch[i].0) + first, old(pmatch[i].1) + first)
    ensures forall i :: 0 <= i < nmatch && old(pmatch[i].0) == -1 ==> pmatch[i] == old(pmatch[i])
    ensures forall i :: nmatch <= i < pmatch.Length ==> pmatch[i] == old(pmatch[i])
  {
    for regIdx := 0 to nmatch
      invariant forall i :: 0 <= i < regIdx && old(pmatch[i].0) != -1 ==>
                  pmatch[i] == (old(pmatch[i].0) + first, old(pmatch[i].1) + first)
      invariant forall i :: 0 <= i < regIdx && old(pmatch[i].0) == -1 ==> pmatch[i] == old(pmatch[i])
      invariant forall i :: regIdx <= i < pmatch.Length ==> pmatch[i] == old(pmatch[i])
    {
      if pmatch[regIdx].0 != -1 {
        pmatch[regIdx] := (pmatch[regIdx].0 + first, pmatch[regIdx].1 + first);
      }
    }
  }
}
