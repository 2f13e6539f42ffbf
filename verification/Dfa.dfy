/** The lazily built DFA: a hash-consed table of states whose transition tables are filled on demand. */
module DfaCache {
  import opened Language
  import opened NfaModel
  import opened NodeSets
  import opened Closure
  import opened Partition

  const UINT_RANGE := 0x1_0000_0000

  /** What compilation leaves in `re_dfa_t` besides the DFA states. */
  datatype Compiled = Compiled(nfa: Nfa, eclosures: seq<seq<int>>, inveclosures: seq<seq<int>>, first: int, eor: int) {
    /** Edges lead from the first node to `n`, be there bytes to read on the way or not. */
    ghost predicate Live(n: int)
      requires nfa.Shape()
    {
      forall S: set<int> :: Closed(nfa, S) && first in S ==> n in S
    }

    ghost predicate Valid() {
      && nfa.Shape() && |eclosures| == |nfa.nodes|
      && (forall n :: Live(n) ==> nfa.Has(n) && (nfa.nodes[n] == EndOfRe <==> n == eor))
      && (forall n :: 0 <= n < |eclosures| ==> IsClosure(nfa, n, eclosures[n]))
      && IsConverse(eclosures, inveclosures)
    }

    /** The groups of the nodes that are reached by reading `w` fit into the 256 slots of build_trtable. */
    ghost predicate Fits(w: seq<Byte>)
      requires nfa.Shape()
    {
      forall S :: ReachedBy(w, S) ==> SlotsFor(nfa, S) <= SBC_MAX
    }

    /** They fit whatever has been read. */
    ghost predicate Roomy()
      requires nfa.Shape()
    {
      forall w :: Fits(w)
    }

    /** `S` holds the nodes that are reached by reading `w`. */
    ghost predicate ReachedBy(w: seq<Byte>, S: set<int>)
      requires nfa.Shape()
    {
      forall m :: m in S <==> Path(nfa, first, w, m)
    }

    ghost predicate SlotsFit(nodes: seq<int>)
      requires nfa.Shape()
    {
      GroupCount(nfa, nodes) <= SBC_MAX
    }

    ghost predicate AllLive(nodes: seq<int>)
      requires nfa.Shape()
    {
      forall n :: n in nodes ==> Live(n)
    }

    /** It is enough to count the slots for all the nodes together. */
    lemma FewSlotsIsRoomy()
      requires Valid() && FewSlots(nfa)
      ensures Roomy()
    {
      forall w, S | ReachedBy(w, S)
        ensures SlotsFor(nfa, S) <= SBC_MAX
      {
        forall m | m in S
          ensures m in AllNodes(nfa)
        {
          PathIsLive(w, m);
        }
        SlotsGrow(nfa, S, AllNodes(nfa));
      }
    }

    /** The nodes that are reached by reading `w` are these. */
    lemma ReachedByIsUnique(w: seq<Byte>, S: set<int>)
      requires Valid() && ReachedBy(w, S)
      ensures Fits(w) <==> SlotsFor(nfa, S) <= SBC_MAX
    {
      forall T | ReachedBy(w, T)
        ensures T == S
      {
        assert forall m :: m in T <==> m in S;
      }
    }

    lemma FirstIsLive()
      requires Valid()
      ensures Live(first) && nfa.Has(first)
    {
    }

    lemma PathIsLive(w: seq<Byte>, n: int)
      requires Valid() && Path(nfa, first, w, n)
      ensures Live(n) && nfa.Has(n)
    {
      FirstIsLive();
      LiveAhead(first, w, n);
    }

    lemma LiveAhead(n: int, w: seq<Byte>, m: int)
      requires Valid() && Live(n) && Path(nfa, n, w, m)
      ensures Live(m)
    {
      forall S: set<int> | Closed(nfa, S) && first in S
        ensures m in S
      {
        var k: nat :| Steps(nfa, n, w, m, k);
        StepsStayInside(nfa, S, n, w, m, k);
      }
    }

    /** What a live node leads to is live. */
    lemma ClosureIsLive(n: int, m: int)
      requires Valid() && Live(n) && Path(nfa, n, [], m)
      ensures Live(m)
    {
      LiveAhead(n, [], m);
    }

    lemma ClosureOfFirst()
      requires Valid() && nfa.Has(first)
      ensures IsClosure(nfa, first, eclosures[first]) && Sorted(eclosures[first]) && eclosures[first] != []
      ensures AllLive(eclosures[first])
    {
      FirstIsLive();
      PathHere(nfa, first);
      forall n | n in eclosures[first]
        ensures Live(n)
      {
        ClosureIsLive(first, n);
      }
    }

    lemma NextIsLive(n: int)
      requires Valid() && Live(n) && Consumes(nfa, n)
      ensures Live(nfa.nexts[n]) && nfa.Has(nfa.nexts[n])
    {
      forall S: set<int> | Closed(nfa, S) && first in S
        ensures nfa.nexts[n] in S
      {
        assert EdgesInside(nfa, n, S);
      }
    }

    /** Reading `c` at one of `nodes` leads to `m`. */
    ghost predicate StepTo(nodes: seq<int>, c: Byte, m: int)
      requires nfa.Shape()
    {
      exists p :: p in nodes && Reads(nfa, p, c) && Path(nfa, nfa.nexts[p], [], m)
    }

    /** The state `t`, NULL when no node reads `c`, is where `nodes` go on `c`. */
    ghost predicate IsStep(nodes: seq<int>, c: Byte, t: State?)
      requires nfa.Shape()
    {
      && (t == null ==> forall p :: p in nodes ==> !Reads(nfa, p, c))
      && (t != null ==>
            t.nodes != [] && Sorted(t.nodes) && Once(nfa, t.nodes) && forall m :: m in t.nodes <==> StepTo(nodes, c, m))
    }
  }

  /** re_dfastate_t; an empty `trtable` stands for the NULL pointer. */
  class State {
    const hash: nat
    const nodes: seq<int>
    const halt: bool
    var trtable: seq<State?>

    constructor (hash: nat, nodes: seq<int>, halt: bool)
      ensures this.hash == hash && this.nodes == nodes && this.halt == halt && this.trtable == []
    {
      this.hash, this.nodes, this.halt, this.trtable := hash, nodes, halt, [];
    }
  }

  /** calc_state_hash with context 0 */
  function StateHash(nodes: seq<int>): nat {
    (|nodes| + Sum(nodes)) % UINT_RANGE
  }

  function Sum(s: seq<int>): int {
    if s == [] then 0 else Sum(s[..|s| - 1]) + s[|s| - 1]
  }

  /** The hash adds each node and one for it, modulo 2^32. */
  lemma StateHashMeans(nodes: seq<int>, n: int)
    ensures StateHash([]) == 0
    ensures StateHash(nodes + [n]) == (StateHash(nodes) + n + 1) % 0x1_0000_0000
  {
    assert (nodes + [n])[..|nodes|] == nodes;
  }

  method CalcStateHash(nodes: seq<int>) returns (hash: nat)
    ensures hash == StateHash(nodes)
  {
    hash := |nodes| % UINT_RANGE;
    for i := 0 to |nodes|
      invariant hash == (|nodes| + Sum(nodes[..i])) % UINT_RANGE
    {
      assert nodes[..i + 1][..i] == nodes[..i];
      hash := (hash + nodes[i]) % UINT_RANGE;
    }
    assert nodes[..|nodes|] == nodes;
  }

  class Dfa {
    const c: Compiled
    const stateTable: array<seq<State>>
    var initState: State?
    ghost var states: set<State>

    ghost predicate StateOk(s: State)
      requires c.Valid()
    {
      && s.nodes != [] && Sorted(s.nodes) && c.AllLive(s.nodes)
      && s.hash == StateHash(s.nodes) && (s.halt <==> c.eor in s.nodes)
    }

    /** Every entry of a transition table that was built is right, and it is built only if the groups fit. */
    ghost predicate TrtableOk(s: State)
      requires c.Valid()
      reads `states, s
    {
      s.trtable == [] ||
      (&& |s.trtable| == SBC_MAX && c.SlotsFit(s.nodes)
       && forall b: Byte :: EntryOk(s, b, s.trtable[b]))
    }

    ghost predicate EntryOk(s: State, b: Byte, t: State?)
      requires c.Valid()
      reads `states
    {
      (t != null ==> t in states) && c.IsStep(s.nodes, b, t)
    }

    /** The buckets hold exactly the states, and no two states have the same nodes. */
    ghost predicate TableOk()
      requires c.Valid()
      reads `states, stateTable
    {
      && stateTable.Length > 0
      && (forall k, s :: 0 <= k < stateTable.Length && s in stateTable[k] ==>
          s in states && s.hash % stateTable.Length == k)
      && (forall s :: s in states ==> StateOk(s) && s in stateTable[s.hash % stateTable.Length])
      && (forall s, t :: s in states && t in states && s.nodes == t.nodes ==> s == t)
    }

    ghost predicate ValidTable()
      reads this, stateTable, states
    {
      c.Valid() && TableOk() && forall s :: s in states ==> TrtableOk(s)
    }

    ghost predicate Valid()
      reads this, stateTable, states
    {
      ValidTable() && initState != null && initState in states && IsClosure(c.nfa, c.first, initState.nodes)
    }

    /** init_dfa, with the hash mask plus one as table size, and create_initial_state */
    constructor (c: Compiled, tableSize: nat)
      requires c.Valid() && tableSize > 0
      ensures Valid() && this.c == c && fresh(stateTable) && fresh(states) && stateTable.Length == tableSize
    {
      hide Compiled.Valid, TrtableOk;
      this.c := c;
      stateTable := new seq<State>[tableSize](_ => []);
      initState := null;
      states := {};
      new;
      CreateInitialState();
    }

    /** create_initial_state */
    method CreateInitialState()
      requires ValidTable()
      modifies `initState, `states, stateTable
      ensures Valid() && fresh(states - old(states))
    {
      hide TrtableOk, TableOk;
      c.FirstIsLive();
      c.ClosureOfFirst();
      hide Compiled.Valid, IsClosure;
      initState := AcquireState(c.eclosures[c.first]);
    }

    /** re_acquire_state, and re_acquire_state_context with context 0 */
    method AcquireState(nodes: seq<int>) returns (s: State?)
      requires ValidTable() && Sorted(nodes) && c.AllLive(nodes)
      modifies `states, stateTable
      ensures ValidTable()
      ensures nodes == [] <==> s == null
      ensures s == null ==> states == old(states)
      ensures s != null ==> s.nodes == nodes && s in states && states == old(states) + {s}
      ensures s != null && s !in old(states) ==> fresh(s)
    {
      hide Compiled.Roomy, TableOk, Compiled.Valid, TrtableOk;
      if |nodes| == 0 {
        return null;
      }
      var hash := CalcStateHash(nodes);
      s := Lookup(nodes, hash);
      if s == null {
        s := CreateNewState(nodes, hash);
      } else {
        assert states == states + {s};
      }
    }

    /** Search the bucket for a state with these nodes. */
    method Lookup(nodes: seq<int>, hash: nat) returns (s: State?)
      requires ValidTable() && hash == StateHash(nodes)
      ensures s != null ==> s in states && s.nodes == nodes
      ensures s == null ==> forall t :: t in states ==> t.nodes != nodes
    {
      hide TrtableOk, Compiled.Valid, Compiled.Fits, IsClosure, GroupCount;
      var spot := stateTable[hash % stateTable.Length];
      for i := 0 to |spot|
        invariant forall k :: 0 <= k < i ==> spot[k].nodes != nodes
      {
        assert spot[i] in spot && StateOk(spot[i]);
        if hash == spot[i].hash {
          var same := Compare(spot[i].nodes, nodes);
          if same {
            return spot[i];
          }
        }
      }
      forall t | t in states
        ensures t.nodes != nodes
      {
        assert StateOk(t) && t in stateTable[t.hash % stateTable.Length];
      }
      s := null;
    }

    /** create_ci_newstate and register_state */
    method CreateNewState(nodes: seq<int>, hash: nat) returns (s: State)
      requires ValidTable() && Sorted(nodes) && nodes != [] && c.AllLive(nodes) && hash == StateHash(nodes)
      requires forall t :: t in states ==> t.nodes != nodes
      modifies `states, stateTable
      ensures ValidTable() && fresh(s) && s.nodes == nodes && states == old(states) + {s}
    {
      hide Compiled.Roomy, Compiled.Fits, Compiled.SlotsFit, Compiled.IsStep, IsClosure, IsConverse;
      var halt := false;
      for i := 0 to |nodes|
        invariant halt <==> c.eor in nodes[..i]
      {
        assert nodes[i] in nodes && nodes[..i + 1] == nodes[..i] + [nodes[i]];
        if c.nfa.nodes[nodes[i]] == EndOfRe {
          halt := true;
        }
      }
      assert nodes[..|nodes|] == nodes;
      s := new State(hash, nodes, halt);
      var spot := hash % stateTable.Length;
      stateTable[spot] := stateTable[spot] + [s];
      states := states + {s};
      forall t | t in old(states)
        ensures TrtableOk(t)
      {
        assert old(TrtableOk(t));
      }
    }

    /** The nodes that the nodes of one destination group lead to. */
    method Follows(nodes: seq<int>) returns (follows: seq<int>)
      requires c.Valid() && nodes != [] && forall p :: p in nodes ==> NextOk(p)
      ensures Sorted(follows) && Once(c.nfa, follows) && follows != [] && c.AllLive(follows)
      ensures forall m :: m in follows <==> Leads(nodes, m)
    {
      hide Sorted, Merged, Compiled.Roomy, IsConverse;
      var merged := new NodeSet(|nodes| + 1);
      for j := 0 to |nodes|
        invariant merged.Valid() && fresh(merged) && fresh(merged.elems)
        invariant Once(c.nfa, merged.Contents()) && (j > 0 ==> merged.Contents() != [])
        invariant forall m :: m in merged.Contents() <==> Leads(nodes[..j], m)
      {
        assert nodes[j] in nodes && NextOk(nodes[j]);
        assert nodes[..j + 1] == nodes[..j] + [nodes[j]];
        var nextNode := c.nfa.nexts[nodes[j]];
        if nextNode != -1 {
          MergedIsUnion(merged.Contents(), c.eclosures[nextNode]);
          MergedOnce(c.nfa, merged.Contents(), c.eclosures[nextNode]);
          PathHere(c.nfa, nextNode);
          merged.Merge(c.eclosures[nextNode]);
        }
      }
      assert nodes[..|nodes|] == nodes;
      follows := merged.elems[..merged.nelem];
      forall m | m in follows
        ensures c.Live(m)
      {
        var p :| p in nodes && c.nfa.Has(p) && Path(c.nfa, c.nfa.nexts[p], [], m);
        assert NextOk(p);
        c.ClosureIsLive(c.nfa.nexts[p], m);
      }
    }

    ghost predicate NextOk(p: int)
      requires c.Valid()
    {
      c.nfa.Has(p) && c.Live(c.nfa.nexts[p]) && c.nfa.Has(c.nfa.nexts[p])
    }

    /** One of `nodes` has a next node that reaches `m` by epsilon edges. */
    ghost predicate Leads(nodes: seq<int>, m: int)
      requires c.Valid() && forall p :: p in nodes ==> NextOk(p)
    {
      exists p :: p in nodes && c.nfa.Has(p) && Path(c.nfa, c.nfa.nexts[p], [], m)
    }

    /** All bytes of a destination group lead to the same nodes. */
    lemma GroupLeads(nodes: seq<int>, g: Group)
      requires c.Valid() && c.AllLive(nodes) && GroupOk(c.nfa, Elements(nodes), g)
      ensures g.nodes != [] && forall p :: p in g.nodes ==> NextOk(p)
      ensures forall b: Byte, m :: b in g.ch ==> (c.StepTo(nodes, b, m) <==> Leads(g.nodes, m))
    {
      forall p | p in g.nodes
        ensures NextOk(p)
      {
        assert p in Elements(nodes) && Consumes(c.nfa, p);
        c.NextIsLive(p);
      }
    }

    /** The destination state of a group. */
    ghost predicate DestOk(state: State, g: Group, t: State?)
      requires c.Valid()
      reads `states
    {
      t != null && forall b: Byte :: b in g.ch ==> EntryOk(state, b, t)
    }

    /** build_trtable without the search flag; it has 256 slots for destination groups. */
    method BuildTrtable(state: State) returns (fits: bool, trtable: seq<State?>)
      requires Valid() && state in states
      modifies `states, stateTable
      ensures Valid() && old(states) <= states && fresh(states - old(states))
      ensures fits <==> c.SlotsFit(state.nodes)
      ensures fits ==> |trtable| == SBC_MAX && forall b: Byte :: EntryOk(state, b, trtable[b])
    {
      hide Partitioned, GroupCount, Compiled.Roomy, TrtableOk, EntryOk, DestOk, InSomeGroup;
      var destsNode := new seq<int>[SBC_MAX](_ => []);
      var destsCh := new set<Byte>[SBC_MAX](_ => {});
      assert StateOk(state);
      forall n | n in state.nodes
        ensures c.nfa.Has(n)
      {
        assert c.Live(n);
      }
      var ndests;
      trtable := [];
      fits, ndests := GroupNodesIntoDFAstates(c.nfa, state.nodes, destsNode, destsCh);
      if !fits {
        return;
      }
      ghost var groups := View(destsNode, destsCh, ndests);
      var destStates, acceptable := BuildDestStates(state, destsNode[..ndests], destsCh[..ndests], groups);
      trtable := FillTable(state, destsCh[..ndests], destStates, acceptable, groups);
    }

    /** The second phase of build_trtable: a state for every group, and all the bytes they accept. */
    method BuildDestStates(state: State, destsNode: seq<seq<int>>, destsCh: seq<set<Byte>>, ghost groups: seq<Group>)
        returns (destStates: seq<State?>, acceptable: set<Byte>)
      requires Valid() && state in states
      requires Partitioned(c.nfa, Elements(state.nodes), groups)
      requires |groups| == |destsNode| == |destsCh|
      requires forall j :: 0 <= j < |groups| ==> groups[j] == Group(destsCh[j], destsNode[j])
      modifies `states, stateTable
      ensures Valid() && old(states) <= states && fresh(states - old(states))
      ensures |destStates| == |groups| && forall k :: 0 <= k < |groups| ==> DestOk(state, groups[k], destStates[k])
      ensures forall b: Byte :: b in acceptable <==> InSomeGroup(groups, b)
    {
      hide Compiled.Roomy, TableOk, TrtableOk, Compiled.Valid;
      destStates, acceptable := [], {};
      for i := 0 to |destsNode|
        invariant Valid() && old(states) <= states && fresh(states - old(states))
        invariant |destStates| == i
        invariant forall k :: 0 <= k < i ==> DestOk(state, groups[k], destStates[k])
        invariant forall b: Byte :: b in acceptable <==> exists k :: 0 <= k < i && b in groups[k].ch
      {
        var dest := BuildDest(state, destsNode[i], groups, i);
        destStates := destStates + [dest];
        acceptable := acceptable + destsCh[i];
      }
    }

    method BuildDest(state: State, nodes: seq<int>, ghost groups: seq<Group>, ghost i: nat) returns (dest: State?)
      requires Valid() && state in states
      requires Partitioned(c.nfa, Elements(state.nodes), groups)
      requires i < |groups| && groups[i].nodes == nodes
      modifies `states, stateTable
      ensures Valid() && old(states) <= states && fresh(states - old(states))
      ensures DestOk(state, groups[i], dest)
    {
      hide Compiled.Roomy, TrtableOk;
      assert StateOk(state);
      GroupLeads(state.nodes, groups[i]);
      var follows := Follows(nodes);
      dest := AcquireState(follows);
    }

    /** The last phase of build_trtable: the table entry of every byte that some group accepts. */
    method FillTable(state: State, destsCh: seq<set<Byte>>, destStates: seq<State?>, acceptable: set<Byte>,
                     ghost groups: seq<Group>)
        returns (trtable: seq<State?>)
      requires Valid() && state in states
      requires Partitioned(c.nfa, Elements(state.nodes), groups)
      requires |groups| == |destsCh| == |destStates|
      requires forall j :: 0 <= j < |groups| ==> groups[j].ch == destsCh[j] && DestOk(state, groups[j], destStates[j])
      requires forall b: Byte :: b in acceptable <==> InSomeGroup(groups, b)
      ensures |trtable| == SBC_MAX && forall b: Byte :: EntryOk(state, b, trtable[b])
    {
      hide Compiled.Roomy, TableOk, TrtableOk;
      var table := new State?[SBC_MAX](_ => null);
      for ch := 0 to SBC_MAX
        invariant forall b: Byte :: b < ch ==> EntryOk(state, b, table[b])
        invariant forall b: Byte :: b >= ch ==> table[b] == null
      {
        if ch in acceptable {
          var k := FindGroup(destsCh, ch);
          assert InSomeGroup(groups, ch);
          table[ch] := destStates[k];
        } else {
          forall p | p in state.nodes
            ensures !Reads(c.nfa, p, ch)
          {
            assert p in Elements(state.nodes);
          }
        }
      }
      trtable := table[..];
    }

    method FindGroup(destsCh: seq<set<Byte>>, ch: Byte) returns (k: nat)
      ensures k <= |destsCh| && (k < |destsCh| ==> ch in destsCh[k])
      ensures forall l :: 0 <= l < k ==> ch !in destsCh[l]
    {
      k := 0;
      while k < |destsCh|
        invariant k <= |destsCh| && forall l :: 0 <= l < k ==> ch !in destsCh[l]
      {
        if ch in destsCh[k] {
          break;
        }
        k := k + 1;
      }
    }

    /** transit_state without a state log: the next state, from a table that is built if it is missing. */
    method TransitState(state: State, ch: Byte) returns (fits: bool, next: State?)
      requires Valid() && state in states
      modifies `states, stateTable, states
      ensures Valid() && old(states) <= states && fresh(states - old(states))
      ensures fits <==> c.SlotsFit(state.nodes)
      ensures fits && next != null ==> next in states && (next.halt <==> c.eor in next.nodes)
      ensures fits ==> c.IsStep(state.nodes, ch, next)
      ensures fits ==> |state.trtable| == SBC_MAX && state.trtable[ch] == next
    {
      hide Compiled.Roomy, Compiled.IsStep, Compiled.Valid, Compiled.SlotsFit, TableOk;
      fits, next := true, null;
      if state.trtable == [] {
        var trtable;
        fits, trtable := BuildTrtable(state);
        if !fits {
          return;
        }
        state.trtable := trtable;
        assert forall s :: s in states && s != state ==> TrtableOk(s);
      }
      assert TrtableOk(state) && EntryOk(state, ch, state.trtable[ch]);
      next := state.trtable[ch];
      if next != null {
        HaltIsRight(next);
      }
    }

    lemma HaltIsRight(s: State)
      requires Valid() && s in states
      ensures s.halt <==> c.eor in s.nodes
    {
      assert StateOk(s);
    }
  }
}
