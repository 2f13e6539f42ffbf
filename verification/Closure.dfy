/** calc_eclosure and calc_inveclosure: epsilon closures on graphs that may have epsilon cycles. */
module Closure {
  import opened Language
  import opened NfaModel
  import opened NodeSets

  /** An entry of `dfa->eclosures`: `nelem` is 0 before it is computed, -1 while it is being computed. */
  datatype Entry = Pending | InProgress | Done(elems: seq<int>)

  ghost predicate EdgesInRange(nfa: Nfa) {
    && nfa.Shape()
    && forall n, e :: 0 <= n < |nfa.nodes| && nfa.nodes[n].IsEpsilon() && e in nfa.edests[n] ==> 0 <= e < |nfa.nodes|
  }

  /** `elems` lists exactly the nodes that `n` reaches by epsilon edges. */
  ghost predicate IsClosure(nfa: Nfa, n: int, elems: seq<int>)
    requires nfa.Shape()
  {
    Sorted(elems) && Once(nfa, elems) && forall m :: m in elems <==> Path(nfa, n, [], m)
  }

  /** The set is closed under the epsilon edges. */
  ghost predicate EpsilonClosed(nfa: Nfa, S: set<int>)
    requires nfa.Shape()
  {
    forall m, e :: m in S && nfa.Has(m) && nfa.nodes[m].IsEpsilon() && e in nfa.edests[m] ==> e in S
  }

  /** A closure is the least set that holds the node and is closed under the epsilon edges. */
  lemma ClosureIsLeast(nfa: Nfa, n: int, elems: seq<int>)
    requires nfa.Shape() && IsClosure(nfa, n, elems)
    ensures n in elems && EpsilonClosed(nfa, set m | m in elems)
    ensures forall S :: n in S && EpsilonClosed(nfa, S) ==> forall m :: m in elems ==> m in S
  {
    PathHere(nfa, n);
    forall m, e | m in elems && nfa.Has(m) && nfa.nodes[m].IsEpsilon() && e in nfa.edests[m]
      ensures e in elems
    {
      PathHere(nfa, e);
      EpsilonStep(nfa, m, e, [], e);
      var none: seq<Byte> := [];
      PathJoin(nfa, n, none, m, none, e);
      assert none + none == none;
    }
    forall S, m | n in S && EpsilonClosed(nfa, S) && m in elems
      ensures m in S
    {
      var k: nat :| Steps(nfa, n, [], m, k);
      StepsInside(nfa, S, n, m, k);
    }
  }

  lemma {:induction false} StepsInside(nfa: Nfa, S: set<int>, n: int, m: int, k: nat)
    requires nfa.Shape() && n in S && EpsilonClosed(nfa, S) && Steps(nfa, n, [], m, k)
    ensures m in S
    decreases k
  {
    if k > 0 {
      var e :| e in nfa.edests[n] && Steps(nfa, e, [], m, k - 1);
      StepsInside(nfa, S, e, m, k - 1);
    }
  }

  /** Only nodes with epsilon edges may be listed twice; re_node_set_insert does not look for them. */
  ghost predicate Once(nfa: Nfa, nodes: seq<int>) {
    forall i, j :: 0 <= i < j < |nodes| && nodes[i] == nodes[j] ==> nfa.Has(nodes[i]) && nfa.nodes[nodes[i]].IsEpsilon()
  }

  lemma OnceCons(nfa: Nfa, x: int, rest: seq<int>)
    requires Once(nfa, rest) && (x in rest ==> nfa.Has(x) && nfa.nodes[x].IsEpsilon())
    ensures Once(nfa, [x] + rest)
  {
  }

  lemma OnceTail(nfa: Nfa, s: seq<int>)
    requires Once(nfa, s) && s != []
    ensures Once(nfa, s[1..]) && (s[0] in s[1..] ==> nfa.Has(s[0]) && nfa.nodes[s[0]].IsEpsilon())
  {
  }

  lemma {:induction false} MergedOnce(nfa: Nfa, d: seq<int>, s: seq<int>)
    requires Sorted(d) && Sorted(s) && Once(nfa, d) && Once(nfa, s)
    ensures Once(nfa, Merged(d, s))
  {
    if d != [] && s != [] {
      hide Once;
      OnceTail(nfa, d);
      OnceTail(nfa, s);
      var x := if d[0] <= s[0] then d[0] else s[0];
      var d', s' := if d[0] <= s[0] then d[1..] else d, if s[0] <= d[0] then s[1..] else s;
      MergedOnce(nfa, d', s');
      MergedIsUnion(d', s');
      OnceCons(nfa, x, Merged(d', s'));
    }
  }

  lemma InsertOnce(nfa: Nfa, s: seq<int>, x: int, i: nat)
    requires Once(nfa, s) && i <= |s| && (s != [] ==> nfa.Has(x) && nfa.nodes[x].IsEpsilon())
    ensures Once(nfa, InsertedAt(s, x, i))
  {
    var r := InsertedAt(s, x, i);
    assert forall k :: 0 <= k < |r| ==> r[k] == if k < i then s[k] else if k == i then x else s[k - 1];
  }

  /** `k` epsilon edges lead from `n` to `m`, and none of the nodes on the way is in `S`. */
  ghost predicate Avoiding(nfa: Nfa, S: set<int>, n: int, m: int, k: nat)
    requires nfa.Shape()
    decreases k
  {
    n !in S &&
    if k == 0 then n == m
    else nfa.Has(n) && nfa.nodes[n].IsEpsilon() && exists e :: e in nfa.edests[n] && Avoiding(nfa, S, e, m, k - 1)
  }

  ghost predicate ReachAvoiding(nfa: Nfa, S: set<int>, n: int, m: int)
    requires nfa.Shape()
  {
    exists k: nat :: Avoiding(nfa, S, n, m, k)
  }

  lemma {:induction false} AvoidingNothingIsSteps(nfa: Nfa, n: int, m: int, k: nat)
    requires nfa.Shape()
    ensures Avoiding(nfa, {}, n, m, k) <==> Steps(nfa, n, [], m, k)
    decreases k
  {
    if k > 0 && nfa.Has(n) {
      forall e | e in nfa.edests[n]
        ensures Avoiding(nfa, {}, e, m, k - 1) <==> Steps(nfa, e, [], m, k - 1)
      {
        AvoidingNothingIsSteps(nfa, e, m, k - 1);
      }
    }
  }

  lemma AvoidingNothing(nfa: Nfa, n: int, m: int)
    requires nfa.Shape()
    ensures ReachAvoiding(nfa, {}, n, m) <==> Path(nfa, n, [], m)
  {
    if ReachAvoiding(nfa, {}, n, m) {
      var k: nat :| Avoiding(nfa, {}, n, m, k);
      AvoidingNothingIsSteps(nfa, n, m, k);
    }
    if Path(nfa, n, [], m) {
      var k: nat :| Steps(nfa, n, [], m, k);
      AvoidingNothingIsSteps(nfa, n, m, k);
    }
  }

  /** A path either avoids `x` too or gives a path from `x` that is not longer. */
  lemma {:induction false} AvoidOrVisit(nfa: Nfa, S: set<int>, x: int, n: int, m: int, k: nat) returns (j: nat)
    requires nfa.Shape() && Avoiding(nfa, S, n, m, k)
    ensures j <= k && (Avoiding(nfa, S + {x}, n, m, k) || Avoiding(nfa, S, x, m, j))
    decreases k
  {
    j := k;
    if n != x && k > 0 {
      var e :| e in nfa.edests[n] && Avoiding(nfa, S, e, m, k - 1);
      j := AvoidOrVisit(nfa, S, x, e, m, k - 1);
    }
  }

  /** Cycles through `n` can be cut off: past the first edge, a path need not come back to `n`. */
  lemma {:induction false} LeaveForGood(nfa: Nfa, S: set<int>, n: int, m: int, k: nat)
    requires nfa.Shape() && Avoiding(nfa, S, n, m, k) && n != m
    ensures nfa.Has(n) && nfa.nodes[n].IsEpsilon()
    ensures exists e :: e in nfa.edests[n] && ReachAvoiding(nfa, S + {n}, e, m)
    decreases k
  {
    var e :| e in nfa.edests[n] && Avoiding(nfa, S, e, m, k - 1);
    var j := AvoidOrVisit(nfa, S, n, e, m, k - 1);
    if !Avoiding(nfa, S + {n}, e, m, k - 1) {
      LeaveForGood(nfa, S, n, m, j);
    }
  }

  /** The nodes whose closures are being computed are those of `S`; finished closures are right. */
  ghost predicate TableOk(nfa: Nfa, table: seq<Entry>, S: set<int>)
    requires nfa.Shape()
  {
    && |table| == |nfa.nodes|
    && (forall n :: 0 <= n < |table| ==> (table[n].InProgress? <==> n in S))
    && (forall n :: 0 <= n < |table| && table[n].Done? ==> IsClosure(nfa, n, table[n].elems))
  }

  /** What the table says of one node. */
  lemma TableEntry(nfa: Nfa, table: seq<Entry>, S: set<int>, n: nat)
    requires nfa.Shape() && TableOk(nfa, table, S) && n < |table|
    ensures |table| == |nfa.nodes| && (table[n].InProgress? <==> n in S)
    ensures table[n].Done? ==> IsClosure(nfa, n, table[n].elems)
  {
  }

  lemma TableStarts(nfa: Nfa, table: seq<Entry>, S: set<int>, n: nat)
    requires nfa.Shape() && TableOk(nfa, table, S) && n < |table| && table[n] == Pending
    ensures TableOk(nfa, table[n := InProgress], S + {n})
  {
  }

  lemma TableSettles(nfa: Nfa, table: seq<Entry>, S: set<int>, n: nat, entry: Entry)
    requires nfa.Shape() && TableOk(nfa, table, S + {n}) && n < |table| && n !in S
    requires entry != InProgress && (entry.Done? ==> IsClosure(nfa, n, entry.elems))
    ensures TableOk(nfa, table[n := entry], S)
  {
  }

  /** Finished entries stay as they are. */
  ghost predicate KeepsDone(before: seq<Entry>, after: seq<Entry>) {
    |before| == |after| && forall n :: 0 <= n < |before| && before[n].Done? ==> after[n] == before[n]
  }

  /** The sandwich around a possibly incomplete closure of `n`. */
  ghost predicate Sandwich(nfa: Nfa, S: set<int>, n: int, elems: seq<int>)
    requires nfa.Shape()
  {
    && (forall m :: ReachAvoiding(nfa, S, n, m) ==> m in elems)
    && (forall m :: m in elems ==> Path(nfa, n, [], m))
  }

  ghost function Indices(n: nat): (r: set<int>)
    ensures forall i :: i in r <==> 0 <= i < n
  {
    if n == 0 then {} else Indices(n - 1) + {n - 1}
  }

  /** What has been gathered from the first `i` epsilon edges of `node`. */
  ghost predicate Gathered(nfa: Nfa, S: set<int>, node: nat, i: nat, elems: seq<int>, incomplete: bool)
    requires nfa.Shape() && node < |nfa.nodes| && i <= |nfa.edests[node]|
  {
    && Sorted(elems) && Once(nfa, elems)
    && (forall m :: m in elems ==> Path(nfa, node, [], m))
    && (forall j, m :: 0 <= j < i && ReachAvoiding(nfa, S + {node}, nfa.edests[node][j], m) ==> m in elems)
    && (!incomplete ==> forall j, m :: 0 <= j < i && Path(nfa, nfa.edests[node][j], [], m) ==> m in elems)
  }

  /** Merging the result for one more edge. */
  lemma GatherOne(nfa: Nfa, S: set<int>, node: nat, i: nat, elems: seq<int>, incomplete: bool, part: seq<int>,
                  partial: bool)
    requires nfa.Shape() && node < |nfa.nodes| && i < |nfa.edests[node]| && nfa.nodes[node].IsEpsilon()
    requires Gathered(nfa, S, node, i, elems, incomplete)
    requires Sorted(part) && Once(nfa, part) && Sandwich(nfa, S + {node}, nfa.edests[node][i], part)
    requires !partial ==> IsClosure(nfa, nfa.edests[node][i], part)
    ensures Gathered(nfa, S, node, i + 1, Merged(elems, part), incomplete || partial)
  {
    MergedIsUnion(elems, part);
    MergedOnce(nfa, elems, part);
    forall m | m in part
      ensures Path(nfa, node, [], m)
    {
      EpsilonStep(nfa, node, nfa.edests[node][i], [], m);
    }
  }

  /** Nothing avoids a node that is in progress. */
  lemma GatherNone(nfa: Nfa, S: set<int>, node: nat, i: nat, elems: seq<int>, incomplete: bool)
    requires nfa.Shape() && node < |nfa.nodes| && i < |nfa.edests[node]| && nfa.edests[node][i] in S + {node}
    requires Gathered(nfa, S, node, i, elems, incomplete)
    ensures Gathered(nfa, S, node, i + 1, elems, true)
  {
    assert forall m, k: nat :: !Avoiding(nfa, S + {node}, nfa.edests[node][i], m, k);
  }

  lemma GatheredStart(nfa: Nfa, S: set<int>, node: nat)
    requires nfa.Shape() && node < |nfa.nodes|
    ensures Gathered(nfa, S, node, 0, [], false)
  {
  }

  lemma GatheredAll(nfa: Nfa, S: set<int>, node: nat, elems: seq<int>, incomplete: bool, at: nat, result: seq<int>)
    requires nfa.Shape() && node < |nfa.nodes| && node !in S
    requires nfa.nodes[node].IsEpsilon() ==> Gathered(nfa, S, node, |nfa.edests[node]|, elems, incomplete)
    requires !nfa.nodes[node].IsEpsilon() ==> elems == []
    requires IsLowerBound(elems, node, at) && result == InsertedAt(elems, node, at)
    requires Sorted(result) && forall x :: x in result <==> x == node || x in elems
    ensures Once(nfa, result) && Sandwich(nfa, S, node, result)
    ensures !incomplete || S == {} ==> IsClosure(nfa, node, result)
  {
    PathHere(nfa, node);
    InsertOnce(nfa, elems, node, at);
    forall m | ReachAvoiding(nfa, S, node, m)
      ensures m in result
    {
      if m != node {
        var k: nat :| Avoiding(nfa, S, node, m, k);
        LeaveForGood(nfa, S, node, m, k);
      }
    }
    forall m | Path(nfa, node, [], m)
      ensures !incomplete || S == {} ==> m in result
    {
      AvoidingNothing(nfa, node, m);
      if !incomplete && m != node {
        var k: nat :| Steps(nfa, node, [], m, k);
        assert k > 0;
        var e :| e in nfa.edests[node] && Steps(nfa, e, [], m, k - 1);
        assert Path(nfa, e, [], m);
      }
    }
  }

  /** calc_eclosure_iter. `S` is the set of nodes in progress, that is, the recursion stack. */
  method CalcEclosureIter(nfa: Nfa, eclosures: array<Entry>, node: nat, root: bool, ghost S: set<int>)
      returns (newSet: seq<int>)
    requires EdgesInRange(nfa) && TableOk(nfa, eclosures[..], S)
    requires node < eclosures.Length && eclosures[node] == Pending && (root ==> S == {})
    modifies eclosures
    ensures TableOk(nfa, eclosures[..], S) && KeepsDone(old(eclosures[..]), eclosures[..])
    ensures Sorted(newSet) && Once(nfa, newSet) && Sandwich(nfa, S, node, newSet)
    ensures eclosures[node] == Done(newSet) || (!root && eclosures[node] == Pending)
    decreases Indices(|nfa.nodes|) - S, 2
  {
    hide Once, Sandwich, Gathered, IsClosure, Merged, Sorted, TableOk, KeepsDone;
    ghost var before := eclosures[..];
    TableEntry(nfa, before, S, node);
    TableStarts(nfa, before, S, node);
    eclosures[node] := InProgress;
    assert eclosures[..] == before[node := InProgress];
    ghost var started := eclosures[..];
    var eclosure, incomplete := GatherEdges(nfa, eclosures, node, S);
    ghost var table := eclosures[..];
    TableEntry(nfa, table, S + {node}, node);
    newSet := InsertSelf(nfa, node, eclosure, incomplete, S);
    assert eclosures[..] == table;
    ghost var entry := if incomplete && !root then Pending else Done(newSet);
    TableSettles(nfa, table, S, node, entry);
    if incomplete && !root {
      eclosures[node] := Pending;
    } else {
      eclosures[node] := Done(newSet);
    }
    assert eclosures[..] == table[node := entry];
    KeepsAround(before, node, started, table, entry);
  }

  /** The table is changed at `n`, then elsewhere, then at `n` again. */
  lemma KeepsAround(before: seq<Entry>, n: nat, started: seq<Entry>, table: seq<Entry>, entry: Entry)
    requires n < |before| && before[n] == Pending && started == before[n := InProgress] && KeepsDone(started, table)
    ensures KeepsDone(before, table[n := entry])
  {
  }

  lemma KeepsTwice(a: seq<Entry>, b: seq<Entry>, c: seq<Entry>)
    requires KeepsDone(a, b) && KeepsDone(b, c)
    ensures KeepsDone(a, c)
  {
  }

  /** The last step: the node itself joins what its edges have given. */
  method InsertSelf(nfa: Nfa, node: nat, eclosure: NodeSet, incomplete: bool, ghost S: set<int>)
      returns (newSet: seq<int>)
    requires nfa.Shape() && node < |nfa.nodes| && node !in S && eclosure.Valid()
    requires nfa.nodes[node].IsEpsilon() ==> Gathered(nfa, S, node, |nfa.edests[node]|, eclosure.Contents(), incomplete)
    requires !nfa.nodes[node].IsEpsilon() ==> eclosure.Contents() == [] && !incomplete
    modifies eclosure, eclosure.elems
    ensures Sorted(newSet) && Once(nfa, newSet) && Sandwich(nfa, S, node, newSet)
    ensures !incomplete || S == {} ==> IsClosure(nfa, node, newSet)
  {
    hide Once, Sandwich, IsClosure, Gathered;
    ghost var gathered := eclosure.Contents();
    eclosure.Insert(node);
    newSet := eclosure.elems[..eclosure.nelem];
    ghost var at: nat :| IsLowerBound(gathered, node, at) && newSet == InsertedAt(gathered, node, at);
    GatheredAll(nfa, S, node, gathered, incomplete, at, newSet);
  }

  /** The loop over the epsilon edges of a node. */
  method GatherEdges(nfa: Nfa, eclosures: array<Entry>, node: nat, ghost S: set<int>)
      returns (eclosure: NodeSet, incomplete: bool)
    requires EdgesInRange(nfa) && TableOk(nfa, eclosures[..], S + {node})
    requires node < |nfa.nodes| == eclosures.Length && node !in S
    modifies eclosures
    ensures TableOk(nfa, eclosures[..], S + {node}) && KeepsDone(old(eclosures[..]), eclosures[..])
    ensures eclosure.Valid() && fresh(eclosure) && fresh(eclosure.elems)
    ensures nfa.nodes[node].IsEpsilon() ==> Gathered(nfa, S, node, |nfa.edests[node]|, eclosure.Contents(), incomplete)
    ensures !nfa.nodes[node].IsEpsilon() ==> eclosure.Contents() == [] && !incomplete
    decreases Indices(|nfa.nodes|) - S, 1
  {
    hide Once, Sandwich, Gathered, IsClosure, Merged, Sorted, TableOk, KeepsDone;
    incomplete := false;
    GatheredStart(nfa, S, node);
    KeepsSelf(eclosures[..]);
    eclosure := new NodeSet(|nfa.edests[node]| + 1);
    if nfa.nodes[node].IsEpsilon() {
      for i := 0 to |nfa.edests[node]|
        invariant TableOk(nfa, eclosures[..], S + {node}) && KeepsDone(old(eclosures[..]), eclosures[..])
        invariant eclosure.Valid() && fresh(eclosure) && fresh(eclosure.elems)
        invariant Gathered(nfa, S, node, i, eclosure.Contents(), incomplete)
      {
        var edest := nfa.edests[node][i];
        assert edest in nfa.edests[node];
        if eclosures[edest] == InProgress {
          TableEntry(nfa, eclosures[..], S + {node}, edest);
          GatherNone(nfa, S, node, i, eclosure.Contents(), incomplete);
          incomplete := true;
          continue;
        }
        ghost var before := eclosures[..];
        var elem := ClosureOf(nfa, eclosures, edest, S, node);
        KeepsTwice(old(eclosures[..]), before, eclosures[..]);
        GatherOne(nfa, S, node, i, eclosure.Contents(), incomplete, elem, eclosures[edest] == Pending);
        eclosure.Merge(elem);
        if eclosures[edest] == Pending {
          incomplete := true;
        }
      }
    }
  }

  lemma KeepsSelf(table: seq<Entry>)
    ensures KeepsDone(table, table)
  {
  }

  /** The closure of the target of an edge: from the table, or by recursion. */
  method ClosureOf(nfa: Nfa, eclosures: array<Entry>, edest: nat, ghost S: set<int>, ghost node: nat)
      returns (elem: seq<int>)
    requires EdgesInRange(nfa) && TableOk(nfa, eclosures[..], S + {node})
    requires edest < |nfa.nodes| == eclosures.Length && eclosures[edest] != InProgress
    requires node < |nfa.nodes| && node !in S
    modifies eclosures
    ensures TableOk(nfa, eclosures[..], S + {node}) && KeepsDone(old(eclosures[..]), eclosures[..])
    ensures Sorted(elem) && Once(nfa, elem) && Sandwich(nfa, S + {node}, edest, elem)
    ensures eclosures[edest] != Pending ==> IsClosure(nfa, edest, elem)
    decreases Indices(|nfa.nodes|) - S, 0
  {
    hide Once, Sandwich, IsClosure, Sorted, TableOk, KeepsDone;
    if eclosures[edest] == Pending {
      assert node in Indices(|nfa.nodes|);
      elem := CalcEclosureIter(nfa, eclosures, edest, false, S + {node});
      TableEntry(nfa, eclosures[..], S + {node}, edest);
    } else {
      elem := eclosures[edest].elems;
      TableEntry(nfa, eclosures[..], S + {node}, edest);
      KeepsSelf(eclosures[..]);
      ClosureIsSandwich(nfa, S + {node}, edest, elem);
    }
  }

  lemma {:induction false} AvoidingIsPath(nfa: Nfa, S: set<int>, n: int, m: int, k: nat)
    requires nfa.Shape() && Avoiding(nfa, S, n, m, k)
    ensures Steps(nfa, n, [], m, k)
    decreases k
  {
    if k > 0 {
      var e :| e in nfa.edests[n] && Avoiding(nfa, S, e, m, k - 1);
      AvoidingIsPath(nfa, S, e, m, k - 1);
    }
  }

  lemma ClosureIsSandwich(nfa: Nfa, S: set<int>, n: int, elems: seq<int>)
    requires nfa.Shape() && IsClosure(nfa, n, elems)
    ensures Sorted(elems) && Once(nfa, elems) && Sandwich(nfa, S, n, elems)
  {
    forall m, k: nat | Avoiding(nfa, S, n, m, k)
      ensures m in elems
    {
      AvoidingIsPath(nfa, S, n, m, k);
    }
  }

  /** calc_eclosure: every closure is computed, and is right. */
  method CalcEclosure(nfa: Nfa, eclosures: array<Entry>)
    requires EdgesInRange(nfa) && eclosures.Length == |nfa.nodes| > 0
    requires forall n :: 0 <= n < eclosures.Length ==> eclosures[n] == Pending
    modifies eclosures
    ensures forall n :: 0 <= n < eclosures.Length ==> eclosures[n].Done? && IsClosure(nfa, n, eclosures[n].elems)
  {
    var incomplete := false;
    var nodeIdx := 0;
    while true
      invariant 0 <= nodeIdx <= eclosures.Length && !incomplete
      invariant TableOk(nfa, eclosures[..], {})
      invariant forall n :: 0 <= n < nodeIdx ==> eclosures[n].Done?
      decreases eclosures.Length - nodeIdx
    {
      if nodeIdx == eclosures.Length {
        if !incomplete {
          break;
        }
        incomplete := false;
        nodeIdx := 0;
      }
      if !eclosures[nodeIdx].Done? {
        assert eclosures[..][nodeIdx] == eclosures[nodeIdx];
        var elem := CalcEclosureIter(nfa, eclosures, nodeIdx, true, {});
        if eclosures[nodeIdx] == Pending {
          incomplete := true;
        }
      }
      nodeIdx := nodeIdx + 1;
    }
    assert forall n :: 0 <= n < eclosures.Length ==> eclosures[..][n] == eclosures[n];
  }

  /** The rows before `src`, and the first `idx` elements of row `src`, are entered in the converse. */
  ghost predicate ConverseUpTo(eclosures: seq<seq<int>>, inverse: seq<seq<int>>, src: nat, idx: nat) {
    && |inverse| == |eclosures|
    && src <= |eclosures|
    && (if src < |eclosures| then idx <= |eclosures[src]| else idx == 0)
    && forall m :: 0 <= m < |inverse| ==>
         && Sorted(inverse[m])
         && forall n :: n in inverse[m] <==> Entered(eclosures, src, idx, m, n)
  }

  ghost predicate Entered(eclosures: seq<seq<int>>, src: nat, idx: nat, m: int, n: int)
    requires src <= |eclosures| && (src < |eclosures| ==> idx <= |eclosures[src]|)
  {
    (0 <= n < src && m in eclosures[n]) || (n == src < |eclosures| && m in eclosures[src][..idx])
  }

  lemma NextElement(eclosures: seq<seq<int>>, inverse: seq<seq<int>>, src: nat, idx: nat, after: seq<seq<int>>)
    requires src < |eclosures| && idx < |eclosures[src]| && ConverseUpTo(eclosures, inverse, src, idx)
    requires |after| == |inverse| && 0 <= eclosures[src][idx] < |inverse|
    requires forall m :: 0 <= m < |inverse| && m != eclosures[src][idx] ==> after[m] == inverse[m]
    requires Sorted(after[eclosures[src][idx]])
    requires forall x :: x in after[eclosures[src][idx]] <==> x == src || x in inverse[eclosures[src][idx]]
    ensures ConverseUpTo(eclosures, after, src, idx + 1)
  {
    var dest := eclosures[src][idx];
    assert eclosures[src][..idx + 1] == eclosures[src][..idx] + [dest];
    forall m, n | 0 <= m < |inverse|
      ensures n in after[m] <==> Entered(eclosures, src, idx + 1, m, n)
    {
      assert n in inverse[m] <==> Entered(eclosures, src, idx, m, n);
    }
  }

  lemma NextRow(eclosures: seq<seq<int>>, inverse: seq<seq<int>>, src: nat)
    requires src < |eclosures| && ConverseUpTo(eclosures, inverse, src, |eclosures[src]|)
    ensures ConverseUpTo(eclosures, inverse, src + 1, 0)
  {
    assert eclosures[src][..|eclosures[src]|] == eclosures[src];
    forall m, n | 0 <= m < |inverse|
      ensures n in inverse[m] <==> Entered(eclosures, src + 1, 0, m, n)
    {
      assert n in inverse[m] <==> Entered(eclosures, src, |eclosures[src]|, m, n);
    }
  }

  /** `inverse` is the converse of `eclosures`. */
  ghost predicate IsConverse(eclosures: seq<seq<int>>, inverse: seq<seq<int>>) {
    && |inverse| == |eclosures|
    && forall m :: 0 <= m < |inverse| ==>
         && Sorted(inverse[m])
         && forall n :: n in inverse[m] <==> 0 <= n < |eclosures| && m in eclosures[n]
  }

  /** calc_inveclosure */
  method CalcInveclosure(eclosures: seq<seq<int>>, inveclosures: array<seq<int>>)
    requires inveclosures.Length == |eclosures|
    requires forall n :: 0 <= n < |eclosures| ==> inveclosures[n] == []
    requires forall n, m :: 0 <= n < |eclosures| && m in eclosures[n] ==> 0 <= m < |eclosures|
    modifies inveclosures
    ensures IsConverse(eclosures, inveclosures[..])
  {
    for src := 0 to |eclosures|
      invariant ConverseUpTo(eclosures, inveclosures[..], src, 0)
    {
      for idx := 0 to |eclosures[src]|
        invariant ConverseUpTo(eclosures, inveclosures[..], src, idx)
      {
        ghost var before := inveclosures[..];
        var dest := eclosures[src][idx];
        assert dest in eclosures[src];
        InsertInto(inveclosures, dest, src);
        NextElement(eclosures, before, src, idx, inveclosures[..]);
      }
      NextRow(eclosures, inveclosures[..], src);
    }
    assert forall m, n :: 0 <= m < |eclosures| ==>
      (n in inveclosures[..][m] <==> Entered(eclosures, |eclosures|, 0, m, n));
  }

  /** re_node_set_insert on a set that is stored in a table. */
  method InsertInto(table: array<seq<int>>, at: nat, elem: int)
    requires at < table.Length && Sorted(table[at])
    modifies table
    ensures forall m :: 0 <= m < table.Length && m != at ==> table[m] == old(table[m])
    ensures Sorted(table[at]) && forall x :: x in table[at] <==> x == elem || x in old(table[at])
  {
    var updated := new NodeSet.Copy(table[at]);
    updated.Insert(elem);
    table[at] := updated.elems[..updated.nelem];
  }
}
