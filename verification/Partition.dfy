/** group_nodes_into_DFAstates: the outgoing bytes of a DFA state are split into groups that no node
    tells apart. */
module Partition {
  import opened FiniteSets
  import opened Language
  import opened NfaModel
  import opened NodeSets
  import opened Closure

  const SBC_MAX := 256

  /** The bytes that `node` accepts. */
  function AcceptSet(sx: Syntax, node: Node): (r: set<Byte>)
    ensures forall b: Byte :: b in r <==> Accepts(sx, node, b)
  {
    match node
    case Character(c) => {c}
    case SimpleBracket(s) => s
    case Period =>
      AllBytes() - (if sx.dotNewline then {} else {NEWLINE}) - (if sx.dotNotNull then {0} else {})
    case _ => {}
  }

  /** bitset_set_all */
  function AllBytes(): (r: set<Byte>)
    ensures |r| == SBC_MAX && forall b: Byte :: b in r
  {
    BytesBelow(SBC_MAX)
  }

  function BytesBelow(n: nat): (r: set<Byte>)
    requires n <= SBC_MAX
    ensures |r| == n && forall b: Byte :: b in r <==> b < n
  {
    if n == 0 then {} else
      var b: Byte := n - 1;
      BytesBelow(n - 1) + {b}
  }

  /** One destination: the bytes that lead to it and the nodes that accept those bytes. */
  datatype Group = Group(ch: set<Byte>, nodes: seq<int>)

  /** A node that stands for one byte. */
  ghost predicate Consumes(nfa: Nfa, n: int) {
    nfa.Has(n) && (nfa.nodes[n].Character? || nfa.nodes[n].SimpleBracket? || nfa.nodes[n].Period?)
  }

  /** The groups partition the bytes read by the nodes of `seen`, and a group's node list holds
      exactly the nodes of `seen` that read any given byte of the group. A group without bytes comes
      from a bracket that accepts none. */
  ghost predicate Partitioned(nfa: Nfa, seen: set<int>, groups: seq<Group>)
    requires nfa.Shape()
  {
    && AllOk(nfa, seen, groups)
    && Disjoint(groups)
    && forall b: Byte :: InSomeGroup(groups, b) <==> SomeReads(nfa, seen, b)
  }

  ghost predicate AllOk(nfa: Nfa, seen: set<int>, groups: seq<Group>)
    requires nfa.Shape()
  {
    forall j :: 0 <= j < |groups| ==> GroupOk(nfa, seen, groups[j])
  }

  ghost predicate GroupOk(nfa: Nfa, seen: set<int>, g: Group)
    requires nfa.Shape()
  {
    && g.nodes != [] && Sorted(g.nodes)
    && (forall n :: n in g.nodes ==> n in seen && Consumes(nfa, n))
    && forall n, b: Byte :: b in g.ch ==> (n in g.nodes <==> n in seen && Reads(nfa, n, b))
  }

  ghost predicate Disjoint(groups: seq<Group>) {
    forall i, j :: 0 <= i < j < |groups| ==> groups[i].ch !! groups[j].ch
  }

  ghost predicate InSomeGroup(groups: seq<Group>, b: Byte) {
    exists j :: 0 <= j < |groups| && b in groups[j].ch
  }

  ghost predicate SomeReads(nfa: Nfa, seen: set<int>, b: Byte)
    requires nfa.Shape()
  {
    exists n :: n in seen && Reads(nfa, n, b)
  }

  ghost function AllOf(groups: seq<Group>): set<Byte> {
    if groups == [] then {} else AllOf(groups[..|groups| - 1]) + groups[|groups| - 1].ch
  }

  lemma {:induction false} InAllOf(groups: seq<Group>, b: Byte)
    requires b in AllOf(groups)
    ensures InSomeGroup(groups, b)
  {
    var last := |groups| - 1;
    if b in AllOf(groups[..last]) {
      InAllOf(groups[..last], b);
    }
  }

  // ----- how many groups there are

  /** The nodes of `S` that read `b`: what a byte looks like to them. */
  ghost function Readers(nfa: Nfa, S: set<int>, b: Byte): set<int>
    requires nfa.Shape()
  {
    set n | n in S && Reads(nfa, n, b)
  }

  /** The different looks of the given bytes. */
  ghost function Looks(nfa: Nfa, S: set<int>, bytes: set<Byte>): set<set<int>>
    requires nfa.Shape()
  {
    set b | b in bytes :: Readers(nfa, S, b)
  }

  ghost function BytesRead(nfa: Nfa, S: set<int>): set<Byte>
    requires nfa.Shape()
  {
    set b: Byte | b in AllBytes() && SomeReads(nfa, S, b)
  }

  predicate IsEmptyBracket(nfa: Nfa, n: int) {
    nfa.Has(n) && nfa.nodes[n].SimpleBracket? && nfa.nodes[n].sbcset == {}
  }

  /** How many times the list has a bracket that accepts no byte. */
  function EmptyBrackets(nfa: Nfa, nodes: seq<int>): nat {
    if nodes == [] then 0
    else EmptyBrackets(nfa, nodes[..|nodes| - 1]) + if IsEmptyBracket(nfa, nodes[|nodes| - 1]) then 1 else 0
  }

  function EmptyGroups(groups: seq<Group>): nat {
    if groups == [] then 0
    else EmptyGroups(groups[..|groups| - 1]) + if groups[|groups| - 1].ch == {} then 1 else 0
  }

  /** The number of groups that a list of nodes leads to: one for every look that a byte has to its
      nodes, and one for every bracket that accepts nothing. */
  ghost function GroupCount(nfa: Nfa, nodes: seq<int>): nat
    requires nfa.Shape()
  {
    |Looks(nfa, Elements(nodes), BytesRead(nfa, Elements(nodes)))| + EmptyBrackets(nfa, nodes)
  }

  ghost function EmptyIn(nfa: Nfa, S: set<int>): set<int> {
    set n | n in S && IsEmptyBracket(nfa, n)
  }

  /** The same for a set of nodes. */
  ghost function SlotsFor(nfa: Nfa, S: set<int>): nat
    requires nfa.Shape()
  {
    |Looks(nfa, S, BytesRead(nfa, S))| + |EmptyIn(nfa, S)|
  }

  /** A list that has no such bracket twice needs as many slots as its elements. */
  lemma GroupCountOfSet(nfa: Nfa, nodes: seq<int>)
    requires nfa.Shape() && Once(nfa, nodes)
    ensures GroupCount(nfa, nodes) == SlotsFor(nfa, Elements(nodes))
  {
    EmptiesOnce(nfa, nodes);
  }

  lemma {:induction false} EmptiesOnce(nfa: Nfa, nodes: seq<int>)
    requires nfa.Shape() && Once(nfa, nodes)
    ensures EmptyBrackets(nfa, nodes) == |EmptyIn(nfa, Elements(nodes))|
  {
    if nodes != [] {
      var last := |nodes| - 1;
      var front, n := nodes[..last], nodes[last];
      EmptiesOnce(nfa, front);
      assert Elements(nodes) == Elements(front) + {n};
      assert IsEmptyBracket(nfa, n) ==> n !in front;
      OneMoreEmpty(nfa, Elements(front), n);
    }
  }

  lemma OneMoreEmpty(nfa: Nfa, S: set<int>, n: int)
    requires IsEmptyBracket(nfa, n) ==> n !in S
    ensures |EmptyIn(nfa, S + {n})| == |EmptyIn(nfa, S)| + if IsEmptyBracket(nfa, n) then 1 else 0
  {
    assert EmptyIn(nfa, S + {n}) == EmptyIn(nfa, S) + if IsEmptyBracket(nfa, n) then {n} else {};
  }

  /** Bytes of different groups look different to the nodes of `S`. */
  ghost predicate Separated(nfa: Nfa, S: set<int>, groups: seq<Group>)
    requires nfa.Shape()
  {
    forall i, j :: 0 <= i < j < |groups| ==> Apart(nfa, S, groups[i].ch, groups[j].ch)
  }

  ghost predicate Apart(nfa: Nfa, S: set<int>, a: set<Byte>, b: set<Byte>)
    requires nfa.Shape()
  {
    forall x, y :: x in a && y in b ==> Readers(nfa, S, x) != Readers(nfa, S, y)
  }

  /** All bytes of a group look the same. */
  ghost predicate Uniform(nfa: Nfa, S: set<int>, groups: seq<Group>)
    requires nfa.Shape()
  {
    forall i, x, y :: 0 <= i < |groups| && x in groups[i].ch && y in groups[i].ch ==>
        Readers(nfa, S, x) == Readers(nfa, S, y)
  }

  /** Disjoint groups number at most 256, those without bytes apart. */
  lemma {:induction false} AtMostAllBytes(groups: seq<Group>)
    requires Disjoint(groups)
    ensures |groups| <= |AllOf(groups)| + EmptyGroups(groups) && |AllOf(groups)| <= SBC_MAX
  {
    if groups != [] {
      var last := |groups| - 1;
      AtMostAllBytes(groups[..last]);
      forall b | b in AllOf(groups[..last])
        ensures b !in groups[last].ch
      {
        InAllOf(groups[..last], b);
      }
      assert AllOf(groups) == AllOf(groups[..last]) + groups[last].ch;
      assert |AllOf(groups)| == |AllOf(groups[..last])| + |groups[last].ch|;
    }
    SubsetSize(AllOf(groups), AllBytes());
  }

  /** Groups whose bytes look different number at most as many as the looks of their bytes, those
      without bytes apart; exactly as many if all bytes of a group look the same. */
  lemma {:induction false} CountByLooks(nfa: Nfa, S: set<int>, groups: seq<Group>)
    requires nfa.Shape() && Separated(nfa, S, groups)
    ensures |groups| <= |Looks(nfa, S, AllOf(groups))| + EmptyGroups(groups)
    ensures Uniform(nfa, S, groups) ==> |groups| == |Looks(nfa, S, AllOf(groups))| + EmptyGroups(groups)
  {
    if groups != [] {
      hide Readers;
      var last := |groups| - 1;
      var front, g := groups[..last], groups[last];
      CountByLooks(nfa, S, front);
      forall b | b in AllOf(front)
        ensures Apart(nfa, S, {b}, g.ch)
      {
        InAllOf(front, b);
        var i :| 0 <= i < last && b in front[i].ch;
        assert Apart(nfa, S, groups[i].ch, g.ch);
      }
      LooksAddUp(nfa, S, AllOf(front), g.ch);
      OneLook(nfa, S, g.ch);
    }
  }

  lemma LooksAddUp(nfa: Nfa, S: set<int>, a: set<Byte>, b: set<Byte>)
    requires nfa.Shape() && forall x :: x in a ==> Apart(nfa, S, {x}, b)
    ensures |Looks(nfa, S, a + b)| == |Looks(nfa, S, a)| + |Looks(nfa, S, b)|
  {
    hide Readers;
    assert Looks(nfa, S, a + b) == Looks(nfa, S, a) + Looks(nfa, S, b);
    forall l | l in Looks(nfa, S, a)
      ensures l !in Looks(nfa, S, b)
    {
      var x :| x in a && l == Readers(nfa, S, x);
      assert Apart(nfa, S, {x}, b) && x in {x};
    }
  }

  lemma OneLook(nfa: Nfa, S: set<int>, bytes: set<Byte>)
    requires nfa.Shape()
    ensures bytes == {} ==> Looks(nfa, S, bytes) == {}
    ensures bytes != {} ==> |Looks(nfa, S, bytes)| >= 1
    ensures bytes != {} && (forall x, y :: x in bytes && y in bytes ==> Readers(nfa, S, x) == Readers(nfa, S, y)) ==>
              |Looks(nfa, S, bytes)| == 1
  {
    hide Readers;
    if b :| b in bytes {
      assert Readers(nfa, S, b) in Looks(nfa, S, bytes);
      SubsetSize({Readers(nfa, S, b)}, Looks(nfa, S, bytes));
      if forall x, y :: x in bytes && y in bytes ==> Readers(nfa, S, x) == Readers(nfa, S, y) {
        assert Looks(nfa, S, bytes) == {Readers(nfa, S, b)};
      }
    }
  }

  /** Bytes have at most 256 looks. */
  lemma LooksAreFew(nfa: Nfa, S: set<int>, bytes: set<Byte>)
    requires nfa.Shape()
    ensures |Looks(nfa, S, bytes)| <= |bytes| <= SBC_MAX
  {
    SubsetSize(bytes, AllBytes());
    ImageSize(nfa, S, bytes);
  }

  lemma {:induction false} ImageSize(nfa: Nfa, S: set<int>, bytes: set<Byte>)
    requires nfa.Shape()
    ensures |Looks(nfa, S, bytes)| <= |bytes|
    decreases |bytes|
  {
    if b :| b in bytes {
      ImageSize(nfa, S, bytes - {b});
      assert Looks(nfa, S, bytes) == Looks(nfa, S, bytes - {b}) + {Readers(nfa, S, b)};
    }
  }

  /** Every bracket accepts at least one byte. */
  ghost predicate BracketsAccept(nfa: Nfa) {
    forall n :: 0 <= n < |nfa.nodes| && nfa.nodes[n].SimpleBracket? ==> nfa.nodes[n].sbcset != {}
  }

  /** If every bracket accepts something, the groups of any nodes fit into the 256 slots. */
  lemma BracketsFit(nfa: Nfa, S: set<int>)
    requires nfa.Shape() && BracketsAccept(nfa)
    ensures SlotsFor(nfa, S) <= SBC_MAX
  {
    assert EmptyIn(nfa, S) == {};
    LooksAreFew(nfa, S, BytesRead(nfa, S));
  }

  ghost function AllNodes(nfa: Nfa): set<int> {
    set n | 0 <= n < |nfa.nodes| && nfa.Has(n)
  }

  /** All the nodes together need no more than the 256 slots. */
  ghost predicate FewSlots(nfa: Nfa) {
    nfa.Shape() && SlotsFor(nfa, AllNodes(nfa)) <= SBC_MAX
  }

  /** The looks cut down to the nodes of `S`. */
  ghost function CutTo(looks: set<set<int>>, S: set<int>): set<set<int>> {
    set l | l in looks :: l * S
  }

  lemma {:induction false} CutSize(looks: set<set<int>>, S: set<int>)
    ensures |CutTo(looks, S)| <= |looks|
    decreases |looks|
  {
    if l :| l in looks {
      CutSize(looks - {l}, S);
      assert CutTo(looks, S) == CutTo(looks - {l}, S) + {l * S};
    }
  }

  /** More nodes need no fewer slots. */
  lemma SlotsGrow(nfa: Nfa, S: set<int>, T: set<int>)
    requires nfa.Shape() && S <= T
    ensures SlotsFor(nfa, S) <= SlotsFor(nfa, T)
  {
    var looks := Looks(nfa, T, BytesRead(nfa, T));
    forall l | l in Looks(nfa, S, BytesRead(nfa, S))
      ensures l in CutTo(looks, S)
    {
      var b :| b in BytesRead(nfa, S) && l == Readers(nfa, S, b);
      assert b in BytesRead(nfa, T) && Readers(nfa, T, b) in looks;
      assert Readers(nfa, T, b) * S == l;
    }
    SubsetSize(Looks(nfa, S, BytesRead(nfa, S)), CutTo(looks, S));
    CutSize(looks, S);
    SubsetSize(EmptyIn(nfa, S), EmptyIn(nfa, T));
  }

  /** Brackets that accept nothing need one group each: 257 of them do not fit. */
  lemma {:induction false} EmptyBracketsAddUp(nfa: Nfa, nodes: seq<int>)
    requires nfa.Shape() && forall n :: n in nodes ==> IsEmptyBracket(nfa, n)
    ensures GroupCount(nfa, nodes) == |nodes|
  {
    OnlyEmptyBrackets(nfa, nodes);
    assert BytesRead(nfa, Elements(nodes)) == {};
    assert Looks(nfa, Elements(nodes), {}) == {};
  }

  lemma {:induction false} OnlyEmptyBrackets(nfa: Nfa, nodes: seq<int>)
    requires forall n :: n in nodes ==> IsEmptyBracket(nfa, n)
    ensures EmptyBrackets(nfa, nodes) == |nodes|
  {
    if nodes != [] {
      var last := |nodes| - 1;
      assert nodes[last] in nodes;
      OnlyEmptyBrackets(nfa, nodes[..last]);
    }
  }

  /** While node `n` is distributed over the groups: those before `j` are done, and `accepts` is what
      they have left of its bytes. */
  ghost predicate Midway(nfa: Nfa, seen: set<int>, n: int, groups: seq<Group>, j: nat, accepts: set<Byte>)
    requires nfa.Shape()
  {
    && j <= |groups|
    && AllOk(nfa, seen + {n}, groups[..j]) && AllOk(nfa, seen, groups[j..])
    && Disjoint(groups)
    && (forall b: Byte :: InSomeGroup(groups, b) <==> SomeReads(nfa, seen, b))
    && (forall b: Byte :: b in accepts <==> Reads(nfa, n, b) && !InSomeGroup(groups[..j], b))
  }

  /** A group none of whose bytes `n` reads. */
  lemma GroupUntouched(nfa: Nfa, seen: set<int>, n: int, g: Group)
    requires nfa.Shape() && GroupOk(nfa, seen, g) && forall b: Byte :: b in g.ch ==> !Reads(nfa, n, b)
    ensures GroupOk(nfa, seen + {n}, g)
  {
  }

  /** A group all of whose bytes `n` reads, after `n` has joined it. */
  lemma GroupJoined(nfa: Nfa, seen: set<int>, n: int, g: Group, ch: set<Byte>, nodes: seq<int>)
    requires nfa.Shape() && GroupOk(nfa, seen, g)
    requires ch <= g.ch && ch != {} && forall b: Byte :: b in ch ==> Reads(nfa, n, b)
    requires Sorted(nodes) && forall x :: x in nodes <==> x == n || x in g.nodes
    ensures GroupOk(nfa, seen + {n}, Group(ch, nodes))
  {
    forall m, b: Byte | b in ch
      ensures m in nodes <==> m in seen + {n} && Reads(nfa, m, b)
    {
      assert b in g.ch;
    }
  }

  lemma SomeReadsGrows(nfa: Nfa, seen: set<int>, n: int, b: Byte)
    requires nfa.Shape()
    ensures SomeReads(nfa, seen + {n}, b) <==> SomeReads(nfa, seen, b) || Reads(nfa, n, b)
  {
    if SomeReads(nfa, seen, b) {
      var m :| m in seen && Reads(nfa, m, b);
      assert m in seen + {n};
    }
    if Reads(nfa, n, b) {
      assert n in seen + {n};
    }
  }

  lemma Concatenated(a: seq<Group>, b: seq<Group>)
    ensures forall c: Byte :: InSomeGroup(a + b, c) <==> InSomeGroup(a, c) || InSomeGroup(b, c)
  {
    forall c: Byte
      ensures InSomeGroup(a, c) ==> InSomeGroup(a + b, c)
      ensures InSomeGroup(b, c) ==> InSomeGroup(a + b, c)
      ensures InSomeGroup(a + b, c) ==> InSomeGroup(a, c) || InSomeGroup(b, c)
    {
      if InSomeGroup(a, c) {
        var j :| 0 <= j < |a| && c in a[j].ch;
        assert (a + b)[j] == a[j];
      }
      if InSomeGroup(b, c) {
        var j :| 0 <= j < |b| && c in b[j].ch;
        assert (a + b)[|a| + j] == b[j];
      }
      if InSomeGroup(a + b, c) {
        var j :| 0 <= j < |a + b| && c in (a + b)[j].ch;
        assert if j < |a| then c in a[j].ch else c in b[j - |a|].ch;
      }
    }
  }

  lemma AllOkConcatenated(nfa: Nfa, seen: set<int>, a: seq<Group>, b: seq<Group>)
    requires nfa.Shape() && AllOk(nfa, seen, a) && AllOk(nfa, seen, b)
    ensures AllOk(nfa, seen, a + b)
  {
  }

  /** A node that reads nothing leaves the groups as they are. */
  lemma SkipNode(nfa: Nfa, seen: set<int>, n: int, groups: seq<Group>)
    requires nfa.Shape() && Partitioned(nfa, seen, groups) && forall b: Byte :: !Reads(nfa, n, b)
    ensures Partitioned(nfa, seen + {n}, groups)
  {
    forall j | 0 <= j < |groups|
      ensures GroupOk(nfa, seen + {n}, groups[j])
    {
      GroupUntouched(nfa, seen, n, groups[j]);
    }
    forall b: Byte
      ensures SomeReads(nfa, seen + {n}, b) <==> SomeReads(nfa, seen, b)
    {
      SomeReadsGrows(nfa, seen, n, b);
    }
  }

  /** A byte of a group that is not done is in none of the groups that are. */
  lemma NotBefore(groups: seq<Group>, j: nat, k: nat, b: Byte)
    requires Disjoint(groups) && j <= k < |groups| && b in groups[k].ch
    ensures !InSomeGroup(groups[..j], b)
  {
  }

  lemma SkipGroup(nfa: Nfa, seen: set<int>, n: int, groups: seq<Group>, j: nat, accepts: set<Byte>)
    requires nfa.Shape() && Midway(nfa, seen, n, groups, j, accepts)
    requires j < |groups| && accepts * groups[j].ch == {}
    ensures Midway(nfa, seen, n, groups, j + 1, accepts)
  {
    forall b: Byte | b in groups[j].ch
      ensures !Reads(nfa, n, b)
    {
      NotBefore(groups, j, j, b);
      assert b !in accepts * groups[j].ch;
    }
    assert groups[j..][0] == groups[j];
    GroupUntouched(nfa, seen, n, groups[j]);
    AllOkConcatenated(nfa, seen + {n}, groups[..j], [groups[j]]);
    Concatenated(groups[..j], [groups[j]]);
    assert groups[..j + 1] == groups[..j] + [groups[j]] && groups[j + 1..] == groups[j..][1..];
    assert forall b: Byte :: InSomeGroup([groups[j]], b) ==> b in [groups[j]][0].ch;
  }

  /** The group `j` after it is cut down to what the node accepts too, and what is left of it. */
  ghost function Split(groups: seq<Group>, j: nat, accepts: set<Byte>, nodes: seq<int>): seq<Group>
    requires j < |groups|
  {
    groups[..j] + [Group(accepts * groups[j].ch, nodes)] + groups[j + 1..] + Rest(groups[j], accepts)
  }

  ghost function Rest(g: Group, accepts: set<Byte>): seq<Group> {
    if g.ch - accepts != {} then [Group(g.ch - accepts, g.nodes)] else []
  }

  lemma SplitGroup(nfa: Nfa, seen: set<int>, n: int, groups: seq<Group>, j: nat, accepts: set<Byte>, nodes: seq<int>)
    requires nfa.Shape() && Midway(nfa, seen, n, groups, j, accepts)
    requires j < |groups| && accepts * groups[j].ch != {}
    requires Sorted(nodes) && forall x :: x in nodes <==> x == n || x in groups[j].nodes
    ensures Midway(nfa, seen, n, Split(groups, j, accepts, nodes), j + 1, accepts - groups[j].ch)
  {
    var after := Split(groups, j, accepts, nodes);
    var g, joined := groups[j], Group(accepts * groups[j].ch, nodes);
    assert groups[j..][0] == g && groups[j..][1..] == groups[j + 1..];
    GroupJoined(nfa, seen, n, g, joined.ch, nodes);
    AllOkConcatenated(nfa, seen + {n}, groups[..j], [joined]);
    assert AllOk(nfa, seen, groups[j + 1..]);
    AllOkConcatenated(nfa, seen, groups[j + 1..], Rest(g, accepts));
    assert after[..j + 1] == groups[..j] + [joined] && after[j + 1..] == groups[j + 1..] + Rest(g, accepts);
    SplitDisjoint(groups, j, accepts, nodes);
    SplitCovers(groups, j, accepts, nodes);
    SplitAccepts(groups, j, accepts, joined);
  }

  /** The number of slots that the nodes of `S` need, if `k` of them are for groups without bytes. */
  ghost function Limit(nfa: Nfa, S: set<int>, k: nat): nat
    requires nfa.Shape()
  {
    |Looks(nfa, S, BytesRead(nfa, S))| + k
  }

  /** The groups of the nodes of `seen`, which are among those of `S`, are not more than `Limit` allows. */
  ghost predicate Room(nfa: Nfa, S: set<int>, seen: set<int>, groups: seq<Group>, k: nat)
    requires nfa.Shape()
  {
    seen <= S && Separated(nfa, S, groups) && EmptyGroups(groups) <= k
  }

  lemma RoomFits(nfa: Nfa, S: set<int>, seen: set<int>, groups: seq<Group>, k: nat)
    requires nfa.Shape() && Room(nfa, S, seen, groups, k)
    requires forall b: Byte :: InSomeGroup(groups, b) ==> SomeReads(nfa, seen, b)
    ensures |groups| <= Limit(nfa, S, k)
  {
    CountByLooks(nfa, S, groups);
    forall b | b in AllOf(groups)
      ensures b in BytesRead(nfa, S)
    {
      InAllOf(groups, b);
    }
    SubsetSize(Looks(nfa, S, AllOf(groups)), Looks(nfa, S, BytesRead(nfa, S)));
  }

  lemma {:induction false} EmptyGroupsConcat(a: seq<Group>, b: seq<Group>)
    ensures EmptyGroups(a + b) == EmptyGroups(a) + EmptyGroups(b)
  {
    if b == [] {
      assert a + b == a;
    } else {
      var last := |b| - 1;
      assert (a + b)[..|a + b| - 1] == a + b[..last];
      EmptyGroupsConcat(a, b[..last]);
    }
  }

  lemma EmptyGroupsOne(g: Group)
    ensures EmptyGroups([g]) == if g.ch == {} then 1 else 0
  {
    assert [g][..0] == [];
  }

  /** Neither dividing a group nor its rest makes a group without bytes. */
  lemma SplitEmpties(groups: seq<Group>, j: nat, accepts: set<Byte>, nodes: seq<int>)
    requires j < |groups| && accepts * groups[j].ch != {}
    ensures EmptyGroups(Split(groups, j, accepts, nodes)) == EmptyGroups(groups)
  {
    hide EmptyGroups;
    var g, joined := groups[j], Group(accepts * groups[j].ch, nodes);
    var front, back, rest := groups[..j], groups[j + 1..], Rest(groups[j], accepts);
    EmptyGroupsConcat(front, [joined]);
    EmptyGroupsConcat(front + [joined], back);
    EmptyGroupsConcat(front + [joined] + back, rest);
    EmptyGroupsConcat(front, [g]);
    EmptyGroupsConcat(front + [g], back);
    EmptyGroupsOne(g);
    EmptyGroupsOne(joined);
    NoEmptyRest(g, accepts);
    assert groups == front + [g] + back;
  }

  lemma NoEmptyRest(g: Group, accepts: set<Byte>)
    ensures EmptyGroups(Rest(g, accepts)) == 0
  {
    EmptyGroupsOne(Group(g.ch - accepts, g.nodes));
  }

  /** The node tells the two parts of a divided group apart. */
  lemma SplitSeparated(nfa: Nfa, S: set<int>, seen: set<int>, n: int, groups: seq<Group>, j: nat, accepts: set<Byte>,
                       nodes: seq<int>)
    requires nfa.Shape() && Midway(nfa, seen, n, groups, j, accepts) && j < |groups|
    requires Separated(nfa, S, groups) && n in S
    ensures Separated(nfa, S, Split(groups, j, accepts, nodes))
  {
    var after := Split(groups, j, accepts, nodes);
    forall a, b | 0 <= a < b < |after|
      ensures Apart(nfa, S, after[a].ch, after[b].ch)
    {
      var b0 := if b < |groups| then b else j;
      assert after[a].ch <= groups[a].ch && after[b].ch <= groups[b0].ch;
      if a == b0 {
        forall x, y | x in after[a].ch && y in after[b].ch
          ensures Readers(nfa, S, x) != Readers(nfa, S, y)
        {
          NotBefore(groups, j, j, y);
          assert n in Readers(nfa, S, x) && n !in Readers(nfa, S, y);
        }
      } else if a < b0 {
        assert Apart(nfa, S, groups[a].ch, groups[b0].ch);
      } else {
        assert Apart(nfa, S, groups[b0].ch, groups[a].ch);
      }
    }
  }

  lemma SplitAccepts(groups: seq<Group>, j: nat, accepts: set<Byte>, joined: Group)
    requires j < |groups| && joined.ch == accepts * groups[j].ch
    ensures forall b: Byte :: InSomeGroup(groups[..j] + [joined], b) <==>
              InSomeGroup(groups[..j], b) || (b in accepts && b in groups[j].ch)
  {
    Concatenated(groups[..j], [joined]);
    forall b: Byte
      ensures InSomeGroup([joined], b) <==> b in joined.ch
    {
      assert [joined][0] == joined;
    }
  }

  lemma SplitDisjoint(groups: seq<Group>, j: nat, accepts: set<Byte>, nodes: seq<int>)
    requires j < |groups| && Disjoint(groups)
    ensures Disjoint(Split(groups, j, accepts, nodes))
  {
    var after := Split(groups, j, accepts, nodes);
    forall a, b | 0 <= a < b < |after|
      ensures after[a].ch !! after[b].ch
    {
      var a0, b0 := a, if b < |groups| then b else j;
      assert after[a].ch <= groups[a0].ch && after[b].ch <= groups[b0].ch;
    }
  }

  lemma SplitCovers(groups: seq<Group>, j: nat, accepts: set<Byte>, nodes: seq<int>)
    requires j < |groups|
    ensures forall b: Byte :: InSomeGroup(Split(groups, j, accepts, nodes), b) <==> InSomeGroup(groups, b)
  {
    var g, joined := groups[j], Group(accepts * groups[j].ch, nodes);
    var front, back, rest := groups[..j], groups[j + 1..], Rest(groups[j], accepts);
    Concatenated(front, [joined]);
    Concatenated(front + [joined], back);
    Concatenated(front + [joined] + back, rest);
    assert groups == front + [g] + back;
    Concatenated(front, [g]);
    Concatenated(front + [g], back);
    forall b: Byte
      ensures InSomeGroup([g], b) <==> InSomeGroup([joined], b) || InSomeGroup(rest, b)
    {
      assert [g][0] == g && [joined][0] == joined;
      if b in g.ch && b !in accepts {
        assert b in g.ch - accepts;
        assert rest[0].ch == g.ch - accepts;
      }
    }
  }

  lemma StartMidway(nfa: Nfa, seen: set<int>, n: int, groups: seq<Group>)
    requires nfa.Shape() && nfa.Has(n) && Partitioned(nfa, seen, groups)
    ensures Midway(nfa, seen, n, groups, 0, AcceptSet(nfa.sx, nfa.nodes[n]))
  {
    assert groups[..0] == [] && groups[0..] == groups;
  }

  /** All bytes of the node are distributed. */
  lemma ConsumedAll(nfa: Nfa, seen: set<int>, n: int, groups: seq<Group>, j: nat)
    requires nfa.Shape() && Midway(nfa, seen, n, groups, j, {})
    ensures Partitioned(nfa, seen + {n}, groups)
  {
    assert groups == groups[..j] + groups[j..];
    Concatenated(groups[..j], groups[j..]);
    forall k | 0 <= k < |groups[j..]|
      ensures GroupOk(nfa, seen + {n}, groups[j..][k])
    {
      forall b: Byte | b in groups[j + k].ch
        ensures !Reads(nfa, n, b)
      {
        NotBefore(groups, j, j + k, b);
        assert b !in {};
      }
      GroupUntouched(nfa, seen, n, groups[j..][k]);
    }
    AllOkConcatenated(nfa, seen + {n}, groups[..j], groups[j..]);
    forall b: Byte
      ensures InSomeGroup(groups, b) <==> SomeReads(nfa, seen + {n}, b)
    {
      SomeReadsGrows(nfa, seen, n, b);
      assert b !in {};
    }
  }

  /** The bytes that no group has taken become a group of their own, even if there are none. */
  lemma NewGroup(nfa: Nfa, seen: set<int>, n: int, groups: seq<Group>, accepts: set<Byte>)
    requires nfa.Shape() && Midway(nfa, seen, n, groups, |groups|, accepts) && Consumes(nfa, n)
    ensures Partitioned(nfa, seen + {n}, groups + [Group(accepts, [n])])
  {
    var last := Group(accepts, [n]);
    var after := groups + [last];
    assert groups[..|groups|] == groups;
    NewGroupOk(nfa, seen, n, groups, accepts);
    AllOkConcatenated(nfa, seen + {n}, groups, [last]);
    Concatenated(groups, [last]);
    assert Disjoint(after) by {
      forall k | 0 <= k < |groups|
        ensures groups[k].ch !! accepts
      {
        assert forall b: Byte :: b in groups[k].ch ==> InSomeGroup(groups, b);
      }
    }
    forall b: Byte
      ensures InSomeGroup(after, b) <==> SomeReads(nfa, seen + {n}, b)
    {
      SomeReadsGrows(nfa, seen, n, b);
      assert [last][0] == last;
    }
  }

  lemma NewGroupOk(nfa: Nfa, seen: set<int>, n: int, groups: seq<Group>, accepts: set<Byte>)
    requires nfa.Shape() && Consumes(nfa, n)
    requires forall b: Byte :: InSomeGroup(groups, b) <==> SomeReads(nfa, seen, b)
    requires forall b: Byte :: b in accepts ==> Reads(nfa, n, b) && !InSomeGroup(groups, b)
    ensures GroupOk(nfa, seen + {n}, Group(accepts, [n]))
  {
    forall m, b: Byte | b in accepts
      ensures m in [n] <==> m in seen + {n} && Reads(nfa, m, b)
    {
      assert !SomeReads(nfa, seen, b);
    }
  }

  /** No byte of an older group looks like one that only the new node reads. */
  lemma NewGroupRoom(nfa: Nfa, S: set<int>, seen: set<int>, n: int, groups: seq<Group>, accepts: set<Byte>, k: nat)
    requires nfa.Shape() && Midway(nfa, seen, n, groups, |groups|, accepts)
    requires Room(nfa, S, seen + {n}, groups, k) && (accepts == {} ==> EmptyGroups(groups) < k)
    ensures var after := groups + [Group(accepts, [n])];
            && Room(nfa, S, seen + {n}, after, k)
            && EmptyGroups(after) == EmptyGroups(groups) + if accepts == {} then 1 else 0
  {
    var last := Group(accepts, [n]);
    var after := groups + [last];
    assert groups[..|groups|] == groups && after[..|after| - 1] == groups;
    forall i | 0 <= i < |groups|
      ensures Apart(nfa, S, groups[i].ch, accepts)
    {
      forall x, y | x in groups[i].ch && y in accepts
        ensures Readers(nfa, S, x) != Readers(nfa, S, y)
      {
        assert InSomeGroup(groups, x) && !InSomeGroup(groups, y);
        var m :| m in seen && Reads(nfa, m, x);
        assert !SomeReads(nfa, seen, y);
        assert m in Readers(nfa, S, x) && m !in Readers(nfa, S, y);
      }
    }
  }

  ghost function View(destsNode: array<seq<int>>, destsCh: array<set<Byte>>, ndests: nat): (r: seq<Group>)
    requires destsNode.Length == destsCh.Length && ndests <= destsCh.Length
    reads destsNode, destsCh
    ensures |r| == ndests && forall j :: 0 <= j < ndests ==> r[j] == Group(destsCh[j], destsNode[j])
  {
    seq(ndests, j requires 0 <= j < ndests reads destsNode, destsCh => Group(destsCh[j], destsNode[j]))
  }

  ghost function Elements(s: seq<int>): set<int> {
    set x | x in s
  }

  lemma NewGroupFits(nfa: Nfa, S: set<int>, seen: set<int>, groups: seq<Group>, k: nat)
    requires nfa.Shape() && Partitioned(nfa, seen, groups) && Room(nfa, S, seen, groups, k)
    ensures |groups| <= Limit(nfa, S, k)
  {
    hide Room, Limit;
    RoomFits(nfa, S, seen, groups, k);
  }

  /** All the nodes are distributed: the groups are as many as the nodes need. */
  lemma CountAll(nfa: Nfa, S: set<int>, groups: seq<Group>)
    requires nfa.Shape() && Partitioned(nfa, S, groups) && Separated(nfa, S, groups)
    ensures |groups| == |Looks(nfa, S, BytesRead(nfa, S))| + EmptyGroups(groups)
  {
    CountByLooks(nfa, S, groups);
    forall i, x, y | 0 <= i < |groups| && x in groups[i].ch && y in groups[i].ch
      ensures Readers(nfa, S, x) == Readers(nfa, S, y)
    {
      assert GroupOk(nfa, S, groups[i]);
    }
    forall b: Byte
      ensures b in AllOf(groups) <==> b in BytesRead(nfa, S)
    {
      InSomeIsInAll(groups, b);
    }
    assert AllOf(groups) == BytesRead(nfa, S);
  }

  lemma {:induction false} InSomeIsInAll(groups: seq<Group>, b: Byte)
    ensures b in AllOf(groups) <==> InSomeGroup(groups, b)
  {
    if b in AllOf(groups) {
      InAllOf(groups, b);
    } else if groups != [] {
      InSomeIsInAll(groups[..|groups| - 1], b);
      assert forall k :: 0 <= k < |groups| - 1 ==> groups[..|groups| - 1][k] == groups[k];
    }
  }

  lemma {:induction false} EmptyBracketsPrefix(nfa: Nfa, nodes: seq<int>, i: nat)
    requires i <= |nodes|
    ensures EmptyBrackets(nfa, nodes[..i]) <= EmptyBrackets(nfa, nodes)
    decreases |nodes|
  {
    if i < |nodes| {
      var front := nodes[..|nodes| - 1];
      EmptyBracketsPrefix(nfa, front, i);
      assert front[..i] == nodes[..i];
    } else {
      assert nodes[..i] == nodes;
    }
  }

  /** group_nodes_into_DFAstates. Arrays of any length will do: `fits` says whether they have a slot for
      every group. If not, the code comes to a group that it writes behind their end. */
  method GroupNodesIntoDFAstates(nfa: Nfa, curNodes: seq<int>, destsNode: array<seq<int>>, destsCh: array<set<Byte>>)
      returns (fits: bool, ndests: nat)
    requires nfa.Shape() && forall n :: n in curNodes ==> nfa.Has(n)
    requires destsNode.Length == destsCh.Length
    modifies destsNode, destsCh
    ensures fits <==> GroupCount(nfa, curNodes) <= destsCh.Length
    ensures ndests <= destsCh.Length && (fits ==> ndests == GroupCount(nfa, curNodes))
    ensures fits ==> Partitioned(nfa, Elements(curNodes), View(destsNode, destsCh, ndests))
  {
    hide Partitioned, Room, Looks, BytesRead;
    ghost var S, k := Elements(curNodes), EmptyBrackets(nfa, curNodes);
    fits, ndests := true, 0;
    StartGroups(nfa, curNodes, View(destsNode, destsCh, 0));
    for i := 0 to |curNodes|
      invariant fits && ndests <= destsCh.Length
      invariant Partitioned(nfa, Elements(curNodes[..i]), View(destsNode, destsCh, ndests))
      invariant Room(nfa, S, Elements(curNodes[..i]), View(destsNode, destsCh, ndests), k)
      invariant EmptyGroups(View(destsNode, destsCh, ndests)) == EmptyBrackets(nfa, curNodes[..i])
    {
      var n := curNodes[i];
      assert n in curNodes;
      var node := nfa.nodes[n];
      ghost var seen, groups := Elements(curNodes[..i]), View(destsNode, destsCh, ndests);
      assert curNodes[..i + 1][..i] == curNodes[..i] && Elements(curNodes[..i + 1]) == seen + {n};
      RoomGrows(nfa, S, seen, n, groups, k);
      if !node.Character? && !node.SimpleBracket? && !node.Period? {
        SkipNode(nfa, seen, n, groups);
        continue;
      }
      EmptyBracketsPrefix(nfa, curNodes, i + 1);
      fits, ndests := Distribute(nfa, S, seen, k, n, destsNode, destsCh, ndests);
      if !fits {
        return;
      }
    }
    assert curNodes[..|curNodes|] == curNodes;
    SeparatedInRoom(nfa, S, View(destsNode, destsCh, ndests), k);
    CountAll(nfa, S, View(destsNode, destsCh, ndests));
  }

  lemma StartGroups(nfa: Nfa, curNodes: seq<int>, groups: seq<Group>)
    requires nfa.Shape() && groups == []
    ensures Partitioned(nfa, Elements(curNodes[..0]), groups)
    ensures Room(nfa, Elements(curNodes), Elements(curNodes[..0]), groups, EmptyBrackets(nfa, curNodes))
  {
  }

  lemma SeparatedInRoom(nfa: Nfa, S: set<int>, groups: seq<Group>, k: nat)
    requires nfa.Shape() && Room(nfa, S, S, groups, k)
    ensures Separated(nfa, S, groups)
  {
  }

  lemma RoomGrows(nfa: Nfa, S: set<int>, seen: set<int>, n: int, groups: seq<Group>, k: nat)
    requires nfa.Shape() && Room(nfa, S, seen, groups, k) && n in S
    ensures Room(nfa, S, seen + {n}, groups, k)
  {
  }

  lemma AcceptsOfNode(nfa: Nfa, n: int)
    requires Consumes(nfa, n)
    ensures AcceptSet(nfa.sx, nfa.nodes[n]) == {} <==> IsEmptyBracket(nfa, n)
    ensures nfa.nodes[n].Character? ==> AcceptSet(nfa.sx, nfa.nodes[n]) <= {nfa.nodes[n].c}
  {
    assert Accepts(nfa.sx, Period, 1);
  }

  /** The part of that loop that distributes the bytes of a node over the groups. */
  method Distribute(nfa: Nfa, ghost S: set<int>, ghost seen: set<int>, ghost k: nat, n: int,
                    destsNode: array<seq<int>>, destsCh: array<set<Byte>>, ndests0: nat)
      returns (fits: bool, ndests: nat)
    requires nfa.Shape() && Consumes(nfa, n) && destsNode.Length == destsCh.Length && ndests0 <= destsCh.Length
    requires Partitioned(nfa, seen, View(destsNode, destsCh, ndests0))
    requires Room(nfa, S, seen + {n}, View(destsNode, destsCh, ndests0), k)
    requires IsEmptyBracket(nfa, n) ==> EmptyGroups(View(destsNode, destsCh, ndests0)) < k
    modifies destsNode, destsCh
    ensures ndests <= destsCh.Length && (!fits ==> Limit(nfa, S, k) > destsCh.Length)
    ensures fits ==> Partitioned(nfa, seen + {n}, View(destsNode, destsCh, ndests))
    ensures fits ==> Room(nfa, S, seen + {n}, View(destsNode, destsCh, ndests), k)
    ensures fits ==>
              EmptyGroups(View(destsNode, destsCh, ndests)) ==
              old(EmptyGroups(View(destsNode, destsCh, ndests0))) + if IsEmptyBracket(nfa, n) then 1 else 0
  {
    hide Midway, Partitioned, Room, Limit;
    var accepts := AcceptSet(nfa.sx, nfa.nodes[n]);
    AcceptsOfNode(nfa, n);
    StartMidway(nfa, seen, n, View(destsNode, destsCh, ndests0));
    fits, ndests := Spread(nfa, S, seen, k, n, destsNode, destsCh, ndests0, accepts);
  }

  /** The inner loop: the bytes of the node are taken out of `accepts` group by group. */
  method Spread(nfa: Nfa, ghost S: set<int>, ghost seen: set<int>, ghost k: nat, n: int,
                destsNode: array<seq<int>>, destsCh: array<set<Byte>>, ndests0: nat, accepts0: set<Byte>)
      returns (fits: bool, ndests: nat)
    requires nfa.Shape() && Consumes(nfa, n) && destsNode.Length == destsCh.Length && ndests0 <= destsCh.Length
    requires nfa.nodes[n].Character? ==> accepts0 <= {nfa.nodes[n].c}
    requires Midway(nfa, seen, n, View(destsNode, destsCh, ndests0), 0, accepts0)
    requires Room(nfa, S, seen + {n}, View(destsNode, destsCh, ndests0), k)
    requires accepts0 == {} ==> EmptyGroups(View(destsNode, destsCh, ndests0)) < k
    modifies destsNode, destsCh
    ensures ndests <= destsCh.Length && (!fits ==> Limit(nfa, S, k) > destsCh.Length)
    ensures fits ==> Partitioned(nfa, seen + {n}, View(destsNode, destsCh, ndests))
    ensures fits ==> Room(nfa, S, seen + {n}, View(destsNode, destsCh, ndests), k)
    ensures fits ==>
              EmptyGroups(View(destsNode, destsCh, ndests)) ==
              old(EmptyGroups(View(destsNode, destsCh, ndests0))) + if accepts0 == {} then 1 else 0
  {
    hide Midway, Partitioned, Room, EmptyGroups, View, Limit;
    fits, ndests := true, ndests0;
    var node := nfa.nodes[n];
    var accepts := accepts0;
    var j := 0;
    while j < ndests
      invariant fits && 0 <= j <= ndests <= destsCh.Length && (accepts == {} <==> accepts0 == {})
      invariant node.Character? ==> accepts <= {node.c}
      invariant Midway(nfa, seen, n, View(destsNode, destsCh, ndests), j, accepts)
      invariant Room(nfa, S, seen + {n}, View(destsNode, destsCh, ndests), k)
      invariant EmptyGroups(View(destsNode, destsCh, ndests)) == old(EmptyGroups(View(destsNode, destsCh, ndests0)))
      decreases destsCh.Length - j
    {
      if (node.Character? && node.c !in destsCh[j]) || accepts * destsCh[j] == {} {
        assert accepts * destsCh[j] == {};
        SkipGroup(nfa, seen, n, View(destsNode, destsCh, ndests), j, accepts);
      } else {
        fits, accepts, ndests := DivideGroup(nfa, S, seen, k, n, destsNode, destsCh, ndests, j, accepts);
        if !fits {
          return;
        }
        if accepts == {} {
          ConsumedAll(nfa, seen, n, View(destsNode, destsCh, ndests), j + 1);
          return;
        }
      }
      j := j + 1;
    }
    fits, ndests := AddGroup(nfa, S, seen, k, n, destsNode, destsCh, ndests, accepts);
  }

  /** Some bytes remain, or there were none: they form a new group. */
  method AddGroup(nfa: Nfa, ghost S: set<int>, ghost seen: set<int>, ghost k: nat, n: int,
                  destsNode: array<seq<int>>, destsCh: array<set<Byte>>, ndests0: nat, accepts: set<Byte>)
      returns (fits: bool, ndests: nat)
    requires nfa.Shape() && Consumes(nfa, n) && destsNode.Length == destsCh.Length && ndests0 <= destsCh.Length
    requires Midway(nfa, seen, n, View(destsNode, destsCh, ndests0), ndests0, accepts)
    requires Room(nfa, S, seen + {n}, View(destsNode, destsCh, ndests0), k)
    requires accepts == {} ==> EmptyGroups(View(destsNode, destsCh, ndests0)) < k
    modifies destsNode, destsCh
    ensures ndests <= destsCh.Length && (!fits ==> Limit(nfa, S, k) > destsCh.Length)
    ensures fits ==> Partitioned(nfa, seen + {n}, View(destsNode, destsCh, ndests))
    ensures fits ==> Room(nfa, S, seen + {n}, View(destsNode, destsCh, ndests), k)
    ensures fits ==>
              EmptyGroups(View(destsNode, destsCh, ndests)) ==
              old(EmptyGroups(View(destsNode, destsCh, ndests0))) + if accepts == {} then 1 else 0
  {
    hide *;
    ghost var groups := View(destsNode, destsCh, ndests0);
    NewGroup(nfa, seen, n, groups, accepts);
    NewGroupRoom(nfa, S, seen, n, groups, accepts, k);
    NewGroupFits(nfa, S, seen + {n}, groups + [Group(accepts, [n])], k);
    if ndests0 == destsCh.Length {
      return false, ndests0;
    }
    StoreGroup(destsNode, destsCh, ndests0, accepts, [n]);
    fits, ndests := true, ndests0 + 1;
  }

  method StoreGroup(destsNode: array<seq<int>>, destsCh: array<set<Byte>>, at: nat, ch: set<Byte>, nodes: seq<int>)
    requires destsNode.Length == destsCh.Length && at < destsCh.Length
    modifies destsNode, destsCh
    ensures View(destsNode, destsCh, at + 1) == old(View(destsNode, destsCh, at)) + [Group(ch, nodes)]
  {
    hide View;
    destsCh[at] := ch;
    destsNode[at] := nodes;
  }

  /** Let the node join group `j`; the bytes of the group that it does not accept go to a new group. */
  method DivideGroup(nfa: Nfa, ghost S: set<int>, ghost seen: set<int>, ghost k: nat, n: int,
                     destsNode: array<seq<int>>, destsCh: array<set<Byte>>, ndests0: nat, j: nat, accepts0: set<Byte>)
      returns (fits: bool, accepts: set<Byte>, ndests: nat)
    requires nfa.Shape() && destsNode.Length == destsCh.Length && j < ndests0 <= destsCh.Length
    requires Midway(nfa, seen, n, View(destsNode, destsCh, ndests0), j, accepts0) && accepts0 * destsCh[j] != {}
    requires Room(nfa, S, seen + {n}, View(destsNode, destsCh, ndests0), k)
    modifies destsNode, destsCh
    ensures accepts == accepts0 - old(destsCh[j]) && ndests0 <= ndests <= destsCh.Length
    ensures !fits ==> Limit(nfa, S, k) > destsCh.Length
    ensures fits ==> Midway(nfa, seen, n, View(destsNode, destsCh, ndests), j + 1, accepts)
    ensures fits ==> Room(nfa, S, seen + {n}, View(destsNode, destsCh, ndests), k)
    ensures fits ==>
              EmptyGroups(View(destsNode, destsCh, ndests)) ==
              old(EmptyGroups(View(destsNode, destsCh, ndests0)))
  {
    hide Room, Split, EmptyGroups, View, Midway, Limit, Reads, Nfa.Shape;
    ghost var groups := View(destsNode, destsCh, ndests0);
    accepts := accepts0 - destsCh[j];
    NodesOfGroup(nfa, seen, n, groups, j, accepts0);
    var here := new NodeSet.Copy(destsNode[j]);
    here.Insert(n);
    var joined := here.elems[..here.nelem];
    SplitGroup(nfa, seen, n, groups, j, accepts0, joined);
    SplitRoom(nfa, S, seen, n, groups, j, accepts0, joined, k);
    fits, ndests := StoreSplit(destsNode, destsCh, ndests0, j, accepts0, joined);
  }

  lemma NodesOfGroup(nfa: Nfa, seen: set<int>, n: int, groups: seq<Group>, j: nat, accepts: set<Byte>)
    requires nfa.Shape() && Midway(nfa, seen, n, groups, j, accepts) && j < |groups|
    ensures Sorted(groups[j].nodes)
  {
    assert GroupOk(nfa, seen, groups[j..][0]);
  }

  lemma SplitRoom(nfa: Nfa, S: set<int>, seen: set<int>, n: int, groups: seq<Group>, j: nat, accepts: set<Byte>,
                  nodes: seq<int>, k: nat)
    requires nfa.Shape() && Midway(nfa, seen, n, groups, j, accepts) && j < |groups| && accepts * groups[j].ch != {}
    requires Room(nfa, S, seen + {n}, groups, k)
    ensures var after := Split(groups, j, accepts, nodes);
            && Room(nfa, S, seen + {n}, after, k) && |after| <= Limit(nfa, S, k)
            && EmptyGroups(after) == EmptyGroups(groups)
  {
    hide Limit;
    var after := Split(groups, j, accepts, nodes);
    SplitSeparated(nfa, S, seen, n, groups, j, accepts, nodes);
    SplitEmpties(groups, j, accepts, nodes);
    SplitCovers(groups, j, accepts, nodes);
    forall b: Byte | InSomeGroup(after, b)
      ensures SomeReads(nfa, seen + {n}, b)
    {
      SomeReadsGrows(nfa, seen, n, b);
    }
    RoomFits(nfa, S, seen + {n}, after, k);
  }

  /** Cut group `j` down to what is in `accepts`, append the rest, and give it its new nodes. */
  method StoreSplit(destsNode: array<seq<int>>, destsCh: array<set<Byte>>, ndests0: nat, j: nat, accepts: set<Byte>,
                    joined: seq<int>)
      returns (fits: bool, ndests: nat)
    requires destsNode.Length == destsCh.Length && j < ndests0 <= destsCh.Length
    modifies destsNode, destsCh
    ensures ndests0 <= ndests <= destsCh.Length
    ensures fits <==> |old(Split(View(destsNode, destsCh, ndests0), j, accepts, joined))| <= destsCh.Length
    ensures fits ==>
              View(destsNode, destsCh, ndests) == old(Split(View(destsNode, destsCh, ndests0), j, accepts, joined))
  {
    ghost var groups := View(destsNode, destsCh, ndests0);
    fits, ndests := true, ndests0;
    var intersec, remains := accepts * destsCh[j], destsCh[j] - accepts;
    if remains != {} {
      if ndests == destsCh.Length {
        return false, ndests;
      }
      destsCh[ndests], destsCh[j] := remains, intersec;
      destsNode[ndests] := destsNode[j];
      ndests := ndests + 1;
    } else {
      NoRemains(destsCh[j], accepts);
    }
    destsNode[j] := joined;
    assert forall k :: 0 <= k < ndests ==> View(destsNode, destsCh, ndests)[k] == Split(groups, j, accepts, joined)[k];
  }

  lemma NoRemains(ch: set<Byte>, accepts: set<Byte>)
    requires ch - accepts == {}
    ensures accepts * ch == ch
  {
    forall b | b in ch
      ensures b in accepts
    {
      assert b !in ch - accepts;
    }
  }
}
