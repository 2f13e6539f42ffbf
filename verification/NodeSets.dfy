/** re_node_set: sets of node indices kept in non-decreasing arrays. Nothing in the source prevents
    an element from being stored twice, so only the order is an invariant. */
module NodeSets {

  ghost predicate Sorted(s: seq<int>) {
    forall i, j :: 0 <= i < j < |s| ==> s[i] <= s[j]
  }

  /** Merging two sorted lists; an element present in both is taken once from both. */
  function Merged(d: seq<int>, s: seq<int>): (r: seq<int>)
    decreases |d| + |s|
  {
    if d == [] then s
    else if s == [] then d
    else if d[0] < s[0] then [d[0]] + Merged(d[1..], s)
    else if s[0] < d[0] then [s[0]] + Merged(d, s[1..])
    else [d[0]] + Merged(d[1..], s[1..])
  }

  lemma SortedCons(x: int, r: seq<int>)
    requires Sorted(r) && forall y :: y in r ==> x <= y
    ensures Sorted([x] + r)
  {
    assert forall k :: 0 <= k < |r| ==> r[k] in r;
  }

  lemma {:induction false} MergedIsUnion(d: seq<int>, s: seq<int>)
    ensures forall x :: x in Merged(d, s) <==> x in d || x in s
    ensures Sorted(d) && Sorted(s) ==> Sorted(Merged(d, s))
    ensures Merged(d, s) == [] <==> d == [] && s == []
    decreases |d| + |s|
  {
    if d != [] && s != [] {
      assert d == [d[0]] + d[1..] && s == [s[0]] + s[1..];
      if d[0] < s[0] {
        MergedIsUnion(d[1..], s);
        if Sorted(d) && Sorted(s) {
          SortedCons(d[0], Merged(d[1..], s));
        }
      } else if s[0] < d[0] {
        MergedIsUnion(d, s[1..]);
        if Sorted(d) && Sorted(s) {
          SortedCons(s[0], Merged(d, s[1..]));
        }
      } else {
        MergedIsUnion(d[1..], s[1..]);
        if Sorted(d) && Sorted(s) {
          SortedCons(d[0], Merged(d[1..], s[1..]));
        }
      }
    }
  }

  /** One step of the merge, with what was copied before. */
  lemma MergedStep(before: seq<int>, d: seq<int>, s: seq<int>)
    requires d != [] && s != []
    ensures before + Merged(d, s) ==
      if s[0] < d[0] then before + [s[0]] + Merged(d, s[1..])
      else before + [d[0]] + Merged(d[1..], if d[0] == s[0] then s[1..] else s)
  {
  }

  lemma TakeDrop(s: seq<int>, j: nat, rest: seq<int>)
    requires 0 < j <= |s|
    ensures s[1..][j - 1..] == s[j..]
    ensures [s[0]] + (s[1..][..j - 1] + rest) == s[..j] + rest
  {
  }

  lemma {:induction false} MergedSkipsLeft(d: seq<int>, s: seq<int>, j: nat)
    requires j <= |d| && s != [] && forall i :: 0 <= i < j ==> d[i] < s[0]
    ensures Merged(d, s) == d[..j] + Merged(d[j..], s)
    decreases j
  {
    if j == 0 {
      assert d[..0] + Merged(d[0..], s) == Merged(d, s);
    } else {
      MergedSkipsLeft(d[1..], s, j - 1);
      TakeDrop(d, j, Merged(d[j..], s));
    }
  }

  lemma {:induction false} MergedTakesRight(d: seq<int>, s: seq<int>, j: nat)
    requires j <= |s| && d != [] && forall i :: 0 <= i < j ==> s[i] < d[0]
    ensures Merged(d, s) == s[..j] + Merged(d, s[j..])
    decreases j
  {
    if j == 0 {
      assert s[..0] + Merged(d, s[0..]) == Merged(d, s);
    } else {
      MergedTakesRight(d, s[1..], j - 1);
      TakeDrop(s, j, Merged(d, s[j..]));
    }
  }

  /** The position at which the binary searches stop: everything before it is smaller than `x`. */
  ghost predicate IsLowerBound(s: seq<int>, x: int, i: nat) {
    i <= |s| && (forall k :: 0 <= k < i ==> s[k] < x) && (forall k :: i <= k < |s| ==> x <= s[k])
  }

  predicate Increasing(s: seq<int>) {
    forall i, j :: 0 <= i < j < |s| ==> s[i] < s[j]
  }

  lemma IncreasingParts(s: seq<int>)
    requires Increasing(s)
    ensures Sorted(s)
    ensures s != [] ==> Increasing(s[1..]) && forall x :: x in s[1..] ==> s[0] < x
  {
  }

  lemma IncreasingCons(x: int, rest: seq<int>)
    requires Increasing(rest) && forall y :: y in rest ==> x < y
    ensures Increasing([x] + rest)
  {
    forall i, j | 0 <= i < j < |[x] + rest|
      ensures ([x] + rest)[i] < ([x] + rest)[j]
    {
      assert rest[j - 1] in rest;
    }
  }

  /** An element that both lists have once is in the merged list once. */
  lemma {:induction false} MergedIncreases(d: seq<int>, s: seq<int>)
    requires Increasing(d) && Increasing(s)
    ensures Increasing(Merged(d, s))
    decreases |d| + |s|
  {
    hide Increasing, Sorted;
    if d != [] && s != [] {
      IncreasingParts(d);
      IncreasingParts(s);
      var x := if d[0] <= s[0] then d[0] else s[0];
      var d', s' := if d[0] == x then d[1..] else d, if s[0] == x then s[1..] else s;
      MergedIncreases(d', s');
      assert Merged(d, s) == [x] + Merged(d', s');
      hide Merged;
      IncreasingParts(d');
      IncreasingParts(s');
      MergedIsUnion(d', s');
      assert forall y :: y in d' || y in s' ==> x < y;
      IncreasingCons(x, Merged(d', s'));
    }
  }

  ghost function InsertedAt(s: seq<int>, x: int, i: nat): seq<int>
    requires i <= |s|
  {
    s[..i] + [x] + s[i..]
  }

  lemma InsertedAtIsInsert(s: seq<int>, x: int, i: nat)
    requires Sorted(s) && i <= |s|
    requires (forall k :: 0 <= k < i ==> s[k] <= x) && (forall k :: i <= k < |s| ==> x <= s[k])
    ensures Sorted(InsertedAt(s, x, i))
    ensures forall y :: y in InsertedAt(s, x, i) <==> y == x || y in s
  {
    assert s == s[..i] + s[i..];
  }

  /** re_node_set_contains: index plus one, or zero. */
  method Contains(s: seq<int>, elem: int) returns (found: nat)
    requires Sorted(s)
    ensures found != 0 <==> elem in s
    ensures found != 0 ==> found <= |s| && s[found - 1] == elem
  {
    if |s| <= 0 {
      return 0;
    }
    var idx, right := 0, |s| - 1;
    while idx < right
      invariant 0 <= idx <= right < |s|
      invariant forall k :: 0 <= k < idx ==> s[k] < elem
      invariant forall k :: right < k < |s| ==> s[k] > elem || s[right] >= elem
    {
      var mid := (idx + right) / 2;
      if s[mid] < elem {
        idx := mid + 1;
      } else {
        right := mid;
      }
    }
    found := if s[idx] == elem then idx + 1 else 0;
  }

  /** re_node_set_compare */
  method Compare(s: seq<int>, t: seq<int>) returns (equal: bool)
    ensures equal <==> s == t
  {
    if |s| != |t| {
      return false;
    }
    for i := 0 to |s|
      invariant s[..i] == t[..i]
    {
      if s[i] != t[i] {
        return false;
      }
    }
    assert s == s[..|s|] && t == t[..|t|];
    equal := true;
  }

  /** A node set that is being built in its own array; `alloc` is the length of the array. */
  class NodeSet {
    var nelem: nat
    var elems: array<int>

    ghost predicate Valid()
      reads this, elems
    {
      nelem <= elems.Length && Sorted(elems[..nelem])
    }

    ghost function Contents(): seq<int>
      requires Valid()
      reads this, elems
    {
      elems[..nelem]
    }

    /** re_node_set_alloc */
    constructor (size: nat)
      ensures Valid() && fresh(elems) && Contents() == []
    {
      elems := new int[size];
      nelem := 0;
    }

    /** re_node_set_init_copy */
    constructor Copy(src: seq<int>)
      requires Sorted(src)
      ensures Valid() && fresh(elems) && Contents() == src
    {
      var copy := new int[|src|](i requires 0 <= i < |src| => src[i]);
      elems, nelem := copy, |src|;
      new;
      assert elems[..] == src;
    }

    /** re_node_set_init_union */
    constructor OfUnion(src1: seq<int>, src2: seq<int>)
      requires Sorted(src1) && Sorted(src2)
      ensures Valid() && fresh(elems) && Contents() == Merged(src1, src2)
    {
      hide Sorted;
      elems, nelem := new int[|src1| + |src2|], 0;
      new;
      var i1, i2 := 0, 0;
      while i1 < |src1| && i2 < |src2|
        invariant i1 <= |src1| && i2 <= |src2| && nelem <= i1 + i2 && elems.Length == |src1| + |src2|
        invariant fresh(elems)
        invariant elems[..nelem] + Merged(src1[i1..], src2[i2..]) == Merged(src1, src2)
        decreases |src1| - i1 + |src2| - i2
      {
        ghost var before := elems[..nelem];
        MergedStep(before, src1[i1..], src2[i2..]);
        assert src1[i1..][1..] == src1[i1 + 1..] && src2[i2..][1..] == src2[i2 + 1..];
        if src1[i1] > src2[i2] {
          elems[nelem] := src2[i2];
          i2 := i2 + 1;
        } else {
          elems[nelem] := src1[i1];
          if src1[i1] == src2[i2] {
            i2 := i2 + 1;
          }
          i1 := i1 + 1;
        }
        nelem := nelem + 1;
        assert elems[..nelem] == before + [elems[nelem - 1]];
      }
      if i1 < |src1| {
        assert src2[i2..] == [];
        Append(src1[i1..]);
      } else if i2 < |src2| {
        assert src1[i1..] == [];
        Append(src2[i2..]);
      } else {
        assert src1[i1..] == [] && src2[i2..] == [];
      }
      assert elems[..nelem] == Merged(src1, src2);
      MergedIsUnion(src1, src2);
    }

    /** memcpy (elems + at, part, |part|) */
    method CopyIn(at: nat, part: seq<int>)
      requires at + |part| <= elems.Length
      modifies elems
      ensures elems[..at] == old(elems[..at]) && elems[at..at + |part|] == part
      ensures elems[..at + |part|] == old(elems[..at]) + part
      ensures elems[at + |part|..] == old(elems[at + |part|..])
    {
      forall k | 0 <= k < |part| {
        elems[at + k] := part[k];
      }
    }

    method Append(part: seq<int>)
      requires nelem + |part| <= elems.Length
      modifies `nelem, elems
      ensures nelem == old(nelem) + |part| && elems[..nelem] == old(elems[..nelem]) + part
    {
      CopyIn(nelem, part);
      nelem := nelem + |part|;
    }

    /** The binary search shared by insert and merge. */
    method LowerBound(from: nat, elem: int) returns (idx: nat)
      requires nelem <= elems.Length && from <= nelem && Sorted(elems[from..nelem])
      ensures from <= idx <= nelem
      ensures forall k :: from <= k < idx ==> elems[k] < elem
      ensures forall k :: idx <= k < nelem ==> elem <= elems[k]
    {
      idx := from;
      var right := nelem;
      while idx < right
        invariant from <= idx <= right <= nelem
        invariant forall k :: from <= k < idx ==> elems[k] < elem
        invariant forall k :: right <= k < nelem ==> elem <= elems[k]
      {
        var mid := (idx + right) / 2;
        assert forall k :: from <= k < nelem ==> elems[k] == elems[from..nelem][k - from];
        if elems[mid] < elem {
          idx := mid + 1;
        } else {
          right := mid;
        }
      }
    }

    /** memmove (elems + at + n, elems + at, nelem - at) */
    method Shift(at: nat, n: nat)
      requires at <= nelem && nelem + n <= elems.Length
      modifies elems
      ensures elems[..at] == old(elems[..at]) && elems[at + n..nelem + n] == old(elems[at..nelem])
    {
      forall k | at + n <= k < nelem + n {
        elems[k] := elems[k - n];
      }
    }

    /** Give the array a new length, keeping the elements. */
    method Realloc(alloc: nat)
      requires nelem <= elems.Length && nelem <= alloc
      modifies `elems
      ensures fresh(elems) && elems.Length == alloc && elems[..nelem] == old(elems[..nelem])
    {
      var bigger := new int[alloc];
      forall k | 0 <= k < nelem {
        bigger[k] := elems[k];
      }
      elems := bigger;
    }

    /** re_node_set_insert */
    method Insert(elem: int)
      requires Valid()
      modifies this, elems
      ensures Valid() && (elems == old(elems) || fresh(elems))
      ensures exists i: nat :: IsLowerBound(old(Contents()), elem, i) &&
                Contents() == InsertedAt(old(Contents()), elem, i)
      ensures forall x :: x in Contents() <==> x == elem || x in old(Contents())
    {
      ghost var before := Contents();
      if elems.Length == 0 {
        elems := new int[1];
        elems[0], nelem := elem, 1;
        assert IsLowerBound(before, elem, 0) && elems[..1] == InsertedAt(before, elem, 0);
        return;
      }
      assert elems[0..nelem] == before;
      var idx := LowerBound(0, elem);
      InsertedAtIsInsert(before, elem, idx);
      if elems.Length < nelem + 1 {
        Realloc(elems.Length * 2);
      }
      OpenAndSet(idx, elem);
    }

    /** Move the tail by one and store the new element. */
    method OpenAndSet(idx: nat, elem: int)
      requires idx <= nelem < elems.Length
      modifies `nelem, elems
      ensures nelem == old(nelem) + 1 && elems[..nelem] == InsertedAt(old(elems[..nelem]), elem, idx)
    {
      ghost var before := elems[..nelem];
      Shift(idx, 1);
      assert elems[..idx] == before[..idx] && elems[idx + 1..nelem + 1] == before[idx..];
      elems[idx] := elem;
      nelem := nelem + 1;
      assert elems[..nelem] == elems[..idx] + [elem] + elems[idx + 1..nelem];
    }

    /** re_node_set_merge */
    method Merge(src: seq<int>)
      requires Valid() && Sorted(src)
      modifies this, elems
      ensures Valid() && (elems == old(elems) || fresh(elems))
      ensures Contents() == Merged(old(Contents()), src)
    {
      ghost var result := Merged(Contents(), src);
      MergedIsUnion(Contents(), src);
      if |src| == 0 {
        return;
      }
      if elems.Length < |src| + nelem {
        Realloc(2 * (|src| + elems.Length));
      }
      var si, di := MergeWhileBoth(src, result);
      if si < |src| {
        assert elems[di..nelem] == [];
        Append(src[si..]);
      } else {
        assert src[si..] == [] && elems[..nelem] == elems[..di] + elems[di..nelem];
      }
    }

    /** The main loop of the merge: it ends when one of the two sets has no more elements. */
    method MergeWhileBoth(src: seq<int>, ghost result: seq<int>) returns (si: nat, di: nat)
      requires nelem + |src| <= elems.Length && Sorted(elems[..nelem])
      requires Merged(elems[..nelem], src) == result
      modifies `nelem, elems
      ensures si <= |src| && di <= nelem && nelem + (|src| - si) <= elems.Length
      ensures si == |src| || di == nelem
      ensures elems[..di] + Merged(elems[di..nelem], src[si..]) == result
    {
      hide Merged, Sorted;
      si, di := 0, 0;
      assert elems[..0] == [] && elems[0..nelem] == elems[..nelem] && src[0..] == src;
      while si < |src| && di < nelem
        invariant si <= |src| && di <= nelem && nelem + (|src| - si) <= elems.Length
        invariant Sorted(elems[di..nelem])
        invariant elems[..di] + Merged(elems[di..nelem], src[si..]) == result
        decreases |src| - si, nelem - di
      {
        si, di := MergeTurn(src, si, di);
      }
    }

    /** One turn of that loop: past the smaller elements, then past an equal one or over a run of `src`. */
    method MergeTurn(src: seq<int>, si0: nat, from: nat) returns (si: nat, di: nat)
      requires si0 < |src| && from < nelem && nelem + (|src| - si0) <= elems.Length && Sorted(elems[from..nelem])
      modifies `nelem, elems
      ensures si0 <= si <= |src| && di <= nelem && nelem + (|src| - si) <= elems.Length
      ensures si == si0 ==> di == nelem
      ensures Sorted(elems[di..nelem])
      ensures elems[..di] + Merged(elems[di..nelem], src[si..])
           == old(elems[..from] + Merged(elems[from..nelem], src[si0..]))
    {
      hide Merged;
      si := si0;
      di := LowerBound(from, src[si]);
      SkipTo(src, si, from, di);
      if di >= nelem {
        return;
      }
      if elems[di] == src[si] {
        SkipEqual(src, si, di);
        di, si := di + 1, si + 1;
        return;
      }
      si, di := InsertRun(src, si, di);
    }

    /** An element that is in both sets is kept once. */
    lemma SkipEqual(src: seq<int>, si: nat, di: nat)
      requires di < nelem <= elems.Length && si < |src| && elems[di] == src[si] && Sorted(elems[di..nelem])
      ensures elems[..di + 1] + Merged(elems[di + 1..nelem], src[si + 1..]) ==
              elems[..di] + Merged(elems[di..nelem], src[si..])
      ensures Sorted(elems[di + 1..nelem])
    {
      MergedStep(elems[..di], elems[di..nelem], src[si..]);
      assert elems[di..nelem][1..] == elems[di + 1..nelem] && src[si..][1..] == src[si + 1..];
      assert elems[..di + 1] == elems[..di] + [elems[di]];
    }

    /** The elements that the binary search passed stay in front. */
    lemma SkipTo(src: seq<int>, si: nat, from: nat, at: nat)
      requires from <= at <= nelem <= elems.Length && si < |src| && Sorted(elems[from..nelem])
      requires forall k :: from <= k < at ==> elems[k] < src[si]
      ensures elems[..at] + Merged(elems[at..nelem], src[si..]) == elems[..from] + Merged(elems[from..nelem], src[si..])
      ensures Sorted(elems[at..nelem])
    {
      var d := elems[from..nelem];
      MergedSkipsLeft(d, src[si..], at - from);
      assert elems[..at] == elems[..from] + d[..at - from] && elems[at..nelem] == d[at - from..];
    }

    /** Copy the elements of `src` that are less than `elems[at]` to a gap made before it. */
    method InsertRun(src: seq<int>, from: nat, at: nat) returns (si: nat, di: nat)
      requires from < |src| && at < nelem && nelem + (|src| - from) <= elems.Length
      requires src[from] < elems[at] && Sorted(elems[at..nelem])
      modifies `nelem, elems
      ensures from < si <= |src| && di < nelem && nelem + (|src| - si) <= elems.Length
      ensures Sorted(elems[di..nelem])
      ensures elems[..di] + Merged(elems[di..nelem], src[si..])
           == old(elems[..at] + Merged(elems[at..nelem], src[from..]))
    {
      hide Merged, Sorted;
      ghost var done, d, s := elems[..at], elems[at..nelem], src[from..];
      si := from;
      while si < |src| && src[si] < elems[at]
        invariant from <= si <= |src|
        invariant forall k :: from <= k < si ==> src[k] < elems[at]
      {
        si := si + 1;
      }
      var ncp := si - from;
      MergedTakesRight(d, s, ncp);
      assert done + Merged(d, s) == done + s[..ncp] + Merged(d, s[ncp..]);
      assert src[from..si] == s[..ncp] && src[si..] == s[ncp..];
      OpenAndCopy(at, src[from..si]);
      di := at + ncp;
    }

    method OpenAndCopy(at: nat, part: seq<int>)
      requires at <= nelem && nelem + |part| <= elems.Length
      modifies `nelem, elems
      ensures nelem == old(nelem) + |part|
      ensures elems[..at + |part|] == old(elems[..at]) + part && elems[at + |part|..nelem] == old(elems[at..nelem])
    {
      Shift(at, |part|);
      ghost var moved := elems[at + |part|..];
      CopyIn(at, part);
      nelem := nelem + |part|;
      assert elems[at + |part|..nelem] == moved[..nelem - at - |part|];
    }

    /** re_node_set_add_intersect */
    method AddIntersect(src1: seq<int>, src2: seq<int>)
      requires Valid() && Sorted(src1) && Sorted(src2)
      modifies this, elems
      ensures Valid() && (elems == old(elems) || fresh(elems))
      ensures forall x :: x in Contents() <==> x in old(Contents()) || (x in src1 && x in src2)
    {
      if |src1| > 0 && |src2| > 0 {
        if |src1| + |src2| + nelem > elems.Length {
          Realloc(|src1| + |src2| + nelem);
        }
      } else {
        return;
      }
      hide CommonIn, Sorted;
      ghost var before := Contents();
      NothingCommonYet(before, src1, src2);
      var i1: nat, i2: nat, id: nat := 0, 0, 0;
      ghost var last := 0;
      while i1 < |src1| && i2 < |src2|
        invariant i1 <= |src1| && i2 <= |src2| && id <= nelem
        invariant nelem <= |before| + i2 && |before| + |src2| <= elems.Length
        invariant elems == old(elems) || fresh(elems)
        invariant Sorted(elems[..nelem])
        invariant Passed(elems[..nelem], id, last, src1, i1) && Passed(elems[..nelem], id, last, src2, i2)
        invariant GrownBy(before, elems[..nelem], src1, src2)
        invariant CommonIn(elems[..nelem], src1, i1, src2) && CommonIn(elems[..nelem], src2, i2, src1)
        decreases |src1| - i1 + |src2| - i2
      {
        if src1[i1] > src2[i2] {
          SkipKeepsCommon(elems[..nelem], src1, i1, src2, i2);
          i2 := i2 + 1;
          continue;
        }
        if src1[i1] == src2[i2] {
          ghost var s := elems[..nelem];
          last := src2[i2];
          var inserted;
          id, inserted := AddCommon(id, src2[i2]);
          AddKeepsCommon(before, s, elems[..nelem], last, src1, i1, src2, i2);
          if inserted {
            i2 := i2 + 1;
          }
        } else {
          SkipKeepsCommon(elems[..nelem], src2, i2, src1, i1);
        }
        i1 := i1 + 1;
      }
      CommonAll(elems[..nelem], src1, i1, src2, i2);
    }

    /** Scan on from `from` to the place of `x` and put it there if it is missing. */
    method AddCommon(from: nat, x: int) returns (id: nat, inserted: bool)
      requires from <= nelem < elems.Length && Sorted(elems[..nelem])
      requires forall k :: 0 <= k < from ==> elems[k] <= x
      modifies `nelem, elems
      ensures nelem == old(nelem) + (if inserted then 1 else 0) && id <= nelem
      ensures Sorted(elems[..nelem]) && forall k :: 0 <= k < id ==> elems[k] <= x
      ensures forall y :: y in elems[..nelem] <==> y == x || y in old(elems[..nelem])
    {
      ghost var s := elems[..nelem];
      id := from;
      while id < nelem && elems[id] < x
        invariant from <= id <= nelem
        invariant forall k :: 0 <= k < id ==> elems[k] <= x
      {
        id := id + 1;
      }
      if id < nelem && elems[id] == x {
        assert s[id] == x;
        id, inserted := id + 1, false;
      } else {
        assert forall k :: id <= k < nelem ==> x <= s[k];
        InsertedAtIsInsert(s, x, id);
        OpenAndSet(id, x);
        assert forall k :: 0 <= k < nelem ==> elems[k] == InsertedAt(s, x, id)[k];
        id, inserted := id + 1, true;
      }
    }
  }

  /** The scan position `id` is past nothing that is greater than what `src` still has to offer. */
  ghost predicate Passed(s: seq<int>, id: nat, last: int, src: seq<int>, i: nat) {
    id <= |s| && (forall k :: 0 <= k < id ==> s[k] <= last) && (id > 0 && i < |src| ==> last <= src[i])
  }

  ghost predicate GrownBy(before: seq<int>, s: seq<int>, src1: seq<int>, src2: seq<int>) {
    (forall x :: x in before ==> x in s) && (forall x :: x in s ==> x in before || (x in src1 && x in src2))
  }

  /** The first `i` elements of `src1` that are also in `src2` are in `s`. */
  ghost predicate CommonIn(s: seq<int>, src1: seq<int>, i: nat, src2: seq<int>) {
    forall a :: 0 <= a < i && a < |src1| && src1[a] in src2 ==> src1[a] in s
  }

  /** Dropping `src2[i2]` because it is less than `src1[i1]` misses no common element. */
  lemma SkipKeepsCommon(s: seq<int>, src1: seq<int>, i1: nat, src2: seq<int>, i2: nat)
    requires Sorted(src1) && i1 < |src1| && i2 < |src2| && src2[i2] < src1[i1]
    requires CommonIn(s, src1, i1, src2) && CommonIn(s, src2, i2, src1)
    ensures CommonIn(s, src2, i2 + 1, src1)
  {
    if src2[i2] in src1 {
      var a :| 0 <= a < |src1| && src1[a] == src2[i2];
      assert a < i1;
    }
  }

  lemma AddKeepsCommon(before: seq<int>, s: seq<int>, r: seq<int>, x: int, src1: seq<int>, i1: nat, src2: seq<int>,
                       i2: nat)
    requires i1 < |src1| && i2 < |src2| && x == src1[i1] == src2[i2]
    requires forall y :: y in r <==> y == x || y in s
    requires GrownBy(before, s, src1, src2)
    requires CommonIn(s, src1, i1, src2) && CommonIn(s, src2, i2, src1)
    ensures GrownBy(before, r, src1, src2)
    ensures CommonIn(r, src1, i1 + 1, src2) && CommonIn(r, src2, i2 + 1, src1)
  {
    assert src1[i1] in src1 && src2[i2] in src2;
    assert forall y :: y in s ==> y in r;
  }

  lemma NothingCommonYet(s: seq<int>, src1: seq<int>, src2: seq<int>)
    ensures CommonIn(s, src1, 0, src2) && CommonIn(s, src2, 0, src1)
  {
  }

  lemma CommonAll(s: seq<int>, src1: seq<int>, i1: nat, src2: seq<int>, i2: nat)
    requires CommonIn(s, src1, i1, src2) && CommonIn(s, src2, i2, src1)
    requires i1 == |src1| || i2 == |src2|
    ensures forall x :: x in src1 && x in src2 ==> x in s
  {
  }
}
