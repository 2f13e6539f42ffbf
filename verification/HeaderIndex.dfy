/** The open-addressing index of message headers: it agrees with scanning the header list. */
module HeaderIndex {
  import opened FiniteSets

  const HEADERHASHSIZE := 1019

  type Ascii = c: int | 0 <= c < 128
  type Name = seq<Ascii>
  type Body = seq<int>

  /** What the header parser hands over for one header: its name in lower case, and its body. */
  datatype Header = Header(name: Name, body: Body)

  // ----- the header list

  /** The bodies of a name, in list order: the meaning of a lookup. */
  function Bodies(hs: seq<Header>, name: Name): seq<Body> {
    if hs == [] then []
    else Bodies(hs[..|hs| - 1], name) + if hs[|hs| - 1].name == name then [hs[|hs| - 1].body] else []
  }

  function Names(hs: seq<Header>): set<Name> {
    set h | h in hs :: h.name
  }

  datatype Lookup = Found(bodies: seq<Body>) | Fail

  function Scan(hs: seq<Header>, name: Name): Lookup {
    if name in Names(hs) then Found(Bodies(hs, name)) else Fail
  }

  /** No header has a name that a scan does not find. */
  lemma ScanFails(hs: seq<Header>, name: Name)
    ensures Scan(hs, name) == Fail <==> forall i :: 0 <= i < |hs| ==> hs[i].name != name
  {
  }

  /** One more header puts its body behind those of its name, and touches no other name. */
  lemma ScanOneMore(hs: seq<Header>, h: Header, name: Name)
    ensures Scan([], name) == Fail
    ensures Scan(hs + [h], name) ==
            if h.name != name then Scan(hs, name)
            else match Scan(hs, name)
                 case Fail => Found([h.body])
                 case Found(bodies) => Found(bodies + [h.body])
  {
    assert (hs + [h])[..|hs|] == hs;
    NamesSnoc(hs, h);
    if name !in Names(hs) {
      NoBodies(hs, name);
    }
  }

  // ----- names in any spelling

  /** `c` is `name`, which holds no capital letter, with some of its letters made capital. */
  ghost predicate Spelling(c: Name, name: Name) {
    && |c| == |name|
    && forall i :: 0 <= i < |name| ==>
         && !(65 <= name[i] <= 90)
         && (c[i] == name[i] || (97 <= name[i] <= 122 && c[i] == name[i] - 32))
  }

  /** Every name is a spelling of exactly one such name, the one that lookups use. */
  lemma LowerIsSpelled(c: Name, name: Name)
    ensures Spelling(c, name) <==> name == ToLower(c)
  {
    if Spelling(c, name) {
      assert forall i :: 0 <= i < |name| ==> name[i] == ToLower(c)[i];
    }
  }

  // ----- hashing

  function ToLower(name: Name): (r: Name)
    ensures |r| == |name|
  {
    seq(|name|, i requires 0 <= i < |name| => if 65 <= name[i] <= 90 then name[i] + 32 else name[i])
  }

  /** Characters that end the hashed part of a name: control characters, space and colon. */
  predicate EndsHash(c: Ascii) {
    c < 32 || c == 127 || c == 32 || c == 58
  }

  /** The part of a name before the first character that ends hashing. */
  function HashedPart(name: Name): (r: Name)
    ensures r <= name && (forall k :: 0 <= k < |r| ==> !EndsHash(r[k])) && (|r| < |name| ==> EndsHash(name[|r|]))
  {
    if name == [] || EndsHash(name[0]) then [] else [name[0]] + HashedPart(name[1..])
  }

  /** A name read as a number in base 256. */
  function Base256(name: Name): nat {
    if name == [] then 0 else Base256(name[..|name| - 1]) * 256 + name[|name| - 1]
  }

  function Hash(name: Name, size: nat): (r: nat)
    requires size > 0
    ensures r < size
  {
    Base256(HashedPart(name)) % size
  }

  lemma {:induction false} AddMultiple(a: nat, q: nat, size: nat)
    requires size > 0
    ensures (a + q * size) % size == a % size
  {
    if q > 0 {
      AddMultiple(a, q - 1, size);
      var b := a + (q - 1) * size;
      assert a + q * size == b + size;
      AddOnce(b, size);
    }
  }

  lemma AddOnce(b: nat, size: nat)
    requires size > 0
    ensures (b + size) % size == b % size
  {
    var q, r := b / size, b % size;
    assert b + size == (q + 1) * size + r;
    Remainder(b + size, q + 1, r, size);
  }

  lemma Remainder(b: nat, q: nat, r: nat, size: nat)
    requires r < size && b == q * size + r
    ensures b % size == r
  {
    assert b == b / size * size + b % size;
    RemainderIsUnique(q, r, b / size, b % size, size);
  }

  lemma RemainderIsUnique(q: nat, r: nat, p: nat, s: nat, size: nat)
    requires r < size && s < size && q * size + r == p * size + s
    ensures r == s
  {
    assert (q - p) * size == s - r && (p - q) * size == r - s;
    if q > p {
      MultipleIsLarge(q - p, size);
    } else if q < p {
      MultipleIsLarge(p - q, size);
    }
  }

  lemma MultipleIsLarge(k: nat, size: nat)
    requires k > 0
    ensures k * size >= size
  {
  }

  /** Taking the remainder at every step does not change the last one. */
  lemma HashStep(name: Name, i: nat, size: nat)
    requires size > 0 && i < |name|
    ensures Base256(name[..i + 1]) % size == (Base256(name[..i]) % size * 256 + name[i]) % size
  {
    assert name[..i + 1][..i] == name[..i];
    var b, c := Base256(name[..i]), name[i];
    var q, r := b / size, b % size;
    assert b * 256 + c == (r * 256 + c) + (q * 256) * size;
    AddMultiple(r * 256 + c, q * 256, size);
  }

  lemma HashedPartEnds(name: Name, i: nat)
    requires i <= |name| && (forall k :: 0 <= k < i ==> !EndsHash(name[k])) && (i < |name| ==> EndsHash(name[i]))
    ensures HashedPart(name) == name[..i]
  {
  }

  /** One more character of the hashed part is one more base-256 digit, and the characters 0 to 32, 58
      and 127 end it. */
  lemma HashMeans(name: Name, c: Ascii, rest: Name, size: nat)
    requires size > 0 && forall k :: 0 <= k < |name| ==> 32 < name[k] < 127 && name[k] != 58
    ensures Hash([], size) == 0
    ensures 32 < c < 127 && c != 58 ==> Hash(name + [c], size) == (Hash(name, size) * 256 + c) % size
    ensures c <= 32 || c == 58 || c == 127 ==> Hash(name + [c] + rest, size) == Hash(name, size)
  {
    var longer := name + [c];
    HashOfNothing(size);
    HashedPartEnds(name, |name|);
    assert name[..|name|] == name && longer[..|name|] == name && longer[..|longer|] == longer;
    if 32 < c < 127 && c != 58 {
      HashedPartEnds(longer, |longer|);
      HashStep(longer, |name|, size);
    }
    if c <= 32 || c == 58 || c == 127 {
      HashedPartEnds(longer + rest, |name|);
      assert (longer + rest)[..|name|] == name;
    }
  }

  /** hashheader */
  method HashHeader(name: Name, size: nat) returns (x: nat)
    requires size > 0
    ensures x == Base256(HashedPart(name)) % size == Hash(name, size)
  {
    hide EndsHash, Base256;
    x := 0;
    var i := 0;
    HashOfNothing(size);
    while i < |name| && !EndsHash(name[i])
      invariant 0 <= i <= |name| && x == Base256(name[..i]) % size
      invariant forall k :: 0 <= k < i ==> !EndsHash(name[k])
    {
      HashStep(name, i, size);
      x := (x * 256 + name[i]) % size;
      i := i + 1;
    }
    HashedPartEnds(name, i);
  }

  lemma HashOfNothing(size: nat)
    requires size > 0
    ensures Base256([]) % size == 0
  {
  }

  // ----- the table as a value

  datatype Slot = Free | Used(name: Name, bodies: seq<Body>)

  type Table = t: seq<Slot> | |t| > 0 witness [Free]

  /** The slot `d` steps after the one that a name hashes to. */
  function Step(t: Table, name: Name, d: nat): (c: nat)
    requires d < |t|
    ensures c < |t|
  {
    var c := Hash(name, |t|) + d;
    if c < |t| then c else c - |t|
  }

  /** Probing goes up by one slot at a time and comes round at the end. */
  lemma StepMeans(t: Table, name: Name, d: nat)
    requires d < |t|
    ensures Step(t, name, d) == (Hash(name, |t|) + d) % |t|
  {
    var c := Hash(name, |t|) + d;
    Remainder(c, if c < |t| then 0 else 1, if c < |t| then c else c - |t|, |t|);
  }

  /** How many steps lead from the slot that a name hashes to, to slot `c`. */
  function Distance(t: Table, name: Name, c: nat): (d: nat)
    requires c < |t|
    ensures d < |t| && Step(t, name, d) == c
  {
    var h := Hash(name, |t|);
    if c >= h then c - h else c + |t| - h
  }

  /** A slot at which probing for a name ends. */
  predicate Stops(t: Table, name: Name, c: nat)
    requires c < |t|
  {
    t[c] == Free || t[c].name == name
  }

  /** Where probing ends, having passed `d` slots: back at the start if it finds nothing. */
  function ProbeFrom(t: Table, name: Name, d: nat): (c: nat)
    requires d <= |t|
    ensures c < |t|
    decreases |t| - d
  {
    if d == |t| then Hash(name, |t|)
    else if Stops(t, name, Step(t, name, d)) then Step(t, name, d)
    else ProbeFrom(t, name, d + 1)
  }

  function Probe(t: Table, name: Name): (c: nat)
    ensures c < |t|
  {
    ProbeFrom(t, name, 0)
  }

  /** What parseheader makes of one header: whatever occupies the slot where probing ends gets the body. */
  function Insert(t: Table, h: Header): (r: Table)
    ensures |r| == |t|
  {
    var c := Probe(t, h.name);
    t[c := if t[c] == Free then Used(h.name, [h.body]) else Used(t[c].name, t[c].bodies + [h.body])]
  }

  function Build(t: Table, hs: seq<Header>): (r: Table)
    ensures |r| == |t|
  {
    if hs == [] then t else Insert(Build(t, hs[..|hs| - 1]), hs[|hs| - 1])
  }

  function Empty(size: nat): (t: Table)
    requires size > 0
    ensures |t| == size && forall c :: 0 <= c < size ==> t[c] == Free
  {
    seq(size, i => Free)
  }

  function Get(t: Table, name: Name): Lookup {
    var c := Probe(t, name);
    if t[c] != Free && t[c].name == name then Found(t[c].bodies) else Fail
  }

  // ----- the invariant

  /** Every slot that probing for a stored name passes is in use. */
  predicate NoGaps(t: Table) {
    forall c, d: nat :: 0 <= c < |t| && t[c] != Free && d < Distance(t, t[c].name, c) ==>
        t[Step(t, t[c].name, d)] != Free
  }

  predicate Distinct(t: seq<Slot>) {
    forall c, d :: 0 <= c < |t| && 0 <= d < |t| && t[c] != Free && t[d] != Free && t[c].name == t[d].name ==> c == d
  }

  function Stored(t: seq<Slot>): set<Name> {
    set c | 0 <= c < |t| && t[c] != Free :: t[c].name
  }

  /** The table holds exactly the names of the list, each with its bodies in list order. */
  ghost predicate Agrees(t: Table, hs: seq<Header>) {
    && NoGaps(t) && Distinct(t)
    && Stored(t) == Names(hs)
    && forall c :: 0 <= c < |t| && t[c] != Free ==> t[c].bodies == Bodies(hs, t[c].name)
  }

  /** Where probing ends: at the first slot that stops it, or nowhere. */
  lemma {:induction false} ProbeEnds(t: Table, name: Name, d: nat)
    requires d <= |t|
    ensures var c := ProbeFrom(t, name, d);
      || (exists e: nat :: d <= e < |t| && c == Step(t, name, e) && Stops(t, name, c)
           && forall k: nat :: d <= k < e ==> !Stops(t, name, Step(t, name, k)))
      || (c == Hash(name, |t|) && forall k: nat :: d <= k < |t| ==> !Stops(t, name, Step(t, name, k)))
    decreases |t| - d
  {
    if d < |t| && !Stops(t, name, Step(t, name, d)) {
      ProbeEnds(t, name, d + 1);
    }
  }

  /** A stored name is found where it is stored. */
  lemma ProbeFinds(t: Table, c: nat)
    requires NoGaps(t) && Distinct(t) && c < |t| && t[c] != Free
    ensures Probe(t, t[c].name) == c
  {
    var name := t[c].name;
    ProbeEnds(t, name, 0);
    var d := Distance(t, name, c);
    assert Stops(t, name, Step(t, name, d));
    var e: nat :| e < |t| && Probe(t, name) == Step(t, name, e) && Stops(t, name, Step(t, name, e))
                  && forall k: nat :: k < e ==> !Stops(t, name, Step(t, name, k));
    assert e <= d;
    if e < d {
      assert t[Step(t, name, e)] != Free;
    }
  }

  /** A name that is not stored is not found, and probing for it ends at a free slot if there is one. */
  lemma ProbeMisses(t: Table, name: Name)
    requires name !in Stored(t)
    ensures var c := Probe(t, name);
      && (t[c] != Free ==> t[c].name != name)
      && (t[c] != Free ==> forall k :: 0 <= k < |t| ==> t[k] != Free)
      && (t[c] == Free ==> forall k: nat :: k < Distance(t, name, c) ==> t[Step(t, name, k)] != Free)
  {
    ProbeEnds(t, name, 0);
    var c := Probe(t, name);
    if t[c] != Free {
      assert t[c].name in Stored(t);
      forall k | 0 <= k < |t|
        ensures t[k] != Free
      {
        var d := Distance(t, name, k);
        assert !Stops(t, name, Step(t, name, d));
      }
    } else {
      var d := Distance(t, name, c);
      assert Stops(t, name, Step(t, name, d));
      forall k: nat | k < d
        ensures t[Step(t, name, k)] != Free
      {
        var e: nat :| e < |t| && c == Step(t, name, e) && forall k: nat :: k < e ==> !Stops(t, name, Step(t, name, k));
        assert e == d;
        assert !Stops(t, name, Step(t, name, k));
      }
    }
  }

  /** As many different names as slots are stored, if no slot is free. */
  lemma {:induction false} StoredCount(t: seq<Slot>)
    ensures |Stored(t)| <= |t|
    ensures Distinct(t) && (forall c :: 0 <= c < |t| ==> t[c] != Free) ==> |Stored(t)| == |t|
  {
    if t == [] {
      assert Stored(t) == {};
    } else {
      var n := |t| - 1;
      StoredCount(t[..n]);
      if t[n] == Free {
        assert Stored(t) == Stored(t[..n]);
      } else {
        assert Stored(t) == Stored(t[..n]) + {t[n].name};
        if Distinct(t) {
          assert t[n].name !in Stored(t[..n]);
        }
      }
    }
  }

  lemma NamesSnoc(hs: seq<Header>, h: Header)
    ensures Names(hs + [h]) == Names(hs) + {h.name}
    ensures Bodies(hs + [h], h.name) == Bodies(hs, h.name) + [h.body]
    ensures forall name :: name != h.name ==> Bodies(hs + [h], name) == Bodies(hs, name)
  {
    assert (hs + [h])[..|hs|] == hs;
    forall name | name in Names(hs) + {h.name}
      ensures name in Names(hs + [h])
    {
      if name in Names(hs) {
        var g :| g in hs && g.name == name;
        assert g in hs + [h];
      } else {
        assert h in hs + [h];
      }
    }
  }

  lemma {:induction false} NoBodies(hs: seq<Header>, name: Name)
    requires name !in Names(hs)
    ensures Bodies(hs, name) == []
  {
    if hs != [] {
      var n := |hs| - 1;
      NamesSnoc(hs[..n], hs[n]);
      assert hs == hs[..n] + [hs[n]];
      NoBodies(hs[..n], name);
    }
  }

  /** A name that the table does not hold yet finds a free slot, if there is room for it. */
  lemma FreeSlot(t: Table, hs: seq<Header>, h: Header)
    requires Agrees(t, hs) && h.name !in Names(hs) && |Names(hs + [h])| <= |t|
    ensures t[Probe(t, h.name)] == Free
  {
    ProbeMisses(t, h.name);
    NamesSnoc(hs, h);
    StoredCount(t);
  }

  /** The body of a name that is stored is appended to its bodies. */
  lemma InsertKnown(t: Table, hs: seq<Header>, h: Header)
    requires Agrees(t, hs) && h.name in Names(hs)
    ensures Agrees(Insert(t, h), hs + [h])
  {
    hide Hash, ProbeFrom, Bodies, Names;
    var c: nat :| c < |t| && t[c] != Free && t[c].name == h.name;
    ProbeFinds(t, c);
    NamesSnoc(hs, h);
    SameNames(t, Insert(t, h));
  }

  /** Which slots are in use, and for which names, is all that probing depends on. */
  lemma SameNames(t: Table, r: Table)
    requires |r| == |t| && Distinct(t) && NoGaps(t)
    requires forall c :: 0 <= c < |t| ==> (t[c] == Free <==> r[c] == Free) && (t[c] != Free ==> r[c].name == t[c].name)
    ensures Distinct(r) && NoGaps(r) && Stored(r) == Stored(t)
  {
    forall c | 0 <= c < |t| && t[c] != Free
      ensures t[c].name in Stored(r)
    {
      assert r[c].name == t[c].name;
    }
    forall c, d: nat | 0 <= c < |r| && r[c] != Free && d < Distance(r, r[c].name, c)
      ensures r[Step(r, r[c].name, d)] != Free
    {
      assert t[Step(t, t[c].name, d)] != Free;
    }
  }

  /** A name that is put into the first free slot on its way leaves no gap and repeats none. */
  lemma OccupyKeeps(t: Table, c: nat, name: Name, bodies: seq<Body>)
    requires NoGaps(t) && Distinct(t) && name !in Stored(t) && c < |t| && t[c] == Free
    requires forall k: nat :: k < Distance(t, name, c) ==> t[Step(t, name, k)] != Free
    ensures var r: Table := t[c := Used(name, bodies)]; NoGaps(r) && Distinct(r) && Stored(r) == Stored(t) + {name}
  {
    hide Hash;
    var r: Table := t[c := Used(name, bodies)];
    forall k | 0 <= k < |t| && t[k] != Free
      ensures t[k].name in Stored(r)
    {
      assert r[k] == t[k];
    }
    assert r[c].name in Stored(r);
    assert Distinct(r) by {
      assert forall k :: 0 <= k < |t| && t[k] != Free ==> t[k].name in Stored(t);
    }
    forall k, d: nat | 0 <= k < |r| && r[k] != Free && d < Distance(r, r[k].name, k)
      ensures r[Step(r, r[k].name, d)] != Free
    {
      assert t[Step(t, r[k].name, d)] != Free;
    }
  }

  /** A new name takes the first free slot on its way. */
  lemma InsertNew(t: Table, hs: seq<Header>, h: Header)
    requires Agrees(t, hs) && h.name !in Names(hs) && |Names(hs + [h])| <= |t|
    ensures Agrees(Insert(t, h), hs + [h])
  {
    hide Hash, ProbeFrom, Bodies, Names, Distance, Step, NoGaps, Distinct, Probe;
    FreeSlot(t, hs, h);
    ProbeMisses(t, h.name);
    NamesSnoc(hs, h);
    NoBodies(hs, h.name);
    OccupyKeeps(t, Probe(t, h.name), h.name, [h.body]);
  }

  /** The index of a list of headers whose different names fit in the table agrees with the list. */
  lemma {:induction false} BuildAgrees(hs: seq<Header>, size: nat)
    requires size > 0 && |Names(hs)| <= size
    ensures Agrees(Build(Empty(size), hs), hs)
  {
    if hs != [] {
      var n := |hs| - 1;
      var t := Build(Empty(size), hs[..n]);
      assert hs == hs[..n] + [hs[n]];
      NamesSnoc(hs[..n], hs[n]);
      SubsetSize(Names(hs[..n]), Names(hs));
      BuildAgrees(hs[..n], size);
      if hs[n].name in Names(hs[..n]) {
        InsertKnown(t, hs[..n], hs[n]);
      } else {
        InsertNew(t, hs[..n], hs[n]);
      }
    }
  }

  /** With every slot taken by another name, the body goes to the name whose slot the new one hashes to,
      and a lookup of the new name fails. */
  lemma FullTable(t: Table, h: Header)
    requires forall c :: 0 <= c < |t| ==> t[c] != Free && t[c].name != h.name
    ensures var c := Hash(h.name, |t|);
            Insert(t, h) == t[c := Used(t[c].name, t[c].bodies + [h.body])]
    ensures Get(t, h.name) == Fail
  {
    ProbeEnds(t, h.name, 0);
  }

  lemma AgreesThenGets(t: Table, hs: seq<Header>, name: Name)
    requires Agrees(t, hs)
    ensures Get(t, name) == Scan(hs, name)
  {
    if name in Names(hs) {
      var c: nat :| c < |t| && t[c] != Free && t[c].name == name;
      ProbeFinds(t, c);
    } else {
      ProbeMisses(t, name);
    }
  }

  /** Every lookup gives what a scan of the list gives. */
  ghost predicate AnswersAs(t: Table, hs: seq<Header>) {
    forall name :: Get(t, name) == Scan(hs, name)
  }

  /** The index answers every lookup as a scan of the list does exactly when the list has no more
      different names than the table has slots; the larger table for more of them does not exist. */
  lemma IndexAgreesExactlyWhen(hs: seq<Header>, size: nat)
    requires size > 0
    ensures AnswersAs(Build(Empty(size), hs), hs) <==> |Names(hs)| <= size
  {
    var t := Build(Empty(size), hs);
    if |Names(hs)| <= size {
      BuildAgrees(hs, size);
      forall name
        ensures Get(t, name) == Scan(hs, name)
      {
        AgreesThenGets(t, hs, name);
      }
    } else {
      StoredCount(t);
      if Names(hs) <= Stored(t) {
        SubsetSize(Names(hs), Stored(t));
      } else {
        var name :| name in Names(hs) && name !in Stored(t);
        ProbeMisses(t, name);
        assert Get(t, name) != Scan(hs, name);
      }
    }
  }

  // ----- the index in memory

  /** A cell of a NULL-terminated list of bodies. */
  datatype Cell = Null | Text(body: Body)

  /** header_t */
  class Entry {
    const name: Name
    var count: nat
    var space: nat
    var contents: array<Cell>

    ghost predicate Valid()
      reads this, contents
    {
      && count <= space && contents.Length == space + 1
      && (forall i :: 0 <= i < count ==> contents[i].Text?)
      && contents[count] == Null
    }

    ghost function Bodies(): seq<Body>
      requires Valid()
      reads this, contents
    {
      seq(count, i requires 0 <= i < count reads this, contents requires Valid() => contents[i].body)
    }

    /** The structure that the header parser fills for one header. */
    constructor (h: Header)
      ensures Valid() && name == h.name && Bodies() == [h.body] && fresh(contents)
    {
      name := h.name;
      count, space := 1, 1;
      contents := new Cell[2];
      new;
      contents[0] := Text(h.body);
      contents[1] := Null;
    }

    /** Adds a body behind the others and moves the terminating NULL, after making room if need be. */
    method Append(body: Body)
      requires Valid()
      modifies this`count, this`space, this`contents, contents
      ensures Valid() && Bodies() == old(Bodies()) + [body]
      ensures contents == old(contents) || fresh(contents)
      ensures space == if old(count) < old(space) then old(space) else old(space) + 8
    {
      if count < space {
        contents[count] := Text(body);
        count := count + 1;
        contents[count] := Null;
      } else {
        space := space + 8;
        var tmp := new Cell[space + 1];
        forall i | 0 <= i < contents.Length {
          tmp[i] := contents[i];
        }
        contents := tmp;
        contents[count] := Text(body);
        count := count + 1;
        contents[count] := Null;
      }
    }
  }

  /** What a probing loop knows at slot `c`, `d` steps from where it started. */
  ghost predicate Probing(t: Table, name: Name, c: nat, d: nat) {
    && d < |t| && c == Step(t, name, d) && Probe(t, name) == ProbeFrom(t, name, d)
    && forall k: nat :: k < d ==> !Stops(t, name, Step(t, name, k))
  }

  lemma ProbeStarts(t: Table, name: Name)
    ensures Probing(t, name, Hash(name, |t|), 0)
  {
  }

  /** One turn of a probing loop: to the next slot, or back to the start, where probing gives up. */
  lemma ProbeTurns(t: Table, name: Name, c: nat, d: nat, next: nat)
    requires c < |t| && Probing(t, name, c, d) && !Stops(t, name, c)
    requires next == if c + 1 < |t| then c + 1 else 0
    ensures d < |t|
    ensures next == Hash(name, |t|) ==> Probe(t, name) == next && !Stops(t, name, next)
    ensures next != Hash(name, |t|) ==> Probing(t, name, next, d + 1)
  {
    hide Base256, HashedPart;
    var h := Hash(name, |t|);
    assert h == Step(t, name, 0);
    assert Probe(t, name) == ProbeFrom(t, name, d + 1);
    if next == h {
      assert d + 1 == |t|;
    } else {
      assert d + 1 < |t| && next == Step(t, name, d + 1);
    }
  }

  lemma Wraps(c: nat, size: nat)
    requires c < size
    ensures (c + 1) % size == if c + 1 < size then c + 1 else 0
  {
    if c + 1 < size {
      SmallRemainder(c + 1, size);
    }
  }

  lemma ProbeStops(t: Table, name: Name, c: nat, d: nat)
    requires c < |t| && Probing(t, name, c, d) && Stops(t, name, c)
    ensures Probe(t, name) == c
  {
  }

  lemma SmallRemainder(c: nat, size: nat)
    requires c < size
    ensures c % size == c
  {
  }

  const SIEVE2_OK := 0
  const SIEVE2_ERROR_HEADER := 11
  const SIEVE2_ERROR_FAIL := 2

  /** sieve2_message_t */
  class Message {
    const hash: array<Entry?>
    var hashfull: bool

    /** The entries and their lists of bodies. */
    ghost var Repr: set<object>

    ghost predicate Valid()
      reads this, hash, Repr
    {
      && hash.Length > 0 && hash !in Repr && this !in Repr
      && (forall c :: 0 <= c < hash.Length && hash[c] != null ==>
            hash[c] in Repr && hash[c].contents in Repr && hash[c].Valid())
      && (forall c, d :: 0 <= c < d < hash.Length && hash[c] != null && hash[d] != null ==>
            hash[c] != hash[d] && hash[c].contents != hash[d].contents)
    }

    ghost function SlotAt(c: nat): Slot
      requires Valid() && c < hash.Length
      reads this, hash, Repr
    {
      if hash[c] == null then Free else Used(hash[c].name, hash[c].Bodies())
    }

    /** The table that the index stands for. */
    ghost function View(): (t: Table)
      requires Valid()
      reads this, hash, Repr
      ensures |t| == hash.Length && forall c :: 0 <= c < |t| ==> t[c] == SlotAt(c)
    {
      seq(hash.Length, c requires 0 <= c < hash.Length requires Valid() reads this, hash, Repr => SlotAt(c))
    }

    /** libsieve_message2_alloc */
    constructor (size: nat)
      requires size > 0
      ensures Valid() && View() == Empty(size) && fresh(hash) && Repr == {} && !hashfull
    {
      hash := new Entry?[size](i => null);
      hashfull := false;
      Repr := {};
    }

    /** The probing loop of parseheader. */
    method Find(name: Name) returns (c: nat)
      requires Valid()
      ensures c == Probe(View(), name)
    {
      hide Hash, Probing, Probe;
      var start := HashHeader(name, hash.Length);
      ghost var t := View();
      ProbeStarts(t, name);
      c := start;
      ghost var d: nat := 0;
      while hash[c] != null && hash[c].name != name
        invariant c < |t| && Probing(t, name, c, d)
        decreases |t| - d
      {
        assert t[c] == SlotAt(c);
        Wraps(c, |t|);
        ProbeTurns(t, name, c, d, (c + 1) % |t|);
        c := (c + 1) % hash.Length;
        d := d + 1;
        if c == start {
          assert c == Probe(t, name) && t == View();
          return;
        }
      }
      assert t[c] == SlotAt(c);
      ProbeStops(t, name, c, d);
      assert t == View();
    }

    /** The body of the loop of parseheader. */
    method Add(h: Header)
      requires Valid()
      modifies `Repr, hash, Repr
      ensures Valid() && fresh(Repr - old(Repr))
      ensures View() == Insert(old(View()), h)
    {
      hide Hash, Probe;
      var c := Find(h.name);
      assert View()[c] == SlotAt(c);
      if hash[c] != null {
        AppendAt(c, h.body);
      } else {
        Occupy(c, h);
      }
    }

    /** Someone is already home: adds the body there. */
    method AppendAt(c: nat, body: Body)
      requires Valid() && c < hash.Length && hash[c] != null
      modifies `Repr, Repr
      ensures Valid() && fresh(Repr - old(Repr))
      ensures View() == old(View())[c := Used(hash[c].name, old(hash[c].Bodies()) + [body])]
    {
      hide Base256, HashedPart, Insert;
      hash[c].Append(body);
      Repr := Repr + {hash[c].contents};
      assert forall k :: 0 <= k < hash.Length && k != c && hash[k] != null ==>
                           hash[k].Valid() && hash[k].Bodies() == old(hash[k].Bodies());
    }

    /** A free slot: the parser's structure goes there. */
    method Occupy(c: nat, h: Header)
      requires Valid() && c < hash.Length && hash[c] == null
      modifies `Repr, hash
      ensures Valid() && fresh(Repr - old(Repr))
      ensures View() == old(View())[c := Used(h.name, [h.body])]
    {
      var entry := new Entry(h);
      hash[c] := entry;
      Repr := Repr + {entry, entry.contents};
      assert forall k :: 0 <= k < hash.Length && k != c ==> SlotAt(k) == old(SlotAt(k));
    }

    /** libsieve_message2_parseheader, given what the header parser found. */
    method ParseHeader(hs: seq<Header>) returns (res: int)
      requires Valid()
      modifies `hashfull, `Repr, hash, Repr
      ensures Valid() && View() == Build(old(View()), hs)
      ensures res == if hs == [] then 11 else 0
      ensures hashfull == (old(hashfull) || hs != [])
    {
      if hs == [] {
        return SIEVE2_ERROR_HEADER;
      }
      AddAll(hs);
      hashfull := true;
      res := SIEVE2_OK;
    }

    /** The loop of parseheader. */
    method AddAll(hs: seq<Header>)
      requires Valid()
      modifies `Repr, hash, Repr
      ensures Valid() && fresh(Repr - old(Repr))
      ensures View() == Build(old(View()), hs)
    {
      hide Insert, Empty, Hash, View, SlotAt, Valid;
      var i := 0;
      while i < |hs|
        invariant 0 <= i <= |hs|
        invariant Valid() && fresh(Repr - old(Repr))
        invariant View() == Build(old(View()), hs[..i])
      {
        Add(hs[i]);
        assert hs[..i + 1][..i] == hs[..i];
        i := i + 1;
      }
      assert hs[..|hs|] == hs;
    }

    /** getheader */
    method GetHeader(chead: Name) returns (res: int, body: array?<Cell>)
      requires Valid()
      ensures res == if body == null then 2 else 0
      ensures Returned(body, Get(View(), ToLower(chead)))
      ensures forall name :: Spelling(chead, name) ==> Returned(body, Get(View(), name))
    {
      hide Spelling;
      forall name | Spelling(chead, name)
        ensures name == ToLower(chead)
      {
        LowerIsSpelled(chead, name);
      }
      hide Hash, Probing, Probe;
      body := null;
      var head := ToLower(chead);
      var start := HashHeader(head, hash.Length);
      ghost var t := View();
      ProbeStarts(t, head);
      var c: nat := start;
      ghost var d: nat := 0;
      while hash[c] != null
        invariant c < |t| && Probing(t, head, c, d) && body == null
        decreases |t| - d
      {
        assert t[c] == SlotAt(c);
        if head == hash[c].name {
          body := hash[c].contents;
          break;
        }
        Wraps(c, |t|);
        ProbeTurns(t, head, c, d, (c + 1) % |t|);
        c := (c + 1) % hash.Length;
        d := d + 1;
        if c == start {
          assert Get(t, head) == Fail && t == View();
          return SIEVE2_ERROR_FAIL, null;
        }
      }
      assert t[c] == SlotAt(c);
      ProbeStops(t, head, c, d);
      assert t == View();
      res := if body != null then SIEVE2_OK else SIEVE2_ERROR_FAIL;
    }
  }

  /** A lookup hands out the bodies it found, ended by NULL, and nothing if it found none. */
  ghost predicate Returned(body: array?<Cell>, found: Lookup)
    reads body
  {
    match found
    case Fail => body == null
    case Found(bodies) =>
      && body != null && |bodies| < body.Length && body[|bodies|] == Null
      && forall i :: 0 <= i < |bodies| ==> body[i] == Text(bodies[i])
  }

  /** A fresh index filled from a list of headers stands for the table built from it. */
  method Parsed(hs: seq<Header>, size: nat) returns (message: Message)
    requires size > 0
    ensures message.Valid() && message.View() == Build(Empty(size), hs)
  {
    hide Build, Empty;
    message := new Message(size);
    var _ := message.ParseHeader(hs);
  }

  /** Filling a fresh index and asking it, for the name in any spelling: what comes back is what a scan
      of the headers finds, if the index has room for their names. */
  method ParseAndGet(hs: seq<Header>, chead: Name) returns (res: int, body: array?<Cell>)
    ensures Spelling(chead, ToLower(chead))
    ensures forall name :: Spelling(chead, name) ==> Returned(body, Get(Build(Empty(1019), hs), name))
    ensures |Names(hs)| <= 1019 ==> forall name :: Spelling(chead, name) ==> Returned(body, Scan(hs, name))
    ensures res == if body == null then 2 else 0
  {
    LowerIsSpelled(chead, ToLower(chead));
    hide Build, Empty, Get, ToLower, Names, Scan, Agrees, Spelling;
    forall name | Spelling(chead, name)
      ensures name == ToLower(chead)
    {
      LowerIsSpelled(chead, name);
    }
    var message := Parsed(hs, HEADERHASHSIZE);
    ghost var t := message.View();
    if |Names(hs)| <= HEADERHASHSIZE {
      BuildAgrees(hs, HEADERHASHSIZE);
      AgreesThenGets(t, hs, ToLower(chead));
    }
    res, body := message.GetHeader(chead);
    assert message.View() == t;
  }
}
