/** The `:matches` and `:contains` comparators: octet_matches_ and ascii_casemap_contains. */
module Comparator {
  import opened Language

  const STAR: Byte := 42
  const QUERY: Byte := 63
  const BACKSLASH: Byte := 92

  /** toupper in the C locale */
  function Upper(b: Byte): Byte {
    if 97 <= b <= 122 then b - 32 else b
  }

  predicate SameChar(a: Byte, b: Byte, casemap: bool) {
    if casemap then Upper(a) == Upper(b) else a == b
  }

  /** A C string holds no NUL before its end. */
  predicate NoNul(s: seq<Byte>) {
    forall i :: 0 <= i < |s| ==> s[i] != 0
  }

  /** Every backslash is followed by a character. */
  predicate Complete(pat: seq<Byte>) {
    if pat == [] then true
    else if pat[0] == BACKSLASH then |pat| >= 2 && Complete(pat[2..])
    else Complete(pat[1..])
  }

  /** Section 2.7.1 of RFC 3028: `*` stands for any characters, `?` for one, and a backslash makes the
      character after it stand for itself. */
  ghost predicate Matches(pat: seq<Byte>, text: seq<Byte>, casemap: bool)
    requires Complete(pat)
    decreases |pat|
  {
    if pat == [] then text == []
    else if pat[0] == STAR then exists k :: 0 <= k <= |text| && Matches(pat[1..], text[k..], casemap)
    else if pat[0] == QUERY then text != [] && Matches(pat[1..], text[1..], casemap)
    else if pat[0] == BACKSLASH then
      text != [] && SameChar(pat[1], text[0], casemap) && Matches(pat[2..], text[1..], casemap)
    else text != [] && SameChar(pat[0], text[0], casemap) && Matches(pat[1..], text[1..], casemap)
  }

  /** What octet_matches_ comes to: the code gives an answer, or it reads on behind the NUL that ends
      the pattern. */
  datatype Scan = Answer(matches: bool) | PastEnd

  /** The code gets through the whole pattern. This differs from the standard in one place: a backslash
      and the character after it stand for a backslash. If the last character is a backslash of its
      own, the code takes the NUL for the character after it. */
  ghost predicate CodeMatches(pat: seq<Byte>, text: seq<Byte>, casemap: bool)
    decreases |pat|
  {
    if pat == [] then text == []
    else if pat[0] == STAR then exists k :: 0 <= k <= |text| && CodeMatches(pat[1..], text[k..], casemap)
    else if pat[0] == QUERY then text != [] && CodeMatches(pat[1..], text[1..], casemap)
    else if pat[0] == BACKSLASH then
      && text != []
      && SameChar(BACKSLASH, text[0], casemap)
      && (|pat| == 1 || CodeMatches(pat[2..], text[1..], casemap))
    else text != [] && SameChar(pat[0], text[0], casemap) && CodeMatches(pat[1..], text[1..], casemap)
  }

  // ----- what the two relations come to, in bytes

  /** The same byte, or the two cases of a letter. */
  predicate SameLetter(a: Byte, b: Byte) {
    a == b || (65 <= a <= 90 && b == a + 32) || (97 <= a <= 122 && b == a - 32)
  }

  /** A pattern without wildcards and backslashes stands for itself, byte for byte or up to case. */
  lemma {:induction false} PlainMeans(pat: seq<Byte>, text: seq<Byte>)
    requires forall i :: 0 <= i < |pat| ==> pat[i] != 42 && pat[i] != 63 && pat[i] != 92
    ensures Complete(pat)
    ensures CodeMatches(pat, text, false) <==> pat == text
    ensures CodeMatches(pat, text, true) <==>
              |pat| == |text| && forall i :: 0 <= i < |pat| ==> SameLetter(pat[i], text[i])
    ensures forall casemap :: CodeMatches(pat, text, casemap) <==> Matches(pat, text, casemap)
    decreases |pat|
  {
    if pat != [] && text != [] {
      PlainMeans(pat[1..], text[1..]);
      assert pat == [pat[0]] + pat[1..] && text == [text[0]] + text[1..];
    } else if pat != [] {
      PlainMeans(pat[1..], text);
    }
  }

  /** A star stands for any bytes, in the code as in the standard. */
  lemma StarInBytes(rest: seq<Byte>, text: seq<Byte>, casemap: bool)
    ensures Complete([42] + rest) <==> Complete(rest)
    ensures CodeMatches([42] + rest, text, casemap) <==>
            exists k :: 0 <= k <= |text| && CodeMatches(rest, text[k..], casemap)
    ensures Complete(rest) ==>
              (Matches([42] + rest, text, casemap) <==>
               exists k :: 0 <= k <= |text| && Matches(rest, text[k..], casemap))
  {
    assert ([42] + rest)[1..] == rest;
  }

  /** A question mark stands for one byte. */
  lemma QueryInBytes(rest: seq<Byte>, text: seq<Byte>, casemap: bool)
    ensures CodeMatches([63] + rest, text, casemap) <==> text != [] && CodeMatches(rest, text[1..], casemap)
    ensures Complete([63] + rest) <==> Complete(rest)
    ensures Complete(rest) ==>
              (Matches([63] + rest, text, casemap) <==> text != [] && Matches(rest, text[1..], casemap))
  {
    assert ([63] + rest)[1..] == rest;
  }

  /** A backslash and a character stand for the backslash in the code, for the character in the standard. */
  lemma EscapeInBytes(c: Byte, rest: seq<Byte>, text: seq<Byte>, casemap: bool)
    ensures CodeMatches([92, c] + rest, text, casemap) <==>
            text != [] && text[0] == 92 && CodeMatches(rest, text[1..], casemap)
    ensures Complete([92, c] + rest) <==> Complete(rest)
    ensures Complete(rest) ==>
              (Matches([92, c] + rest, text, casemap) <==>
               && text != [] && (if casemap then SameLetter(c, text[0]) else c == text[0])
               && Matches(rest, text[1..], casemap))
  {
    assert ([92, c] + rest)[2..] == rest;
  }

  // ----- wildcards after a star

  ghost predicate SomeSuffix(rest: seq<Byte>, text: seq<Byte>, casemap: bool)
  {
    exists k :: 0 <= k <= |text| && CodeMatches(rest, text[k..], casemap)
  }

  lemma StarMeans(rest: seq<Byte>, text: seq<Byte>, casemap: bool)
    ensures CodeMatches([STAR] + rest, text, casemap) <==> SomeSuffix(rest, text, casemap)
  {
    assert ([STAR] + rest)[1..] == rest;
  }

  lemma SuffixUnfolds(rest: seq<Byte>, text: seq<Byte>, casemap: bool)
    ensures SomeSuffix(rest, text, casemap) <==>
            CodeMatches(rest, text, casemap) || (text != [] && SomeSuffix(rest, text[1..], casemap))
  {
    hide CodeMatches;
    assert text[0..] == text;
    if text != [] && SomeSuffix(rest, text[1..], casemap) {
      var k :| 0 <= k <= |text[1..]| && CodeMatches(rest, text[1..][k..], casemap);
      assert text[1..][k..] == text[k + 1..];
    }
    if SomeSuffix(rest, text, casemap) && !CodeMatches(rest, text, casemap) {
      var k :| 0 <= k <= |text| && CodeMatches(rest, text[k..], casemap);
      assert text[1..][k - 1..] == text[k..];
    }
  }

  lemma StarUnfolds(rest: seq<Byte>, text: seq<Byte>, casemap: bool)
    ensures CodeMatches([STAR] + rest, text, casemap) <==>
            CodeMatches(rest, text, casemap) || (text != [] && CodeMatches([STAR] + rest, text[1..], casemap))
  {
    StarMeans(rest, text, casemap);
    SuffixUnfolds(rest, text, casemap);
    if text != [] {
      StarMeans(rest, text[1..], casemap);
    }
  }

  /** A star after a star adds nothing. */
  lemma StarStar(rest: seq<Byte>, text: seq<Byte>, casemap: bool)
    ensures CodeMatches([STAR] + ([STAR] + rest), text, casemap) <==> CodeMatches([STAR] + rest, text, casemap)
    decreases |text|
  {
    StarUnfolds(rest, text, casemap);
    StarUnfolds([STAR] + rest, text, casemap);
    if text != [] {
      StarStar(rest, text[1..], casemap);
    }
  }

  /** A question mark after a star eats one character. */
  lemma StarQuery(rest: seq<Byte>, text: seq<Byte>, casemap: bool)
    ensures CodeMatches([STAR] + ([QUERY] + rest), text, casemap) <==>
            text != [] && CodeMatches([STAR] + rest, text[1..], casemap)
    decreases |text|
  {
    assert ([QUERY] + rest)[1..] == rest;
    StarUnfolds(rest, text, casemap);
    StarUnfolds([QUERY] + rest, text, casemap);
    if text != [] {
      StarUnfolds(rest, text[1..], casemap);
      StarQuery(rest, text[1..], casemap);
    }
  }

  lemma StarAtEnd(text: seq<Byte>, casemap: bool)
    ensures CodeMatches([STAR], text, casemap)
  {
    assert text[|text|..] == [];
    assert CodeMatches([STAR][1..], text[|text|..], casemap);
  }

  /** The rest of the pattern and the character before it, as the code holds them after `c = *p++`. */
  lemma SplitFirst(pat: seq<Byte>, p: nat)
    requires p < |pat|
    ensures pat[p..] == [pat[p]] + pat[p + 1..] && pat[p..][1..] == pat[p + 1..]
  {
  }

  /** The inner loop of the `*` case: wildcards that follow are coalesced. */
  method Coalesce(pat: seq<Byte>, text: seq<Byte>, casemap: bool, p0: nat, t0: nat)
      returns (p: nat, t: nat, fails: bool)
    requires p0 <= |pat| && t0 <= |text|
    ensures p0 <= p <= |pat| && t0 <= t <= |text| && (Complete(pat[p..]) <==> Complete(pat[p0..]))
    ensures fails ==> !CodeMatches([STAR] + pat[p0..], text[t0..], casemap)
    ensures !fails ==> (CodeMatches([STAR] + pat[p0..], text[t0..], casemap) <==>
              CodeMatches([STAR] + pat[p..], text[t..], casemap))
    ensures !fails && p < |pat| ==> pat[p] != STAR && pat[p] != QUERY
  {
    hide CodeMatches;
    p, t, fails := p0, t0, false;
    while p < |pat| && (pat[p] == STAR || pat[p] == QUERY)
      invariant p0 <= p <= |pat| && t0 <= t <= |text| && (Complete(pat[p..]) <==> Complete(pat[p0..]))
      invariant CodeMatches([STAR] + pat[p0..], text[t0..], casemap) <==>
                CodeMatches([STAR] + pat[p..], text[t..], casemap)
      decreases |pat| - p
    {
      WildcardAfterStar(pat, text, casemap, p, t);
      if pat[p] == QUERY {
        if t == |text| {
          fails := true;
          return;
        }
        t := t + 1;
      }
      p := p + 1;
    }
  }

  /** One wildcard after a star. */
  lemma WildcardAfterStar(pat: seq<Byte>, text: seq<Byte>, casemap: bool, p: nat, t: nat)
    requires p < |pat| && t <= |text| && (pat[p] == STAR || pat[p] == QUERY)
    ensures Complete(pat[p..]) <==> Complete(pat[p + 1..])
    ensures pat[p] == QUERY && t == |text| ==> !CodeMatches([STAR] + pat[p..], text[t..], casemap)
    ensures pat[p] == STAR || t < |text| ==>
              (CodeMatches([STAR] + pat[p..], text[t..], casemap) <==>
               CodeMatches([STAR] + pat[p + 1..], text[if pat[p] == STAR then t else t + 1..], casemap))
  {
    SplitFirst(pat, p);
    if pat[p] == STAR {
      StarStar(pat[p + 1..], text[t..], casemap);
    } else {
      StarQuery(pat[p + 1..], text[t..], casemap);
      assert t < |text| ==> text[t..][1..] == text[t + 1..];
    }
  }

  /** octet_matches_ */
  method OctetMatches(pat: seq<Byte>, text: seq<Byte>, casemap: bool) returns (r: Scan)
    requires NoNul(pat) && NoNul(text)
    ensures r == if CodeMatches(pat, text, casemap) && !Complete(pat) then PastEnd
                 else Answer(CodeMatches(pat, text, casemap))
    decreases |pat|, 1
  {
    hide CodeMatches;
    var p: nat, t: nat := 0, 0;
    assert pat[0..] == pat && text[0..] == text;
    while true
      invariant p <= |pat| + 1 && t <= |text|
      invariant p <= |pat| ==> (Complete(pat[p..]) <==> Complete(pat))
      invariant p <= |pat| ==> (CodeMatches(pat[p..], text[t..], casemap) <==> CodeMatches(pat, text, casemap))
      invariant p == |pat| + 1 ==> !Complete(pat) && CodeMatches(pat, text, casemap)
      decreases |pat| - p
    {
      if p == |pat| + 1 {
        return PastEnd;
      }
      if p == |pat| {
        NothingLeft(text[t..], casemap);
        return Answer(t == |text|);
      }
      var c := pat[p];
      CharacterMeans(pat, text, casemap, p, t);
      SplitFirst(pat, p);
      p := p + 1;
      if c == QUERY {
        if t == |text| {
          return Answer(false);
        }
        t := t + 1;
      } else {
        if c == STAR {
          var fails;
          p, t, fails := Coalesce(pat, text, casemap, p, t);
          if fails {
            return Answer(false);
          }
          if p == |pat| {
            assert pat[p..] == [] && [STAR] + [] == [STAR];
            StarAtEnd(text[t..], casemap);
            return Answer(true);
          }
          t, r := TryEverywhere(pat, p, text, casemap, t);
          if r != Answer(false) {
            return;
          }
          p := p + 1;
        } else if c == BACKSLASH {
          p := p + 1;
        }
        var tc := if t < |text| then text[t] else 0;
        if !SameChar(c, tc, casemap) {
          return Answer(false);
        }
        t := t + 1;
      }
    }
  }

  lemma NothingLeft(text: seq<Byte>, casemap: bool)
    ensures CodeMatches([], text, casemap) <==> text == []
  {
  }

  /** What a pattern that starts at `p` with anything but a star asks of the text from `t` on. */
  lemma CharacterMeans(pat: seq<Byte>, text: seq<Byte>, casemap: bool, p: nat, t: nat)
    requires p < |pat| && t <= |text|
    ensures
      var c, next := pat[p], if pat[p] == BACKSLASH then p + 2 else p + 1;
      && (Complete(pat[p..]) <==> next <= |pat| && Complete(pat[next..]))
      && (c != STAR ==>
            (CodeMatches(pat[p..], text[t..], casemap) <==>
               && t < |text|
               && (c == QUERY || SameChar(c, text[t], casemap))
               && (next > |pat| || CodeMatches(pat[next..], text[t + 1..], casemap))))
  {
    SplitFirst(pat, p);
    if pat[p] == BACKSLASH {
      assert p + 1 < |pat| ==> pat[p..][2..] == pat[p + 2..];
    }
    if t < |text| {
      assert text[t..][0] == text[t] && text[t..][1..] == text[t + 1..];
    }
  }

  /** The second loop of the `*` case: the rest of the pattern is tried at every position. */
  method TryEverywhere(pat: seq<Byte>, p: nat, text: seq<Byte>, casemap: bool, t0: nat) returns (t: nat, r: Scan)
    requires NoNul(pat) && NoNul(text)
    requires 0 < p < |pat| && t0 <= |text| && pat[p] != STAR && pat[p] != QUERY
    ensures t <= |text|
    ensures var found := CodeMatches([STAR] + pat[p..], text[t0..], casemap);
            && r == (if found && !Complete(pat[p..]) then PastEnd else Answer(found))
            && (!found ==> t == |text|)
    decreases |pat|, 0
  {
    t, r := t0, Answer(false);
    StarUnfolds(pat[p..], text[t..], casemap);
    while t < |text|
      invariant t0 <= t <= |text|
      invariant r == Answer(false)
      invariant CodeMatches([STAR] + pat[p..], text[t0..], casemap) <==>
                CodeMatches([STAR] + pat[p..], text[t..], casemap)
    {
      r := OctetMatches(pat[p..], text[t..], casemap);
      StarUnfolds(pat[p..], text[t..], casemap);
      if r != Answer(false) {
        return;
      }
      assert text[t..][1..] == text[t + 1..];
      t := t + 1;
    }
    StarUnfolds(pat[p..], text[t..], casemap);
  }

  // ----- a pattern that ends in a backslash of its own

  lemma {:induction false} LastBackslash(pat: seq<Byte>)
    ensures !Complete(pat) <==> pat != [] && pat[|pat| - 1] == BACKSLASH && Complete(pat[..|pat| - 1])
    decreases |pat|
  {
    var n := if pat != [] && pat[0] == BACKSLASH then 2 else 1;
    if |pat| > n {
      LastBackslash(pat[n..]);
      assert pat[n..][..|pat[n..]| - 1] == pat[..|pat| - 1][n..];
    }
  }

  /** The code matches `pat` with the text before position `k`, where a backslash stands. */
  ghost predicate MatchedUpTo(pat: seq<Byte>, text: seq<Byte>, casemap: bool, k: nat) {
    k < |text| && CodeMatches(pat, text[..k], casemap) && text[k] == BACKSLASH
  }

  lemma {:induction false} PastEndNeeds(pat: seq<Byte>, text: seq<Byte>, casemap: bool) returns (k: nat)
    requires Complete(pat) && CodeMatches(pat + [BACKSLASH], text, casemap)
    ensures MatchedUpTo(pat, text, casemap, k)
    decreases |pat|
  {
    if pat == [] {
      k := 0;
    } else {
      var n := if pat[0] == BACKSLASH then 2 else 1;
      assert (pat + [BACKSLASH])[n..] == pat[n..] + [BACKSLASH];
      var j := 1;
      if pat[0] == STAR {
        j :| 0 <= j <= |text| && CodeMatches(pat[n..] + [BACKSLASH], text[j..], casemap);
      }
      k := PastEndNeeds(pat[n..], text[j..], casemap);
      assert text[..j + k][j..] == text[j..][..k];
      k := j + k;
    }
  }

  lemma {:induction false} PastEndSuffices(pat: seq<Byte>, text: seq<Byte>, casemap: bool, k: nat)
    requires Complete(pat) && MatchedUpTo(pat, text, casemap, k)
    ensures CodeMatches(pat + [BACKSLASH], text, casemap)
    decreases |pat|
  {
    if pat != [] {
      var n := if pat[0] == BACKSLASH then 2 else 1;
      assert (pat + [BACKSLASH])[n..] == pat[n..] + [BACKSLASH];
      var j := 1;
      if pat[0] == STAR {
        j :| 0 <= j <= k && CodeMatches(pat[n..], text[..k][j..], casemap);
      }
      assert text[..k][j..] == text[j..][..k - j];
      PastEndSuffices(pat[n..], text[j..], casemap, k - j);
    }
  }

  /** A pattern that ends in a backslash of its own is read past its end if and only if what stands
      before that backslash matches the text up to some backslash. */
  lemma PastEndExactlyWhen(before: seq<Byte>, text: seq<Byte>, casemap: bool)
    requires Complete(before)
    ensures !Complete(before + [BACKSLASH])
    ensures CodeMatches(before + [BACKSLASH], text, casemap) <==>
            exists k: nat :: MatchedUpTo(before, text, casemap, k)
  {
    var pat := before + [BACKSLASH];
    assert pat[..|pat| - 1] == before;
    LastBackslash(pat);
    if CodeMatches(pat, text, casemap) {
      var k := PastEndNeeds(before, text, casemap);
    }
    if k: nat :| MatchedUpTo(before, text, casemap, k) {
      PastEndSuffices(before, text, casemap, k);
    }
  }

  /** The shortest pattern that is read past its end: a backslash, on a text that is a backslash. */
  lemma BackslashPastEnd(casemap: bool)
    ensures !Complete([BACKSLASH]) && CodeMatches([BACKSLASH], [BACKSLASH], casemap)
  {
  }

  // ----- when the code agrees with the standard

  /** The only character that is escaped is the backslash itself. */
  predicate EscapesOnlyBackslash(pat: seq<Byte>)
    requires Complete(pat)
  {
    if pat == [] then true
    else if pat[0] == BACKSLASH then pat[1] == BACKSLASH && EscapesOnlyBackslash(pat[2..])
    else EscapesOnlyBackslash(pat[1..])
  }

  lemma {:induction false} AgreesIfOnlyBackslash(pat: seq<Byte>, text: seq<Byte>, casemap: bool)
    requires Complete(pat) && EscapesOnlyBackslash(pat)
    ensures CodeMatches(pat, text, casemap) <==> Matches(pat, text, casemap)
    decreases |pat|
  {
    if pat != [] {
      if pat[0] == STAR {
        forall k | 0 <= k <= |text|
          ensures CodeMatches(pat[1..], text[k..], casemap) <==> Matches(pat[1..], text[k..], casemap)
        {
          AgreesIfOnlyBackslash(pat[1..], text[k..], casemap);
        }
      } else if text != [] {
        AgreesIfOnlyBackslash(if pat[0] == BACKSLASH then pat[2..] else pat[1..], text[1..], casemap);
      }
    }
  }

  /** A shortest text that the code accepts: stars stand for nothing. */
  function Witness(pat: seq<Byte>): seq<Byte>
    requires Complete(pat)
  {
    if pat == [] then []
    else if pat[0] == STAR then Witness(pat[1..])
    else if pat[0] == BACKSLASH then [BACKSLASH] + Witness(pat[2..])
    else [pat[0]] + Witness(pat[1..])
  }

  lemma {:induction false} CodeAcceptsWitness(pat: seq<Byte>, casemap: bool)
    requires Complete(pat)
    ensures CodeMatches(pat, Witness(pat), casemap)
    decreases |pat|
  {
    if pat != [] {
      var next := if pat[0] == BACKSLASH then pat[2..] else pat[1..];
      CodeAcceptsWitness(next, casemap);
      assert Witness(pat)[0..] == Witness(pat);
      if pat[0] != STAR {
        assert Witness(pat)[1..] == Witness(next);
      }
    }
  }

  /** A text that the standard matches is at least as long as the witness; and a text of just that
      length leaves nothing to the stars. */
  lemma {:induction false} StandardNeedsLength(pat: seq<Byte>, text: seq<Byte>, casemap: bool)
    requires Complete(pat) && Matches(pat, text, casemap)
    ensures |text| >= |Witness(pat)|
    decreases |pat|
  {
    if pat != [] {
      if pat[0] == STAR {
        var k :| 0 <= k <= |text| && Matches(pat[1..], text[k..], casemap);
        StandardNeedsLength(pat[1..], text[k..], casemap);
      } else {
        StandardNeedsLength(if pat[0] == BACKSLASH then pat[2..] else pat[1..], text[1..], casemap);
      }
    }
  }

  lemma {:induction false} StandardRejectsWitness(pat: seq<Byte>, casemap: bool)
    requires Complete(pat) && !EscapesOnlyBackslash(pat)
    ensures !Matches(pat, Witness(pat), casemap)
    decreases |pat|
  {
    var text := Witness(pat);
    if Matches(pat, text, casemap) {
      if pat[0] == STAR {
        var k :| 0 <= k <= |text| && Matches(pat[1..], text[k..], casemap);
        StandardNeedsLength(pat[1..], text[k..], casemap);
        assert text[k..] == text;
        StandardRejectsWitness(pat[1..], casemap);
      } else {
        var next := if pat[0] == BACKSLASH then pat[2..] else pat[1..];
        assert text[1..] == Witness(next);
        if pat[0] != BACKSLASH || pat[1] == BACKSLASH {
          StandardRejectsWitness(next, casemap);
        }
      }
    }
  }

  /** The code gives the standard's answer on all texts if and only if the pattern escapes nothing but
      backslashes; patterns without a backslash are among those. */
  lemma AgreesExactlyWhen(pat: seq<Byte>, casemap: bool)
    requires Complete(pat)
    ensures (forall text :: CodeMatches(pat, text, casemap) <==> Matches(pat, text, casemap)) <==>
              EscapesOnlyBackslash(pat)
  {
    if EscapesOnlyBackslash(pat) {
      forall text
        ensures CodeMatches(pat, text, casemap) <==> Matches(pat, text, casemap)
      {
        AgreesIfOnlyBackslash(pat, text, casemap);
      }
    } else {
      CodeAcceptsWitness(pat, casemap);
      StandardRejectsWitness(pat, casemap);
    }
  }

  lemma {:induction false} NoBackslashAgrees(pat: seq<Byte>)
    requires BACKSLASH !in pat
    ensures Complete(pat) && EscapesOnlyBackslash(pat)
    decreases |pat|
  {
    if pat != [] {
      NoBackslashAgrees(pat[1..]);
    }
  }

  /** The escaped star of the standard does not match a star in the code. */
  lemma EscapedStarFails()
    ensures Complete([BACKSLASH, STAR]) && Matches([BACKSLASH, STAR], [STAR], false) &&
              !CodeMatches([BACKSLASH, STAR], [STAR], false)
  {
    var pat := [BACKSLASH, STAR];
    assert pat[2..] == [] && [STAR][1..] == [];
  }

  // ----- substring search

  /** `pat` stands in `text` at position `k`, up to case. */
  ghost predicate ContainedAt(pat: seq<Byte>, text: seq<Byte>, k: int) {
    0 <= k && k + |pat| <= |text| && forall i :: 0 <= i < |pat| ==> Upper(pat[i]) == Upper(text[k + i])
  }

  /** Up to case: each byte is the same or the other case of the letter. */
  lemma ContainedMeans(pat: seq<Byte>, text: seq<Byte>, k: int)
    ensures ContainedAt(pat, text, k) <==>
              0 <= k && k + |pat| <= |text| && forall i :: 0 <= i < |pat| ==> SameLetter(pat[i], text[k + i])
  {
  }

  /** ascii_casemap_contains */
  method AsciiCasemapContains(pat: seq<Byte>, text: seq<Byte>) returns (r: bool)
    ensures r <==> exists k :: ContainedAt(pat, text, k)
  {
    var N, M := |text|, |pat|;
    var i, j := 0, 0;
    while j < M && i < N
      invariant 0 <= j <= i <= N && j <= M
      invariant forall k :: 0 <= k < j ==> Upper(pat[k]) == Upper(text[i - j + k])
      invariant forall k :: 0 <= k < i - j ==> !ContainedAt(pat, text, k)
      decreases N - (i - j), M - j
    {
      if Upper(text[i]) == Upper(pat[j]) {
        i, j := i + 1, j + 1;
      } else {
        assert Upper(pat[j]) != Upper(text[(i - j) + j]);
        i := i - j + 1;
        j := 0;
      }
    }
    r := j == M;
    assert r ==> ContainedAt(pat, text, i - j);
  }
}
