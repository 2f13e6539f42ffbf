/** The streaming MD5 of md5.c around an uninterpreted block transform. */
module Md5 {
  import opened Language

  const WORD := 0x1_0000_0000
  const LENGTH_MODULUS := 0x1_0000_0000_0000_0000

  type Word = w: int | 0 <= w < WORD

  /** The chaining variables. */
  datatype State = State(a: Word, b: Word, c: Word, d: Word)

  /** The four words that section 3.3 of RFC 1321 starts from. */
  const INITIAL := State(0x67452301, 0xefcdab89, 0x98badcfe, 0x10325476)

  /** One application of the block transform to 64 bytes, read as 16 little-endian words. */
  type Transform = (State, seq<Byte>) -> State

  // ----- what is to be computed

  /** Folds the transform over the whole blocks of the data; what is left over does not matter. */
  function Chain(f: Transform, s: State, data: seq<Byte>): State
    decreases |data|
  {
    if |data| < 64 then s else Chain(f, f(s, data[..64]), data[64..])
  }

  /** How many bytes are left after whole blocks. */
  function Rem(n: nat): (r: nat)
    ensures r < 64 && r <= n
    ensures n < 64 ==> r == n
  {
    n % 64
  }

  lemma RemAdd(m: nat, n: nat)
    requires Rem(m) == 0
    ensures Rem(m + n) == Rem(n)
  {
  }

  lemma RemBlock(m: nat, n: nat)
    requires Rem(m) + n == 64
    ensures Rem(m + n) == 0
  {
  }

  /** The bytes after the last whole block. */
  function Tail(data: seq<Byte>): (r: seq<Byte>)
    ensures |r| == Rem(|data|)
  {
    data[|data| - Rem(|data|)..]
  }

  /** The whole blocks of data. */
  function Whole(data: seq<Byte>): (r: seq<Byte>)
    ensures data == r + Tail(data) && Rem(|r|) == 0
  {
    data[..|data| - Rem(|data|)]
  }

  /** The length in bits, modulo 2^64. */
  function BitLength(data: seq<Byte>): nat {
    8 * |data| % LENGTH_MODULUS
  }

  /** A word as four bytes, least significant first. */
  function LittleEndian(w: Word): (r: seq<Byte>)
    ensures |r| == 4
    ensures var b: seq<int> := r; w == b[0] + 0x100 * b[1] + 0x1_0000 * b[2] + 0x100_0000 * b[3]
  {
    var high3 := w / 0x100;
    var high2 := high3 / 0x100;
    [w % 0x100, high3 % 0x100, high2 % 0x100, high2 / 0x100]
  }

  function Zeros(n: nat): (r: seq<Byte>)
    ensures |r| == n && forall i :: 0 <= i < n ==> r[i] == 0
  {
    seq(n, i => 0)
  }

  /** How many zero bytes follow the byte 0x80. */
  function ZeroCount(length: nat): nat {
    if Rem(length) < 56 then 55 - Rem(length) else 119 - Rem(length)
  }

  /** The length in bits as eight bytes, low word first. */
  function LengthBytes(data: seq<Byte>): (r: seq<Byte>)
    ensures |r| == 8
  {
    LittleEndian(BitLength(data) % WORD) + LittleEndian(BitLength(data) / WORD)
  }

  /** The padding of sections 3.1 and 3.2 of RFC 1321. */
  function Padding(data: seq<Byte>): seq<Byte> {
    [0x80] + Zeros(ZeroCount(|data|)) + LengthBytes(data)
  }

  function Bytes(s: State): seq<Byte> {
    LittleEndian(s.a) + LittleEndian(s.b) + LittleEndian(s.c) + LittleEndian(s.d)
  }

  /** The digest of a message. */
  function Digest(f: Transform, message: seq<Byte>): seq<Byte> {
    Bytes(Chain(f, INITIAL, message + Padding(message)))
  }

  // ----- facts about it

  /** The padded message consists of whole blocks; the zero bytes bring it to 56 modulo 64 before
      its length, and no smaller number of them does. */
  lemma PaddingIsLeast(data: seq<Byte>, k: nat)
    ensures Rem(|data + Padding(data)|) == 0
    ensures Rem(|data| + 1 + ZeroCount(|data|)) == 56
    ensures Rem(|data| + 1 + k) == 56 ==> k >= ZeroCount(|data|)
  {
    var q := |data| / 64;
    var t := Rem(|data|);
    assert |data| == 64 * q + t;
    ZerosAreLeast(q, t, k);
    assert |data + Padding(data)| == |data| + 1 + ZeroCount(|data|) + 8;
  }

  lemma ZerosAreLeast(q: nat, t: nat, k: nat)
    requires t < 64
    ensures var z := if t < 56 then 55 - t else 119 - t;
            (64 * q + t + 1 + z) % 64 == 56 && (64 * q + t + 1 + z + 8) % 64 == 0
            && ((64 * q + t + 1 + k) % 64 == 56 ==> k >= z)
  {
  }

  /** Whole blocks can be folded first. */
  lemma {:induction false} ChainConcat(f: Transform, s: State, a: seq<Byte>, b: seq<Byte>)
    requires Rem(|a|) == 0
    ensures Chain(f, s, a + b) == Chain(f, Chain(f, s, a), b)
    decreases |a|
  {
    if a == [] {
      assert a + b == b;
    } else {
      assert (a + b)[..64] == a[..64];
      assert (a + b)[64..] == a[64..] + b;
      RemAdd(64, |a| - 64);
      ChainConcat(f, f(s, a[..64]), a[64..], b);
    }
  }

  /** One more block. */
  lemma ChainBlock(f: Transform, s: State, a: seq<Byte>, block: seq<Byte>)
    requires Rem(|a|) == 0 && |block| == 64
    ensures Chain(f, s, a + block) == f(Chain(f, s, a), block)
  {
    ChainConcat(f, s, a, block);
    assert block[..64] == block;
  }

  /** The low word alone tells how many bytes the buffer holds. */
  lemma BytesInBuffer(low: Word, high: Word, data: seq<Byte>)
    requires low + WORD * high == BitLength(data)
    ensures low / 8 % 64 == Rem(|data|)
  {
    var q := 8 * |data| / LENGTH_MODULUS;
    assert 8 * |data| == LENGTH_MODULUS * q + low + WORD * high;
    var m := high + WORD * q;
    assert low == 8 * (|data| - 0x2000_0000 * m);
    assert low / 8 == |data| - 64 * (0x80_0000 * m);
    SameRemainder(|data|, 0x80_0000 * m);
  }

  lemma SameRemainder(n: nat, m: int)
    ensures (n - 64 * m) % 64 == n % 64
  {
  }

  lemma SplitCount(low: Word, high: Word, data: seq<Byte>)
    requires low + WORD * high == BitLength(data)
    ensures LittleEndian(low) + LittleEndian(high) == LengthBytes(data)
  {
    hide BitLength, LittleEndian;
    SplitWords(low, high);
  }

  lemma SplitWords(low: Word, high: Word)
    ensures (low + WORD * high) % WORD == low && (low + WORD * high) / WORD == high
  {
  }

  lemma CountConcat(data: seq<Byte>, chunk: seq<Byte>)
    ensures (BitLength(data) + 8 * |chunk|) % LENGTH_MODULUS == BitLength(data + chunk)
  {
  }

  /** Whole blocks followed by less than one. */
  lemma TailConcat(f: Transform, a: seq<Byte>, b: seq<Byte>)
    requires Rem(|a|) == 0 && |b| < 64
    ensures Chain(f, INITIAL, a + b) == Chain(f, INITIAL, a) && Tail(a + b) == b
  {
    hide Rem;
    RemAdd(|a|, |b|);
    ChainConcat(f, INITIAL, a, b);
  }

  lemma ShortChunk(f: Transform, data: seq<Byte>, chunk: seq<Byte>)
    requires Rem(|data|) + |chunk| < 64
    ensures Chain(f, INITIAL, data + chunk) == Chain(f, INITIAL, data)
    ensures Tail(data + chunk) == Tail(data) + chunk
  {
    hide Rem, Chain, Tail, Whole;
    TailConcat(f, Whole(data), Tail(data));
    TailConcat(f, Whole(data), Tail(data) + chunk);
    assert data + chunk == Whole(data) + (Tail(data) + chunk);
  }

  lemma FirstBlock(f: Transform, data: seq<Byte>, chunk: seq<Byte>)
    requires Rem(|data|) + |chunk| == 64
    ensures Chain(f, INITIAL, data + chunk) == f(Chain(f, INITIAL, data), Tail(data) + chunk)
  {
    hide Rem, Chain, Tail, Whole;
    TailConcat(f, Whole(data), Tail(data));
    ChainBlock(f, INITIAL, Whole(data), Tail(data) + chunk);
    assert data + chunk == Whole(data) + (Tail(data) + chunk);
  }

  /** The length fits behind the data in the last block. */
  lemma PadOneBlock(f: Transform, data: seq<Byte>)
    requires Rem(|data|) < 56
    ensures Chain(f, INITIAL, data + Padding(data)) == f(Chain(f, INITIAL, data), Tail(data) + Padding(data))
    ensures Padding(data) == [0x80] + Zeros(55 - Rem(|data|)) + LengthBytes(data)
  {
    hide Rem, Chain, Tail, LengthBytes;
    FirstBlock(f, data, Padding(data));
  }

  lemma SplitPadding(data: seq<Byte>)
    requires 56 <= Rem(|data|)
    ensures Padding(data) == ([0x80] + Zeros(63 - Rem(|data|))) + (Zeros(56) + LengthBytes(data))
  {
    hide Rem, LengthBytes;
    assert Zeros(119 - Rem(|data|)) == Zeros(63 - Rem(|data|)) + Zeros(56);
  }

  /** Data that a first part fills up to whole blocks, and another block. */
  lemma TwoBlocks(f: Transform, data: seq<Byte>, pad0: seq<Byte>, pad1: seq<Byte>)
    requires Rem(|data|) + |pad0| == 64 && |pad1| == 64
    ensures Chain(f, INITIAL, data + (pad0 + pad1)) == f(f(Chain(f, INITIAL, data), Tail(data) + pad0), pad1)
  {
    hide Rem, Chain, Tail;
    FirstBlock(f, data, pad0);
    RemBlock(|data|, |pad0|);
    ChainBlock(f, INITIAL, data + pad0, pad1);
    assert data + (pad0 + pad1) == (data + pad0) + pad1;
  }

  /** The length needs a block of its own. */
  lemma PadTwoBlocks(f: Transform, data: seq<Byte>)
    requires 56 <= Rem(|data|)
    ensures
      var block0 := Tail(data) + ([0x80] + Zeros(63 - Rem(|data|)));
      Chain(f, INITIAL, data + Padding(data)) == f(f(Chain(f, INITIAL, data), block0), Zeros(56) + LengthBytes(data))
  {
    hide *;
    SplitPadding(data);
    TwoBlocks(f, data, [0x80] + Zeros(63 - Rem(|data|)), Zeros(56) + LengthBytes(data));
  }

  /** The sum of two words wrapped around exactly when it is less than one of them. */
  lemma Carry(t: Word, x: Word, sum: Word) returns (carry: nat)
    requires sum == (t + x) % WORD
    ensures carry == (if sum < t then 1 else 0) && sum == t + x - WORD * carry
  {
    carry := if sum < t then 1 else 0;
  }

  /** Adding 8 * length to a number of two words, with the carry between them. */
  lemma WideSum(low0: Word, high0: Word, length: nat, low: Word, high: Word, carry: nat)
    requires length < WORD && carry <= 1
    requires low == low0 + 8 * length % WORD - WORD * carry
    requires high == ((high0 + carry) % WORD + length / 0x2000_0000) % WORD
    ensures low + WORD * high == (low0 + WORD * high0 + 8 * length) % LENGTH_MODULUS
  {
    var over := length / 0x2000_0000;
    assert 8 * length == 8 * length % WORD + WORD * over;
    var sum := high0 + carry + over;
    assert high == if sum < WORD then sum else sum - WORD;
    assert low0 + WORD * high0 + 8 * length == low + WORD * sum;
  }

  /** What gdm_md5_update makes of the two words. */
  lemma CountIsRight(low0: Word, high0: Word, length: nat, low: Word, carried: Word, high: Word)
    requires length < WORD && low == (low0 + 8 * length % WORD) % WORD
    requires carried == if low < low0 then (high0 + 1) % WORD else high0
    requires high == (carried + length / 0x2000_0000) % WORD
    ensures low + WORD * high == (low0 + WORD * high0 + 8 * length) % LENGTH_MODULUS
  {
    var carry := Carry(low0, 8 * length % WORD, low);
    WideSum(low0, high0, length, low, high, carry);
  }

  // ----- the padded message and the digest, in numbers and blocks

  /** Eight bytes as a number, least significant first. */
  function LittleEndian8(b: seq<int>): int
    requires |b| == 8
  {
    b[0] + 0x100 * b[1] + 0x1_0000 * b[2] + 0x100_0000 * b[3]
    + 0x1_0000_0000 * (b[4] + 0x100 * b[5] + 0x1_0000 * b[6] + 0x100_0000 * b[7])
  }

  /** The padding: the byte 0x80, zero bytes, and the length in bits; it is as short as whole blocks allow. */
  lemma PaddingMeans(data: seq<Byte>)
    ensures var pad := Padding(data);
            && 9 <= |pad| <= 72 && (|data| + |pad|) % 64 == 0
            && pad[0] == 0x80 && (forall i :: 1 <= i < |pad| - 8 ==> pad[i] == 0)
            && LittleEndian8(pad[|pad| - 8..]) == 8 * |data| % 0x1_0000_0000_0000_0000
  {
    PaddingIsLeast(data, 0);
    var pad, length := Padding(data), LengthBytes(data);
    assert pad[|pad| - 8..] == length;
    var low, high := BitLength(data) % WORD, BitLength(data) / WORD;
    LengthIsSplit(low, high, length);
  }

  lemma LengthIsSplit(low: Word, high: Word, length: seq<Byte>)
    requires length == LittleEndian(low) + LittleEndian(high)
    ensures LittleEndian8(length) == low + 0x1_0000_0000 * high
  {
    var b: seq<int> := LittleEndian(low);
    var c: seq<int> := LittleEndian(high);
    assert length[..4] == b && length[4..] == c;
  }

  /** Where the digest of nothing starts: the byte list of section 3.3 of RFC 1321. */
  lemma InitialBytes()
    ensures Bytes(INITIAL) == [0x01, 0x23, 0x45, 0x67, 0x89, 0xab, 0xcd, 0xef,
                               0xfe, 0xdc, 0xba, 0x98, 0x76, 0x54, 0x32, 0x10]
  {
    hide LittleEndian;
    WordBytes(INITIAL.a, 0x01, 0x23, 0x45, 0x67);
    WordBytes(INITIAL.b, 0x89, 0xab, 0xcd, 0xef);
    WordBytes(INITIAL.c, 0xfe, 0xdc, 0xba, 0x98);
    WordBytes(INITIAL.d, 0x76, 0x54, 0x32, 0x10);
  }

  lemma WordBytes(w: Word, b0: Byte, b1: Byte, b2: Byte, b3: Byte)
    requires w == b0 + 0x100 * b1 + 0x1_0000 * b2 + 0x100_0000 * b3
    ensures LittleEndian(w) == [b0, b1, b2, b3]
  {
    var high3, high2 := b1 + 0x100 * b2 + 0x1_0000 * b3, b2 + 0x100 * b3;
    assert w == b0 + 0x100 * high3 && w / 0x100 == high3 && w % 0x100 == b0;
    assert high3 == b1 + 0x100 * high2 && high3 / 0x100 == high2 && high3 % 0x100 == b1;
    assert high2 / 0x100 == b3 && high2 % 0x100 == b2;
  }

  /** The transform applied to one block after the other. */
  function Fold(f: Transform, s: State, blocks: seq<seq<Byte>>): State {
    if blocks == [] then s
    else f(Fold(f, s, blocks[..|blocks| - 1]), blocks[|blocks| - 1])
  }

  function Concatenation(blocks: seq<seq<Byte>>): seq<Byte> {
    if blocks == [] then [] else Concatenation(blocks[..|blocks| - 1]) + blocks[|blocks| - 1]
  }

  lemma {:induction false} ChainIsFold(f: Transform, s: State, blocks: seq<seq<Byte>>)
    requires forall i :: 0 <= i < |blocks| ==> |blocks[i]| == 64
    ensures Rem(|Concatenation(blocks)|) == 0
    ensures Chain(f, s, Concatenation(blocks)) == Fold(f, s, blocks)
  {
    if blocks != [] {
      var front, block := blocks[..|blocks| - 1], blocks[|blocks| - 1];
      ChainIsFold(f, s, front);
      RemAdd(|Concatenation(front)|, 64);
      ChainBlock(f, s, Concatenation(front), block);
    }
  }

  /** The digest: the blocks of the padded message are folded in order, from the four words of
      section 3.3 of RFC 1321, and the result is written out. */
  lemma DigestMeans(f: Transform, message: seq<Byte>, blocks: seq<seq<Byte>>)
    requires forall i :: 0 <= i < |blocks| ==> |blocks[i]| == 64
    requires Concatenation(blocks) == message + Padding(message)
    ensures Digest(f, message) == Bytes(Fold(f, State(0x67452301, 0xefcdab89, 0x98badcfe, 0x10325476), blocks))
  {
    ChainIsFold(f, INITIAL, blocks);
  }

  // ----- the streaming context

  class Context {
    var buf: State
    var low: Word
    var high: Word
    const input: array<Byte>
    const transform: Transform

    /** The context is what reading `data` leaves, however it was split. */
    ghost predicate Absorbed(data: seq<Byte>)
      reads this, input
    {
      && input.Length == 64
      && buf == Chain(transform, INITIAL, data)
      && low + WORD * high == BitLength(data)
      && input[..Rem(|data|)] == Tail(data)
    }

    /** gdm_md5_init */
    constructor (f: Transform)
      ensures Absorbed([]) && transform == f && fresh(input)
    {
      transform := f;
      input := new Byte[64];
      buf := INITIAL;
      low, high := 0, 0;
    }

    /** The 64-bit bit count, kept in two words. */
    method CountBits(length: nat)
      requires length < WORD
      modifies this`low, this`high
      ensures low + WORD * high == (old(low) + WORD * old(high) + 8 * length) % LENGTH_MODULUS
    {
      var t := low;
      low := (t + 8 * length % WORD) % WORD;
      var carried := if low < t then (high + 1) % WORD else high;
      high := (carried + length / 0x2000_0000) % WORD;
      CountIsRight(old(low), old(high), length, low, carried, high);
    }

    /** memcpy into the input block. */
    method CopyIn(at: nat, bytes: seq<Byte>)
      requires at + |bytes| <= input.Length
      modifies input
      ensures input[..] == old(input[..at]) + bytes + old(input[at + |bytes|..])
    {
      forall i | 0 <= i < |bytes| {
        input[at + i] := bytes[i];
      }
    }

    /** gdm_md5_update: reading `chunk` after `data` is reading their concatenation. */
    method Update(chunk: seq<Byte>, ghost data: seq<Byte>)
      requires Absorbed(data) && |chunk| < WORD
      modifies this`buf, this`low, this`high, input
      ensures Absorbed(data + chunk)
    {
      hide Rem, Chain, Tail, BitLength;
      var t := low / 8 % 64;
      BytesInBuffer(low, high, data);
      CountBits(|chunk|);
      CountConcat(data, chunk);
      var off := 0;
      if t != 0 {
        if |chunk| < 64 - t {
          CopyIn(t, chunk);
          ShortChunk(transform, data, chunk);
          return;
        }
        CopyIn(t, chunk[..64 - t]);
        FirstBlock(transform, data, chunk[..64 - t]);
        assert input[..] == Tail(data) + chunk[..64 - t];
        buf := transform(buf, input[..]);
        off := 64 - t;
        RemBlock(|data|, off);
      } else {
        assert data + chunk[..0] == data;
      }
      WholeBlocks(chunk, off, data);
    }

    /** The loop of gdm_md5_update over whole blocks, and the copy of the rest. */
    method WholeBlocks(chunk: seq<Byte>, start: nat, ghost data: seq<Byte>)
      requires input.Length == 64 && start <= |chunk| && Rem(|data| + start) == 0
      requires buf == Chain(transform, INITIAL, data + chunk[..start])
      requires low + WORD * high == BitLength(data + chunk)
      modifies this`buf, input
      ensures Absorbed(data + chunk)
    {
      hide Rem, Chain, Tail, BitLength;
      var off := start;
      while |chunk| - off >= 64
        invariant off <= |chunk| && Rem(|data| + off) == 0
        invariant buf == Chain(transform, INITIAL, data + chunk[..off])
      {
        CopyIn(0, chunk[off..off + 64]);
        assert input[..] == chunk[off..off + 64];
        ChainBlock(transform, INITIAL, data + chunk[..off], chunk[off..off + 64]);
        assert data + chunk[..off + 64] == (data + chunk[..off]) + chunk[off..off + 64];
        buf := transform(buf, input[..]);
        RemBlock(|data| + off, 64);
        off := off + 64;
      }
      CopyIn(0, chunk[off..]);
      TailConcat(transform, data + chunk[..off], chunk[off..]);
      assert data + chunk == (data + chunk[..off]) + chunk[off..];
    }

    /** The four bytes of a word, as a little-endian machine stores it. */
    method StoreWord(at: nat, w: Word)
      requires at + 4 <= input.Length
      modifies input
      ensures input[..] == old(input[..at]) + LittleEndian(w) + old(input[at + 4..])
    {
      CopyIn(at, LittleEndian(w));
    }

    /** gdm_md5_final: the digest of everything that was read. */
    method Final(ghost data: seq<Byte>) returns (digest: seq<Byte>)
      requires Absorbed(data)
      modifies this`buf, input
      ensures digest == Digest(transform, data)
    {
      hide Rem, Chain, Tail, BitLength, LengthBytes, Padding, Bytes;
      var count := low / 8 % 64;
      BytesInBuffer(low, high, data);
      CopyIn(count, [0x80]);
      var p := count + 1;
      count := 63 - count;
      if count < 8 {
        PadInTwo(p, count, data);
      } else {
        PadInOne(p, count, data);
      }
      buf := transform(buf, input[..]);
      digest := Bytes(buf);
    }

    /** Two lots of padding: the first block is padded to 64 bytes, the next one holds the length. */
    method PadInTwo(p: nat, count: nat, ghost data: seq<Byte>)
      requires input.Length == 64 && p == Rem(|data|) + 1 && count == 64 - p && count < 8
      requires buf == Chain(transform, INITIAL, data) && low + WORD * high == BitLength(data)
      requires input[..p] == Tail(data) + [0x80]
      modifies this`buf, input
      ensures transform(buf, input[..]) == Chain(transform, INITIAL, data + Padding(data))
    {
      hide Rem, Chain, Tail, BitLength, LittleEndian, LengthBytes, Padding;
      CopyIn(p, Zeros(count));
      assert input[..] == Tail(data) + ([0x80] + Zeros(count));
      buf := transform(buf, input[..]);
      CopyIn(0, Zeros(56));
      StoreWord(56, low);
      StoreWord(60, high);
      SplitCount(low, high, data);
      assert input[..] == Zeros(56) + LengthBytes(data);
      PadTwoBlocks(transform, data);
    }

    /** The block is padded to 56 bytes, and the length follows. */
    method PadInOne(p: nat, count: nat, ghost data: seq<Byte>)
      requires input.Length == 64 && p == Rem(|data|) + 1 && count == 64 - p && count >= 8
      requires buf == Chain(transform, INITIAL, data) && low + WORD * high == BitLength(data)
      requires input[..p] == Tail(data) + [0x80]
      modifies input
      ensures transform(buf, input[..]) == Chain(transform, INITIAL, data + Padding(data))
    {
      hide Rem, Chain, Tail, BitLength, LittleEndian, LengthBytes, Padding;
      CopyIn(p, Zeros(count - 8));
      StoreWord(56, low);
      StoreWord(60, high);
      SplitCount(low, high, data);
      PadOneBlock(transform, data);
      assert input[..] == Tail(data) + ([0x80] + Zeros(count - 8) + LengthBytes(data));
    }
  }

  /** libsieve_makehash, before the digest is written in hexadecimal. */
  method MakeHash(f: Transform, s1: seq<Byte>, s2: seq<Byte>) returns (digest: seq<Byte>)
    requires |s1| < WORD && |s2| < WORD
    ensures digest == Digest(f, s1 + s2)
  {
    var context := new Context(f);
    context.Update(s1, []);
    assert [] + s1 == s1;
    context.Update(s2, s1);
    digest := context.Final(s1 + s2);
  }
}
