/**
 The streaming part of md5_hash.c: counting, buffering and padding around the
 block transformation, which is a parameter.
 */
module Md5 {
  import opened Common

  const WORD: nat := 0x1_0000_0000
  const WORD64: nat := 0x1_0000_0000_0000_0000

  type word = x: int | 0 <= x < 0x1_0000_0000

  /** The four words of the state, and a block of the message. */
  type Chain = s: seq<word> | |s| == 4 witness [0, 0, 0, 0]
  type Block = s: seq<byte> | |s| == 64 witness seq(64, _ => 0)
  type Transformation = (Chain, Block) -> Chain

  const START: Chain := [0x67452301, 0xefcdab89, 0x98badcfe, 0x10325476]

  // ----- the hash of a whole message, as section 3 of RFC 1321 defines it

  /** The state after the whole blocks of a message. */
  function Fold(f: Transformation, c: Chain, m: seq<byte>): Chain
    decreases |m|
  {
    if |m| < 64 then c else Fold(f, f(c, m[..64]), m[64..])
  }

  function Zeros(n: nat): seq<byte> { seq(n, _ => 0) }

  /** `n` bytes of `v`, the least significant first. */
  function Le(v: nat, n: nat): (b: seq<byte>)
    ensures |b| == n
    decreases v, n
  {
    if n == 0 then [] else [v % 0x100] + Le(v / 0x100, n - 1)
  }

  /** How many zeros bring `len` bytes and a one up to 56 modulo 64. */
  function ZeroCount(len: nat): nat {
    if len >= 64 then ZeroCount(len - 64) else if len < 56 then 55 - len else 119 - len
  }

  /** The number of bits of the message modulo 2^64. */
  function BitCount(len: nat): (b: seq<byte>)
    ensures |b| == 8
  {
    Le(8 * len % WORD64, 8)
  }

  function Padding(len: nat): seq<byte> {
    [0x80] + Zeros(ZeroCount(len)) + BitCount(len)
  }

  function WordBytes(c: Chain): seq<byte> {
    Le(c[0], 4) + Le(c[1], 4) + Le(c[2], 4) + Le(c[3], 4)
  }

  function Digest(f: Transformation, m: seq<byte>): seq<byte> {
    WordBytes(Fold(f, START, m + Padding(|m|)))
  }

  // ----- folds

  lemma {:induction false} FoldConcat(f: Transformation, c: Chain, a: seq<byte>, b: seq<byte>)
    requires |a| % 64 == 0
    ensures Fold(f, c, a + b) == Fold(f, Fold(f, c, a), b)
    decreases |a|
  {
    if a == [] {
      assert a + b == b;
    } else {
      assert (a + b)[..64] == a[..64] && (a + b)[64..] == a[64..] + b;
      FoldConcat(f, f(c, a[..64]), a[64..], b);
    }
  }

  lemma FoldBlock(f: Transformation, c: Chain, a: seq<byte>, b: Block)
    requires |a| % 64 == 0
    ensures Fold(f, c, a + b) == f(Fold(f, c, a), b)
  {
    FoldConcat(f, c, a, b);
    assert b[..64] == b && b[64..] == [];
  }

  lemma {:induction false} ZerosAfter(blocks: nat, tail: nat)
    requires tail < 64
    ensures ZeroCount(64 * blocks + tail) == if tail < 56 then 55 - tail else 119 - tail
    decreases blocks
  {
    if blocks > 0 {
      assert 64 * blocks + tail - 64 == 64 * (blocks - 1) + tail;
      ZerosAfter(blocks - 1, tail);
    }
  }

  lemma PaddedLength(len: nat)
    ensures (len + |Padding(len)|) % 64 == 0
  {
    var q, r := len / 64, len % 64;
    ZerosAfter(q, r);
    Multiple(q + if r < 56 then 1 else 2, len + |Padding(len)|);
  }

  lemma Multiple(q: nat, n: nat)
    requires n == 64 * q
    ensures n % 64 == 0
  {
  }

  // ----- the two words of the counter

  /** The counter words stand for the number of bits of `n` bytes, up to overflows of 64 bits. */
  predicate Counts(lo: word, hi: word, overflows: nat, n: nat) {
    lo + WORD * hi + WORD64 * overflows == 8 * n
  }

  lemma CounterStep(lo: word, hi: word, overflows: nat, n: nat, len: nat, lo2: word, hi2: word) returns (more: nat)
    requires Counts(lo, hi, overflows, n) && len < WORD
    requires lo2 == (lo + len * 8 % WORD) % WORD
    requires hi2 == (hi + (if lo2 < lo then 1 else 0) + len / 0x2000_0000) % WORD
    ensures Counts(lo2, hi2, more, n + len)
  {
    var low, high := len * 8 % WORD, len / 0x2000_0000;
    assert len * 8 == low + WORD * high;
    var carry := if lo2 < lo then 1 else 0;
    assert lo + low == lo2 + WORD * carry;
    more := overflows + (hi + carry + high) / WORD;
  }

  lemma CarryTwice(hi: word, carry: nat, high: nat)
    ensures ((hi + carry) % WORD + high) % WORD == (hi + carry + high) % WORD
  {
  }

  /** The low word tells how many bytes wait in the block buffer. */
  lemma CounterTail(lo: word, hi: word, overflows: nat, blocks: nat, tail: nat)
    requires Counts(lo, hi, overflows, 64 * blocks + tail) && tail < 64
    ensures lo / 8 % 64 == tail
  {
    assert lo / 8 == tail + 64 * (blocks - 0x80_0000 * hi - 0x80_0000_0000_0000 * overflows);
  }

  lemma CounterBits(lo: word, hi: word, overflows: nat, n: nat)
    requires Counts(lo, hi, overflows, n)
    ensures 8 * n % WORD64 == lo + WORD * hi
  {
  }

  lemma LeStep(lo: nat, x: nat, n: nat)
    requires n > 0
    ensures Le(lo + 0x100 * x, n) == [lo % 0x100] + Le(lo / 0x100 + x, n - 1)
  {
    CarriedUp(lo, x);
  }

  lemma CarriedUp(lo: nat, x: nat)
    ensures (lo + 0x100 * x) % 0x100 == lo % 0x100 && (lo + 0x100 * x) / 0x100 == lo / 0x100 + x
  {
  }

  function Pow256(k: nat): nat { if k == 0 then 1 else 0x100 * Pow256(k - 1) }

  lemma {:induction false} LeJoin(lo: nat, hi: nat, k: nat, n: nat)
    requires lo < Pow256(k)
    ensures Le(lo, k) + Le(hi, n) == Le(lo + Pow256(k) * hi, k + n)
    decreases k
  {
    if k > 0 {
      var s := Pow256(k - 1);
      assert Pow256(k) * hi == 0x100 * (s * hi);
      LeStep(lo, s * hi, k + n);
      LeJoin(lo / 0x100, hi, k - 1, n);
    }
  }

  /** The two counter words side by side are the 64-bit counter. */
  lemma CounterBytes(lo: word, hi: word)
    ensures Le(lo, 4) + Le(hi, 4) == Le(lo + WORD * hi, 8)
  {
    assert Pow256(1) == 0x100;
    assert Pow256(2) == 0x1_0000;
    assert Pow256(3) == 0x100_0000;
    assert Pow256(4) == WORD;
    LeJoin(lo, hi, 4, 4);
  }

  lemma Regroup(m: seq<byte>, z: seq<byte>, lo: seq<byte>, hi: seq<byte>, both: seq<byte>)
    requires lo + hi == both
    ensures m + ([0x80] + z + both) == (m + [0x80] + z) + lo + hi
  {
  }

  lemma PaddingParts(m: seq<byte>, lo: word, hi: word, overflows: nat)
    requires Counts(lo, hi, overflows, |m|)
    ensures m + Padding(|m|) == (m + [0x80] + Zeros(ZeroCount(|m|))) + Le(lo, 4) + Le(hi, 4)
  {
    var n, both := |m|, BitCount(|m|);
    assert both == Le(lo, 4) + Le(hi, 4) by {
      CounterBits(lo, hi, overflows, n);
      CounterBytes(lo, hi);
    }
    Regroup(m, Zeros(ZeroCount(n)), Le(lo, 4), Le(hi, 4), both);
  }

  // ----- the context

  class Context {
    const buf: array<word>
    var lo: word
    var hi: word
    const input: array<byte>

    /** The message so far: the part that has been transformed, and the rest. */
    ghost var done: seq<byte>
    ghost var tail: seq<byte>
    ghost var overflows: nat
    const f: Transformation

    ghost predicate Valid()
      reads this, buf, input
    {
      && buf.Length == 4 && input.Length == 64
      && |done| % 64 == 0 && |tail| < 64
      && Counts(lo, hi, overflows, |done| + |tail|)
      && buf[..] == Fold(f, START, done)
      && input[..|tail|] == tail
    }

    /** `bits[0]` and `bits[1]` of the source are `lo` and `hi`. */
    constructor Init(transform: Transformation)
      ensures Valid() && fresh(buf) && fresh(input) && f == transform
      ensures done == [] && tail == []
    {
      buf := new word[4];
      input := new byte[64];
      lo, hi := 0, 0;
      done, tail, overflows, f := [], [], 0, transform;
      new;
      buf[0], buf[1], buf[2], buf[3] := 0x67452301, 0xefcdab89, 0x98badcfe, 0x10325476;
      assert buf[..] == START;
    }

    /** `MD5Transform` on the block buffer. */
    method Transform()
      requires buf.Length == 4 && input.Length == 64
      modifies buf
      ensures buf[..] == f(old(buf[..]), input[..])
    {
      var c := f(buf[..], input[..]);
      buf[0], buf[1], buf[2], buf[3] := c[0], c[1], c[2], c[3];
      assert buf[..] == c;
    }

    /** Copies bytes into the block buffer. */
    method CopyIn(at: nat, bytes: seq<byte>)
      requires input.Length == 64 && at + |bytes| <= 64
      modifies input
      ensures input[..at + |bytes|] == old(input[..at]) + bytes
      ensures forall i :: at + |bytes| <= i < 64 ==> input[i] == old(input[i])
    {
      forall i | at <= i < at + |bytes| { input[i] := bytes[i - at]; }
    }

    method Count(len: nat)
      requires Valid() && len < WORD
      modifies this`lo, this`hi, this`overflows
      ensures Counts(lo, hi, overflows, |done| + |tail| + len)
    {
      var t := lo;
      lo := (t + len * 8 % WORD) % WORD;
      if lo < t { hi := (hi + 1) % WORD; }
      hi := (hi + len / 0x2000_0000) % WORD;
      CarryTwice(old(hi), if lo < t then 1 else 0, len / 0x2000_0000);
      overflows := CounterStep(t, old(hi), overflows, |done| + |tail|, len, lo, hi);
    }

    /** The block buffer is full. */
    method Block()
      requires buf.Length == 4 && input.Length == 64 && |done| % 64 == 0
      requires buf[..] == Fold(f, START, done)
      modifies buf, this`done, this`tail
      ensures done == old(done) + input[..] && tail == []
      ensures buf[..] == Fold(f, START, done)
    {
      FoldBlock(f, START, done, input[..]);
      Transform();
      done, tail := done + input[..], [];
    }

    /** The whole blocks of the data; the rest is left in the block buffer. */
    method Blocks(data: seq<byte>)
      requires buf.Length == 4 && input.Length == 64 && |done| % 64 == 0 && tail == []
      requires buf[..] == Fold(f, START, done)
      modifies buf, input, this`done, this`tail
      ensures |done| % 64 == 0 && |tail| < 64 && done + tail == old(done) + data
      ensures buf[..] == Fold(f, START, done) && input[..|tail|] == tail
    {
      var rest := data;
      while |rest| >= 64
        invariant |done| % 64 == 0 && tail == []
        invariant buf[..] == Fold(f, START, done)
        invariant done + rest == old(done) + data
      {
        CopyIn(0, rest[..64]);
        assert input[..] == rest[..64] && rest == rest[..64] + rest[64..];
        Block();
        rest := rest[64..];
      }
      CopyIn(0, rest);
      tail := rest;
    }

    /** The bytes that wait in the block buffer. */
    method Waiting() returns (k: nat)
      requires Valid()
      ensures k == |tail|
    {
      CounterTail(lo, hi, overflows, |done| / 64, |tail|);
      k := lo / 8 % 64;
    }

    /** However the data is cut into pieces, the context holds the message as far as it is known. */
    method Update(data: seq<byte>)
      requires Valid() && |data| < WORD
      modifies this`lo, this`hi, this`overflows, this`done, this`tail, buf, input
      ensures Valid() && done + tail == old(done + tail) + data
    {
      var k := Waiting();
      Count(|data|);
      Append(k, data);
    }

    method Append(k: nat, data: seq<byte>)
      requires buf.Length == 4 && input.Length == 64 && |done| % 64 == 0 && |tail| == k < 64
      requires buf[..] == Fold(f, START, done) && input[..k] == tail
      modifies buf, input, this`done, this`tail
      ensures |done| % 64 == 0 && |tail| < 64 && done + tail == old(done + tail) + data
      ensures buf[..] == Fold(f, START, done) && input[..|tail|] == tail
    {
      if k != 0 {
        var room := 64 - k;
        if |data| < room {
          CopyIn(k, data);
          tail := tail + data;
          return;
        }
        CopyIn(k, data[..room]);
        assert input[..] == tail + data[..room] && data == data[..room] + data[room..];
        Block();
        Blocks(data[room..]);
      } else {
        Blocks(data);
      }
    }

    /** Fills the last block or blocks and writes the digest; nothing of the message is left behind. */
    method Final(digest: array<byte>)
      requires Valid() && digest.Length == 16 && digest != input
      modifies this, buf, input, digest
      ensures digest[..] == Digest(f, old(done + tail))
      ensures lo == 0 && hi == 0 && buf[..] == [0, 0, 0, 0] && input[..] == Zeros(64)
    {
      ghost var m := done + tail;
      Pad();
      assert Fold(f, START, done) == Fold(f, START, m + Padding(|m|));
      var out := WordBytes(buf[..]);
      forall i | 0 <= i < 16 { digest[i] := out[i]; }
      forall i | 0 <= i < 4 { buf[i] := 0; }
      forall i | 0 <= i < 64 { input[i] := 0; }
      lo, hi := 0, 0;
    }

    static lemma TwoBlocks(done: seq<byte>, tail: seq<byte>, count: nat)
      ensures (done + ((tail + [0x80]) + Zeros(count))) + Zeros(56) == done + tail + [0x80] + Zeros(count + 56)
    {
      assert Zeros(count) + Zeros(56) == Zeros(count + 56);
    }

    /** No room for the counter: the block is filled up, and the next one begun. */
    method PadTwoBlocks(count: nat)
      requires Valid() && 56 <= |tail| && count == 63 - |tail| && input[..64 - count] == tail + [0x80]
      modifies this`done, this`tail, buf, input
      ensures |done| % 64 == 0 && |tail| == 56 && input[..56] == tail
      ensures done + tail == old(done + tail) + [0x80] + Zeros(count + 56)
      ensures buf[..] == Fold(f, START, done)
    {
      TwoBlocks(done, tail, count);
      CopyIn(64 - count, Zeros(count));
      assert input[..] == (tail + [0x80]) + Zeros(count);
      Block();
      CopyIn(0, Zeros(56));
      tail := Zeros(56);
    }

    /** The padding of the last block, up to the counter. */
    method PadTo56()
      requires Valid()
      modifies this`done, this`tail, buf, input
      ensures |done| % 64 == 0 && |tail| == 56 && input[..56] == tail
      ensures done + tail == old(done + tail) + [0x80] + Zeros(ZeroCount(|old(done + tail)|))
      ensures buf[..] == Fold(f, START, done)
    {
      var count := Waiting();
      assert |done + tail| == 64 * (|done| / 64) + count;
      ZerosAfter(|done| / 64, count);
      CopyIn(count, [0x80]);
      count := 64 - 1 - count;
      if count < 8 {
        PadTwoBlocks(count);
      } else {
        CopyIn(64 - count, Zeros(count - 8));
        tail := tail + [0x80] + Zeros(count - 8);
      }
    }

    method AddCounter()
      requires buf.Length == 4 && input.Length == 64 && |done| % 64 == 0 && |tail| == 56
      requires buf[..] == Fold(f, START, done) && input[..56] == tail
      modifies this`done, this`tail, buf, input
      ensures done == old(done + tail) + Le(lo, 4) + Le(hi, 4)
      ensures buf[..] == Fold(f, START, done)
    {
      CopyIn(56, Le(lo, 4));
      CopyIn(60, Le(hi, 4));
      assert input[..] == tail + Le(lo, 4) + Le(hi, 4);
      assert done + input[..] == (done + tail) + Le(lo, 4) + Le(hi, 4);
      Block();
    }

    method Pad()
      requires Valid()
      modifies this`done, this`tail, buf, input
      ensures done == old(done + tail) + Padding(|old(done + tail)|)
      ensures buf[..] == Fold(f, START, done)
    {
      ghost var m := done + tail;
      PaddingParts(m, lo, hi, overflows);
      PadTo56();
      AddCounter();
    }
  }

  /** A message hashed in any pieces has the digest of the whole. */
  method HashChunks(f: Transformation, chunks: seq<seq<byte>>) returns (digest: seq<byte>)
    requires forall i :: 0 <= i < |chunks| ==> |chunks[i]| < WORD
    ensures digest == Digest(f, Concat(chunks))
  {
    var ctx := new Context.Init(f);
    for i := 0 to |chunks|
      invariant ctx.Valid() && ctx.f == f && fresh(ctx) && fresh(ctx.buf) && fresh(ctx.input)
      invariant ctx.done + ctx.tail == Concat(chunks[..i])
    {
      ConcatSnoc(chunks[..i], chunks[i]);
      assert chunks[..i + 1] == chunks[..i] + [chunks[i]];
      ctx.Update(chunks[i]);
    }
    assert chunks[..|chunks|] == chunks;
    var out := new byte[16];
    ctx.Final(out);
    digest := out[..];
  }

  // ----- the padding

  lemma {:induction false} LeInjective(v: nat, w: nat, n: nat)
    requires v < Pow256(n) && w < Pow256(n) && Le(v, n) == Le(w, n)
    ensures v == w
    decreases n
  {
    if n > 0 {
      assert Le(v, n)[0] == v % 0x100 && Le(w, n)[0] == w % 0x100;
      assert Le(v, n)[1..] == Le(v / 0x100, n - 1) && Le(w, n)[1..] == Le(w / 0x100, n - 1);
      LeInjective(v / 0x100, w / 0x100, n - 1);
    }
  }

  lemma Tails(a: seq<byte>, x: seq<byte>, b: seq<byte>, y: seq<byte>)
    requires a + x == b + y && |x| == |y|
    ensures a == b && x == y
  {
    assert a == (a + x)[..|a|] && b == (b + y)[..|b|];
    assert x == (a + x)[|a|..] && y == (b + y)[|b|..];
  }

  lemma Pow256Of8()
    ensures Pow256(8) == WORD64
  {
    assert Pow256(2) == 0x1_0000;
    assert Pow256(4) == 0x1_0000 * Pow256(2);
    assert Pow256(6) == 0x1_0000 * Pow256(4);
  }

  lemma EndsWithCount(a: seq<byte>, za: seq<byte>, v: nat, b: seq<byte>, zb: seq<byte>, w: nat, n: nat)
    requires v < Pow256(n) && w < Pow256(n)
    requires a + (za + Le(v, n)) == b + (zb + Le(w, n))
    ensures v == w && a + za == b + zb
  {
    assert a + (za + Le(v, n)) == (a + za) + Le(v, n) && b + (zb + Le(w, n)) == (b + zb) + Le(w, n);
    Tails(a + za, Le(v, n), b + zb, Le(w, n));
    LeInjective(v, w, n);
  }

  lemma NotWrapped(n: nat)
    requires n < WORD64
    ensures n % WORD64 == n
  {
  }

  lemma PaddingOf(len: nat, zeros: seq<byte>)
    requires 8 * len < WORD64 && zeros == [0x80] + Zeros(ZeroCount(len))
    ensures Padding(len) == zeros + Le(8 * len, 8)
  {
    NotWrapped(8 * len);
  }

  lemma SameCounts(a: seq<byte>, za: seq<byte>, b: seq<byte>, zb: seq<byte>)
    requires 8 * |a| < WORD64 && 8 * |b| < WORD64
    requires a + (za + Le(8 * |a|, 8)) == b + (zb + Le(8 * |b|, 8))
    ensures |a| == |b| && a + za == b + zb
  {
    Pow256Of8();
    EndsWithCount(a, za, 8 * |a|, b, zb, 8 * |b|, 8);
  }

  /** Two messages whose lengths the counter can tell apart never have the same padded message. */
  lemma PaddedMessagesDiffer(a: seq<byte>, b: seq<byte>)
    requires 8 * |a| < WORD64 && 8 * |b| < WORD64
    requires a + Padding(|a|) == b + Padding(|b|)
    ensures a == b
  {
    var za, zb := [0x80] + Zeros(ZeroCount(|a|)), [0x80] + Zeros(ZeroCount(|b|));
    PaddingOf(|a|, za);
    PaddingOf(|b|, zb);
    SameCounts(a, za, b, zb);
    Tails(a, za, b, zb);
  }

  // ----- the bytes, number by number

  lemma LowByte(a: byte, rest: nat)
    ensures (a + 0x100 * rest) % 0x100 == a && (a + 0x100 * rest) / 0x100 == rest
  {
  }

  /** A word is written so that a little-endian machine reads it again. */
  lemma LeOfWord(b: seq<byte>)
    requires |b| == 4
    ensures Le(Word(b), 4) == b
  {
    var w: int, x: int, y: int, z: int := b[0], b[1], b[2], b[3];
    LowByte(w, x + 0x100 * (y + 0x100 * z));
    LowByte(x, y + 0x100 * z);
    LowByte(y, z);
    assert Le(z, 1) == [z] && Le(y + 0x100 * z, 2) == [y] + Le(z, 1);
    assert Le(x + 0x100 * (y + 0x100 * z), 3) == [x] + Le(y + 0x100 * z, 2);
    assert b == [w] + Le(x + 0x100 * (y + 0x100 * z), 3);
  }

  lemma LeOfNumber(v: word, w: byte, x: byte, y: byte, z: byte)
    requires v == (w as int) + 0x100 * (x as int) + 0x1_0000 * (y as int) + 0x100_0000 * (z as int)
    ensures Le(v, 4) == [w, x, y, z]
  {
    LeOfWord([w, x, y, z]);
  }

  lemma WordOfLe(v: word)
    ensures Word(Le(v, 4)) == v
  {
    var b := Le(v, 4);
    Pow256Of4();
    LeOfWord(b);
    LeInjective(v, Word(b), 4);
  }

  lemma Pow256Of4()
    ensures Pow256(4) == WORD
  {
    assert Pow256(2) == 0x1_0000;
  }

  lemma FourParts(a: seq<byte>, b: seq<byte>, c: seq<byte>, d: seq<byte>)
    requires |a| == |b| == |c| == |d| == 4
    ensures var s := a + b + c + d; s[..4] == a && s[4..8] == b && s[8..12] == c && s[12..16] == d
  {
  }

  /** The digest is the four words of the last state, each with its lowest byte first. */
  lemma DigestSpells(f: Transformation, m: seq<byte>)
    ensures var d, last := Digest(f, m), Fold(f, START, m + Padding(|m|));
      && |d| == 16 && Word(d[..4]) == last[0] && Word(d[4..8]) == last[1]
      && Word(d[8..12]) == last[2] && Word(d[12..16]) == last[3]
  {
    var last := Fold(f, START, m + Padding(|m|));
    FourParts(Le(last[0], 4), Le(last[1], 4), Le(last[2], 4), Le(last[3], 4));
    WordOfLe(last[0]);
    WordOfLe(last[1]);
    WordOfLe(last[2]);
    WordOfLe(last[3]);
  }

  /** The start state as section 3.3 of RFC 1321 gives it, in bytes. */
  lemma StartBytes()
    ensures WordBytes(START) == [0x01, 0x23, 0x45, 0x67] + [0x89, 0xab, 0xcd, 0xef]
                              + [0xfe, 0xdc, 0xba, 0x98] + [0x76, 0x54, 0x32, 0x10]
  {
    LeOfNumber(START[0], 0x01, 0x23, 0x45, 0x67);
    LeOfNumber(START[1], 0x89, 0xab, 0xcd, 0xef);
    LeOfNumber(START[2], 0xfe, 0xdc, 0xba, 0x98);
    LeOfNumber(START[3], 0x76, 0x54, 0x32, 0x10);
  }

  /** Sections 3.1 and 3.2 of RFC 1321: a one, as few zeros as bring the message to 64 bits below a multiple
      of 512, and the number of its bits modulo 2^64, its low word first. */
  predicate Pads(len: nat, p: seq<byte>) {
    && 9 <= |p| <= 72 && (len + |p|) % 64 == 0 && p[0] == 0x80
    && (forall i :: 0 < i < |p| - 8 ==> p[i] == 0)
    && Word(p[|p| - 8..|p| - 4]) + WORD * Word(p[|p| - 4..]) == 8 * len % WORD64
  }

  lemma CountIs(lo: seq<byte>, hi: seq<byte>, len: nat)
    requires |lo| == |hi| == 4 && Word(lo) + WORD * Word(hi) == 8 * len % WORD64
    ensures lo + hi == BitCount(len)
  {
    LeOfWord(lo);
    LeOfWord(hi);
    CounterBytes(Word(lo), Word(hi));
  }

  lemma HalvesOfCount(len: nat)
    ensures var b := BitCount(len); Word(b[..4]) + WORD * Word(b[4..]) == 8 * len % WORD64
  {
    var v := 8 * len % WORD64;
    var lo, hi := v % WORD, v / WORD;
    CounterBytes(lo, hi);
    WordOfLe(lo);
    WordOfLe(hi);
    assert (Le(lo, 4) + Le(hi, 4))[..4] == Le(lo, 4) && (Le(lo, 4) + Le(hi, 4))[4..] == Le(hi, 4);
  }

  lemma PaddingPads(len: nat)
    ensures Pads(len, Padding(len))
  {
    var p, n := Padding(len), |Padding(len)|;
    PaddedLength(len);
    ZerosAfter(len / 64, len % 64);
    HalvesOfCount(len);
    assert p[n - 8..n - 4] == BitCount(len)[..4] && p[n - 4..] == BitCount(len)[4..];
  }

  lemma SameLength(len: nat, a: nat, b: nat)
    requires 9 <= a <= 72 && 9 <= b <= 72 && (len + a) % 64 == 0 && (len + b) % 64 == 0
    ensures a == b
  {
  }

  /** There is exactly one such padding. */
  lemma PaddingIff(len: nat, p: seq<byte>)
    ensures p == Padding(len) <==> Pads(len, p)
  {
    PaddingPads(len);
    if Pads(len, p) {
      var q, n := Padding(len), |p|;
      SameLength(len, n, |q|);
      CountIs(p[n - 8..n - 4], p[n - 4..], len);
      assert p == p[..n - 8] + (p[n - 8..n - 4] + p[n - 4..]);
      assert q == q[..n - 8] + BitCount(len);
      assert p[..n - 8] == q[..n - 8];
    }
  }
}
