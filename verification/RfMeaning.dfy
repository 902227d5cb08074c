/**
 What the receivers of slowrf.c make of any pulses at all, with the lengths as
 numbers: which pulses count, what they stand for, and that nothing is reported
 which they do not spell.
 */
module RfMeaning {
  import opened Common
  import opened SlowRf
  import opened RfSender
  import opened RfRoundTrip
  import opened RfIntertechno

  // ----- FS20: from pulses to bits

  /** Pulses that are neither a bit, nor half a bit, nor a gap. */
  predicate Noise(x: nat) { x < 250 || 1600 < x <= 4000 }

  predicate Half(bit: bool, x: nat) { if bit then 550 < x <= 900 else 250 <= x <= 550 }

  predicate Whole(bit: bool, x: nat) { if bit then 1150 < x <= 1600 else 900 < x <= 1150 }

  /** A bit is two equal halves or one pulse that has the length of both. */
  predicate Means(p: seq<nat>, bit: bool) {
    || (|p| == 1 && Whole(bit, p[0]))
    || (|p| == 2 && Half(bit, p[0]) && Half(bit, p[1]))
  }

  function Loud(p: seq<nat>): seq<nat> {
    if p == [] then [] else Loud(p[..|p| - 1]) + if Noise(p[|p| - 1]) then [] else [p[|p| - 1]]
  }

  /** Pulses of other lengths do not matter, not even between the halves of a bit. */
  lemma {:induction false} NoiseIsIgnored(d: Fs20, p: seq<nat>)
    ensures Fs20Pulses(d, Loud(p)) == Fs20Pulses(d, p)
    decreases |p|
  {
    if p != [] {
      var front, x := p[..|p| - 1], p[|p| - 1];
      NoiseIsIgnored(d, front);
      if Noise(x) {
        assert Loud(front) + [] == Loud(front);
      } else {
        PulseSnoc(d, Loud(front), x);
      }
    }
  }

  /** A half that is not followed by its other half is forgotten. */
  lemma HalfIsForgotten(d: Fs20, bit: bool, a: nat, b: nat)
    requires d.pending != Some(bit) && Half(bit, a) && (Half(!bit, b) || Whole(bit, b) || Whole(!bit, b))
    ensures Fs20Pulse(Fs20Pulse(d, a), b) == Fs20Pulse(d.(pending := None), b)
  {
    assert Fs20Pulse(d, a) == d.(pending := Some(bit));
  }

  lemma BitIsMeant(d: Fs20, p: seq<nat>, bit: bool)
    requires d.pending == None && Means(p, bit)
    ensures Fs20Pulses(d, p) == Fs20Bit(d, bit) && Fs20Bit(d, bit).pending == None
  {
    if |p| == 1 {
      PulseSnoc(d, [], p[0]);
      assert [] + [p[0]] == p && d.(pending := None) == d;
    } else {
      PulseSnoc(d, [], p[0]);
      PulseSnoc(d, [p[0]], p[1]);
      assert [] + [p[0]] == [p[0]] && [p[0]] + [p[1]] == p;
      assert d.(pending := Some(bit)).(pending := None) == d;
    }
  }

  predicate MeansAll(parts: seq<seq<nat>>, bits: seq<bool>) {
    |parts| == |bits| && forall i :: 0 <= i < |bits| ==> Means(parts[i], bits[i])
  }

  lemma {:induction false} BitsAreMeant(d: Fs20, parts: seq<seq<nat>>, bits: seq<bool>)
    requires d.pending == None && MeansAll(parts, bits)
    ensures Fs20Pulses(d, Concat(parts)) == Fs20Bits(d, bits) && Fs20Bits(d, bits).pending == None
    decreases |bits|
  {
    if bits != [] {
      var n := |bits| - 1;
      BitsAreMeant(d, parts[..n], bits[..n]);
      Unsnoc(parts);
      ConcatSnoc(parts[..n], parts[n]);
      Fs20Concat(d, Concat(parts[..n]), parts[n]);
      BitIsMeant(Fs20Bits(d, bits[..n]), parts[n], bits[n]);
    }
  }

  lemma AnyHead(n: nat)
    ensures Fs20Bits(RESET_FS20, Zeros(n) + [true]) == SYNCED
  {
    ZerosHeard(n);
    FrontOfSnoc(Zeros(n), true);
  }

  lemma BytesAreMeant(n: nat, bytes: seq<byte>)
    ensures Fs20Bits(RESET_FS20, Zeros(n) + [true] + Groups(bytes)) == SYNCED.(data := Kept(bytes))
  {
    BitsConcat(RESET_FS20, Zeros(n) + [true], Groups(bytes));
    AnyHead(n);
    GroupsHeard(SYNCED, bytes);
  }

  lemma HalfAtEnd(d: Fs20, tail: seq<nat>)
    requires tail == [] || (|tail| == 1 && tail[0] <= 900 && d.pending == None)
    ensures Fs20Pulses(d, tail).data == d.data
  {
    if tail != [] {
      PulseSnoc(d, [], tail[0]);
      assert [] + [tail[0]] == tail;
    }
  }

  lemma MixedBits(bits: seq<bool>, parts: seq<seq<nat>>, tail: seq<nat>, body: seq<nat>)
    requires MeansAll(parts, bits) && Loud(body) == Concat(parts) + tail
    requires tail == [] || (|tail| == 1 && tail[0] <= 900)
    ensures Fs20Pulses(RESET_FS20, body).data == Fs20Bits(RESET_FS20, bits).data
  {
    NoiseIsIgnored(RESET_FS20, body);
    Fs20Concat(RESET_FS20, Concat(parts), tail);
    BitsAreMeant(RESET_FS20, parts, bits);
    HalfAtEnd(Fs20Bits(RESET_FS20, bits), tail);
  }

  lemma BytesToGap(t: Task, data: seq<byte>, body: seq<nat>, gap: nat)
    requires t.fs == RESET_FS20 && NoGap(body) && gap > 4000 && Fs20Pulses(RESET_FS20, body).data == data
    ensures Only20(Run(t, body + [gap]).reports) == if |data| >= 4 then [data] else []
  {
    OnlyToGap(t, body, gap);
  }

  /**
   A transmission is reported however its bits are formed: each as two halves or as one
   long pulse, with noise anywhere, after a preamble of any length, and with the first
   half of a last bit in front of the gap or not.
   */
  lemma Fs20Mixed(t: Task, n: nat, bytes: seq<byte>, bits: seq<bool>, parts: seq<seq<nat>>, tail: seq<nat>,
                  body: seq<nat>, gap: nat)
    requires t.fs == RESET_FS20 && NoGap(body) && gap > 4000
    requires bits == Zeros(n) + [true] + Groups(bytes)
    requires MeansAll(parts, bits) && Loud(body) == Concat(parts) + tail
    requires tail == [] || (|tail| == 1 && tail[0] <= 900)
    ensures Only20(Run(t, body + [gap]).reports) == if |bytes| >= 4 then [bytes[..Min(|bytes|, 16)]] else []
  {
    BytesAreMeant(n, bytes);
    MixedBits(bits, parts, tail, body);
    BytesToGap(t, Kept(bytes), body, gap);
  }

  lemma ChecksumIs(hc1: byte, hc2: byte, address: byte, command: byte)
    ensures var b := Fs20Bytes(hc1, hc2, address, command);
      && |b| == 5 && b[..4] == [hc1, hc2, address, command]
      && ((hc1 as int) + hc2 + address + command + 6 - b[4]) % 0x100 == 0
  {
  }

  lemma FiveAreReported(t: Task, bytes: seq<byte>, got: seq<nat>)
    requires t.fs == RESET_FS20 && |bytes| == 5 && Jitter20(Frame20(bytes), got)
    ensures Only20(Run(t, got).reports) == [bytes]
  {
    Fs20RoundTrip(t, bytes, got);
    assert Kept(bytes) == bytes;
  }

  /** What is reported of a command: house code, address and command, and the checksum that closes them. */
  lemma CommandIsReported(t: Task, hc1: byte, hc2: byte, address: byte, command: byte, got: seq<nat>)
    requires t.fs == RESET_FS20 && Jitter20(Frame20(Fs20Bytes(hc1, hc2, address, command)), got)
    ensures var r := Only20(Run(t, got).reports);
      && |r| == 1 && |r[0]| == 5 && r[0][..4] == [hc1, hc2, address, command]
      && ((hc1 as int) + hc2 + address + command + 6 - r[0][4]) % 0x100 == 0
  {
    ChecksumIs(hc1, hc2, address, command);
    FiveAreReported(t, Fs20Bytes(hc1, hc2, address, command), got);
  }

  // ----- FS20: nothing is reported that was not heard

  /** The half bit that is left over, and the bits that are complete. */
  function LeftOver(p: seq<nat>): Option<bool> {
    if p == [] then None else Fs20Half(LeftOver(p[..|p| - 1]), p[|p| - 1]).1
  }

  function BitIn(p: seq<nat>): seq<bool>
    requires p != []
  {
    match Fs20Half(LeftOver(p[..|p| - 1]), p[|p| - 1]).0 case None => [] case Some(b) => [b]
  }

  function BitsIn(p: seq<nat>): seq<bool> {
    if p == [] then [] else BitsIn(p[..|p| - 1]) + BitIn(p)
  }

  predicate Agrees(d: Fs20, e: Fs20) { d.(pending := None) == e.(pending := None) }

  lemma OneMoreBit(d: Fs20, bits: seq<bool>, more: seq<bool>)
    requires |more| == 1
    ensures Fs20Bits(d, bits + more) == Fs20Bit(Fs20Bits(d, bits), more[0])
  {
    FrontOfSnoc(bits, more[0]);
    assert more == [more[0]];
  }

  lemma PulseIsHeard(d: Fs20, e: Fs20, x: nat)
    requires Agrees(d, e)
    ensures var (bit, pending) := Fs20Half(d.pending, x);
      && Fs20Pulse(d, x).pending == pending
      && Agrees(Fs20Pulse(d, x), match bit case None => e case Some(b) => Fs20Bit(e, b))
  {
    var (bit, pending) := Fs20Half(d.pending, x);
    if bit.Some? {
      BitAgrees(d.(pending := None), e, bit.value);
    }
  }

  lemma BitAgrees(d: Fs20, e: Fs20, bit: bool)
    requires Agrees(d, e) && d.pending == None
    ensures Agrees(Fs20Bit(d, bit), Fs20Bit(e, bit)) && Fs20Bit(d, bit).pending == None
  {
    assert d.data == e.data && d.bits == e.bits && d.syncFound == e.syncFound;
  }

  lemma {:induction false} BitsAreHeard(p: seq<nat>)
    ensures Agrees(Fs20Pulses(RESET_FS20, p), Fs20Bits(RESET_FS20, BitsIn(p)))
    ensures Fs20Pulses(RESET_FS20, p).pending == LeftOver(p)
    decreases |p|
  {
    if p != [] {
      var front := p[..|p| - 1];
      BitsAreHeard(front);
      PulseIsHeard(Fs20Pulses(RESET_FS20, front), Fs20Bits(RESET_FS20, BitsIn(front)), p[|p| - 1]);
      if BitIn(p) == [] {
        assert BitsIn(front) + [] == BitsIn(front);
      } else {
        OneMoreBit(RESET_FS20, BitsIn(front), BitIn(p));
      }
    }
  }

  lemma {:induction false} BitsOfValue(bits: seq<bool>)
    ensures BitsOf(Value(bits), |bits|) == bits && Value(bits) < Pow2(|bits|)
    decreases |bits|
  {
    if bits != [] {
      var n := |bits| - 1;
      BitsOfValue(bits[..n]);
      PushBit(Value(bits[..n]), n, bits[n]);
      Unsnoc(bits);
    }
  }

  lemma ByteOfEight(bits: seq<bool>)
    requires |bits| == 8
    ensures BitsOf(Byte(bits), 8) == bits
  {
    BitsOfValue(bits);
    assert Pow2(8) == 0x100 by { Pow2Small(); }
    assert Byte(bits) == Value(bits);
  }

  /** A group that passes the parity check is the group of its byte. */
  lemma EvenGroup(g: seq<bool>)
    requires |g| == 9 && !Odd(g)
    ensures g == Group(Byte(g[..8]))
  {
    ByteOfEight(g[..8]);
    assert g == g[..8] + [Odd(g[..8])];
  }

  /** Behind a synchronisation there are whole groups with the right parity, and the group that is being collected. */
  ghost predicate Spelled(bits: seq<bool>, before: seq<bool>, bytes: seq<byte>, d: Fs20) {
    bits == before + ([true] + Groups(bytes)) + d.bits && |d.bits| < 9 && d.data == Kept(bytes)
  }

  lemma GroupsSnoc(bytes: seq<byte>, b: byte)
    ensures Groups(bytes + [b]) == Groups(bytes) + Group(b)
  {
    FrontOfSnoc(bytes, b);
  }

  lemma Regroup(x: seq<bool>, y: seq<bool>, g: seq<bool>, h: seq<bool>, bit: bool)
    requires g + [bit] == h
    ensures (x + ([true] + y) + g) + [bit] == x + ([true] + (y + h)) + []
  {
  }

  lemma Longer1(x: seq<bool>, g: seq<bool>, bit: bool)
    ensures (x + g) + [bit] == x + (g + [bit])
  {
  }

  lemma NextBit(bits: seq<bool>, before: seq<bool>, bytes: seq<byte>, d: Fs20, bit: bool)
      returns (before2: seq<bool>, bytes2: seq<byte>)
    requires d.syncFound && Spelled(bits, before, bytes, d)
    ensures var e := Fs20Bit(d, bit); e.syncFound ==> Spelled(bits + [bit], before2, bytes2, e)
  {
    before2, bytes2 := before, bytes;
    var g := d.bits + [bit];
    if |g| == 9 {
      if !Odd(g) {
        bytes2 := bytes + [Byte(g[..8])];
        EvenGroup(g);
        GroupsSnoc(bytes, Byte(g[..8]));
        KeptSnoc(bytes2);
        FrontOfSnoc(bytes, Byte(g[..8]));
        Regroup(before, Groups(bytes), d.bits, g, bit);
      }
    } else {
      Longer1(before + ([true] + Groups(bytes)), d.bits, bit);
    }
  }

  lemma FirstOne(bits: seq<bool>, d: Fs20)
    requires d == SYNCED
    ensures Spelled(bits + [true], bits, [], d)
  {
    assert [true] + Groups([]) == [true];
  }

  lemma {:induction false} OnlyWhatIsSpelled(bits: seq<bool>) returns (before: seq<bool>, bytes: seq<byte>)
    ensures var d := Fs20Bits(RESET_FS20, bits);
      if d.syncFound then Spelled(bits, before, bytes, d) && d.pending == None else d == RESET_FS20
    decreases |bits|
  {
    before, bytes := [], [];
    if bits != [] {
      var n := |bits| - 1;
      var d := Fs20Bits(RESET_FS20, bits[..n]);
      before, bytes := OnlyWhatIsSpelled(bits[..n]);
      Unsnoc(bits);
      if d.syncFound {
        before, bytes := NextBit(bits[..n], before, bytes, d, bits[n]);
      } else if bits[n] {
        before, bytes := bits[..n], [];
        FirstOne(bits[..n], Fs20Bits(RESET_FS20, bits));
      }
    }
  }

  lemma DataOfBits(t: Task, body: seq<nat>, gap: nat)
    requires t.fs == RESET_FS20 && NoGap(body) && gap > 4000
    ensures var data := Fs20Bits(RESET_FS20, BitsIn(body)).data;
      Only20(Run(t, body + [gap]).reports) == if |data| >= 4 then [data] else []
  {
    BitsAreHeard(body);
    OnlyToGap(t, body, gap);
  }

  /**
   Whatever is received, a report of FS20 is the bytes, at most the first sixteen, of a
   transmission whose bits were heard up to the gap: a one, the groups of all of them with
   the right parities, and fewer than nine bits behind them.
   */
  lemma Fs20Sound(t: Task, body: seq<nat>, gap: nat) returns (before: seq<bool>, bytes: seq<byte>, rest: seq<bool>)
    requires t.fs == RESET_FS20 && NoGap(body) && gap > 4000 && Only20(Run(t, body + [gap]).reports) != []
    ensures BitsIn(body) == before + ([true] + Groups(bytes)) + rest && |rest| < 9 && |bytes| >= 4
    ensures Only20(Run(t, body + [gap]).reports) == [bytes[..Min(|bytes|, 16)]]
  {
    var bits := BitsIn(body);
    before, bytes := OnlyWhatIsSpelled(bits);
    rest := Fs20Bits(RESET_FS20, bits).bits;
    DataOfBits(t, body, gap);
  }

  // ----- Intertechno V3

  /** The four pulses of a symbol, in numbers. */
  predicate Quad3(c: char, p: seq<nat>) {
    && |p| == 4 && 100 < p[0] < 600 && 600 <= p[1] < 1500
    && (c == '0' || c == '1')
    && (if c == '0' then 100 < p[2] < 600 else 600 <= p[2] < 1500)
    && (if c == '0' then 600 <= p[3] < 1500 else 100 < p[3] < 600)
  }

  /** `p` are the pulses of `word`, symbol by symbol. */
  predicate Spells3(word: string, p: seq<nat>) {
    var n := |word| - 1;
    && |p| == 4 * |word|
    && (word != "" ==> Spells3(word[..n], p[..4 * n]) && Quad3(word[n], p[4 * n..]))
  }

  lemma SymbolIff3(c: char, p: seq<nat>)
    requires |p| == 4
    ensures It3Symbol(p) == Some(c) <==> Quad3(c, p)
  {
  }

  lemma SpellsMore3(word: string, p: seq<nat>, c: char, q: seq<nat>)
    requires Spells3(word, p) && Quad3(c, q)
    ensures Spells3(word + [c], p + q)
  {
    FrontOfSnoc(word, c);
    assert (p + q)[..4 * |word|] == p && (p + q)[4 * |word|..] == q;
  }

  lemma {:induction false} SpelledIsHeard3(word: string, p: seq<nat>)
    requires Spells3(word, p) && |word| <= 32
    ensures It3Pulses(READY3, p) == It3(word, [], |word| < 32)
    decreases |word|
  {
    if word != "" {
      var n := |word| - 1;
      SpelledIsHeard3(word[..n], p[..4 * n]);
      It3Concat(READY3, p[..4 * n], p[4 * n..]);
      assert p == p[..4 * n] + p[4 * n..];
      SymbolIff3(word[n], p[4 * n..]);
      FourPulses3(word[..n], p[4 * n..]);
      Unsnoc(word);
    }
  }

  /** What a decoder has heard since it was told to listen: the symbols, then the pulses of the next. */
  predicate Heard3(d: It3, p: seq<nat>) {
    && 4 * |d.s| <= |p| && Spells3(d.s, p[..4 * |d.s|]) && |d.s| <= 32
    && (d.syncFound ==> |d.s| < 32 && |d.pulses| < 4 && p[4 * |d.s|..] == d.pulses)
  }

  lemma PulseHeard3(d: It3, p: seq<nat>, x: nat)
    requires Heard3(d, p)
    ensures Heard3(It3Pulse(d, x), p + [x])
  {
    var n := 4 * |d.s|;
    assert (p + [x])[..n] == p[..n];
    if d.syncFound {
      assert (p + [x])[n..] == d.pulses + [x];
      if |d.pulses| == 3 {
        FourthPulse3(d, p, x);
      }
    }
  }

  lemma FourthPulse3(d: It3, p: seq<nat>, x: nat)
    requires Heard3(d, p) && d.syncFound && |d.pulses| == 3
    ensures Heard3(It3Pulse(d, x), p + [x])
  {
    var n, q := 4 * |d.s|, d.pulses + [x];
    assert p + [x] == p[..n] + q;
    match It3Symbol(q) {
      case None =>
        assert (p + [x])[..n] == p[..n];
      case Some(c) =>
        SymbolIff3(c, q);
        SpellsMore3(d.s, p[..n], c, q);
        assert (p + [x])[..n + 4] == p + [x];
    }
  }

  lemma {:induction false} OnlySpelled3(p: seq<nat>)
    ensures Heard3(It3Pulses(READY3, p), p)
    decreases |p|
  {
    if p != [] {
      var n := |p| - 1;
      OnlySpelled3(p[..n]);
      PulseHeard3(It3Pulses(READY3, p[..n]), p[..n], p[n]);
      Unsnoc(p);
    }
  }

  lemma WordIff3(word: string, body: seq<nat>)
    requires |word| == 32
    ensures It3Pulses(READY3, body).s == word <==> |body| >= 128 && Spells3(word, body[..128])
  {
    OnlySpelled3(body);
    if |body| >= 128 && Spells3(word, body[..128]) {
      SpelledIsHeard3(word, body[..128]);
      It3Concat(READY3, body[..128], body[128..]);
      assert body == body[..128] + body[128..];
      DeafHears(It3(word, [], false), body[128..]);
    }
  }

  lemma AfterGapIs(t: Task, gap: nat)
    requires gap > 4000
    ensures Run(t, [gap]).task == Task(RESET_FS20, RESET_IT1, if 8000 < gap < 11000 then READY3 else RESET_IT3)
  {
    RunOne(t, gap);
  }

  /**
   Between two gaps a word of 32 symbols is reported by the V3 decoder exactly if the first
   gap has the length that announces one, and the first 128 pulses behind it spell the word.
   */
  lemma V3Iff(t: Task, gap1: nat, body: seq<nat>, gap2: nat, word: string)
    requires gap1 > 4000 && NoGap(body) && gap2 > 4000
    ensures var r := Run(Run(t, [gap1]).task, body + [gap2]).reports;
      Only3(r) == [word] <==>
      8000 < gap1 < 11000 && |word| == 32 && |body| >= 128 && Spells3(word, body[..128])
  {
    var a := Run(t, [gap1]).task;
    AfterGapIs(t, gap1);
    OnlyToGap(a, body, gap2);
    if 8000 < gap1 < 11000 {
      if |word| == 32 { WordIff3(word, body); }
    } else {
      DeafHears(RESET_IT3, body);
    }
  }

  // ----- Intertechno V1

  predicate Quad1(c: char, p: seq<nat>) {
    && |p| == 4 && (c == '0' || c == '1' || c == 'F')
    && (if c == '1' then 800 < p[0] <= 2200 && 100 <= p[1] <= 800 else 100 <= p[0] <= 800 && 800 < p[1] <= 2200)
    && (if c == '0' then 100 <= p[2] <= 800 && 800 < p[3] <= 2200 else 800 < p[2] <= 2200 && 100 <= p[3] <= 800)
  }

  predicate Spells1(word: string, p: seq<nat>) {
    var n := |word| - 1;
    && |p| == 4 * |word|
    && (word != "" ==> Spells1(word[..n], p[..4 * n]) && Quad1(word[n], p[4 * n..]))
  }

  lemma SymbolIff1(c: char, p: seq<nat>)
    requires |p| == 4
    ensures It1Symbol(p) == Some(c) <==> Quad1(c, p)
  {
  }

  lemma SpellsMore1(word: string, p: seq<nat>, c: char, q: seq<nat>)
    requires Spells1(word, p) && Quad1(c, q)
    ensures Spells1(word + [c], p + q)
  {
    FrontOfSnoc(word, c);
    assert (p + q)[..4 * |word|] == p && (p + q)[4 * |word|..] == q;
  }

  /** The symbols held are spelled by the pulses in front of the few that belong to none. */
  predicate Heard1(d: It1, p: seq<nat>) {
    var n := |p| - |d.recent|;
    var from := n - 4 * |d.s|;
    && from >= 0 && |d.recent| <= 4 && (d.s != "" ==> |d.recent| < 4) && |d.s| <= 12
    && p[n..] == d.recent && Spells1(d.s, p[from..n])
  }

  lemma SlideIs(p: seq<nat>, recent: seq<nat>, x: nat)
    requires |recent| <= 4 && |recent| <= |p| && p[|p| - |recent|..] == recent
    ensures var last := Slide(recent, x); (p + [x])[|p| + 1 - |last|..] == last
  {
  }

  lemma NoSymbolsYet(d: It1, p: seq<nat>)
    requires d.s == "" && |d.recent| <= 4 && |d.recent| <= |p| && p[|p| - |d.recent|..] == d.recent
    ensures Heard1(d, p)
  {
  }

  lemma FirstSymbolHeard1(p: seq<nat>, c: char, q: seq<nat>)
    requires Quad1(c, q) && |p| >= 4 && p[|p| - 4..] == q
    ensures Heard1(It1([c], []), p)
  {
    SpellsMore1("", [], c, q);
    assert [] + q == q && "" + [c] == [c] && p[|p| - 4..|p|] == q && p[|p|..] == [];
  }

  lemma SymbolHeardBehind1(s: string, p: seq<nat>, recent: seq<nat>, x: nat, c: char)
    requires s != "" && |s| < 12 && |recent| == 3 && Heard1(It1(s, recent), p) && Quad1(c, recent + [x])
    ensures Heard1(It1(s + [c], []), p + [x])
  {
    var n := |p| - 3;
    var from := n - 4 * |s|;
    var all := p + [x];
    SpellsMore1(s, p[from..n], c, recent + [x]);
    assert all[from..n + 4] == p[from..n] + (recent + [x]);
    assert all[n + 4..] == [];
  }

  lemma FourthPulse1(d: It1, p: seq<nat>, x: nat, q: seq<nat>)
    requires Heard1(d, p) && q == Slide(d.recent, x) && |q| == 4 && It1Symbol(q).Some?
    ensures Heard1(It1Pulse(d, x), p + [x])
  {
    var c := It1Symbol(q).value;
    SymbolIff1(c, q);
    if d.s == "" {
      SlideIs(p, d.recent, x);
      FirstSymbolHeard1(p + [x], c, q);
      assert "" + [c] == [c];
    } else if |d.s| < 12 {
      assert d == It1(d.s, d.recent);
      SymbolHeardBehind1(d.s, p, d.recent, x, c);
    } else {
      NoSymbolsYet(RESET_IT1, p + [x]);
    }
  }

  lemma PulseHeard1(d: It1, p: seq<nat>, x: nat)
    requires Heard1(d, p)
    ensures Heard1(It1Pulse(d, x), p + [x])
  {
    var all, q, n := p + [x], Slide(d.recent, x), |p| - |d.recent|;
    SlideIs(p, d.recent, x);
    if |q| == 4 && It1Symbol(q).Some? {
      FourthPulse1(d, p, x, q);
    } else if d.s == "" {
      NoSymbolsYet(It1Pulse(d, x), all);
    } else if |q| == 4 {
      NoSymbolsYet(RESET_IT1, all);
    } else {
      assert all[n - 4 * |d.s|..n] == p[n - 4 * |d.s|..n];
    }
  }

  lemma {:induction false} OnlySpelled1(p: seq<nat>)
    ensures Heard1(It1Pulses(RESET_IT1, p), p)
    decreases |p|
  {
    if p == [] {
      NoSymbolsYet(RESET_IT1, []);
    } else {
      var n := |p| - 1;
      OnlySpelled1(p[..n]);
      PulseHeard1(It1Pulses(RESET_IT1, p[..n]), p[..n], p[n]);
      Unsnoc(p);
    }
  }

  /** Whatever is received, a word that the V1 decoder reports is spelled by 48 pulses
      with at most three more between them and the gap. */
  lemma V1Sound(t: Task, body: seq<nat>, gap: nat) returns (extra: nat)
    requires t.it1 == RESET_IT1 && NoGap(body) && gap > 4000 && Only1(Run(t, body + [gap]).reports) != []
    ensures var r := Only1(Run(t, body + [gap]).reports);
      && |r| == 1 && |r[0]| == 12 && extra < 4 && |body| >= 48 + extra
      && Spells1(r[0], body[|body| - extra - 48..|body| - extra])
  {
    OnlyToGap(t, body, gap);
    OnlySpelled1(body);
    extra := |It1Pulses(RESET_IT1, body).recent|;
  }

  // ----- the search for a first symbol

  /** No four pulses in a row are a symbol. */
  predicate Silent(x: seq<nat>) { forall k :: 0 <= k <= |x| - 4 ==> !SymbolAt(x, k) }

  predicate SymbolAt(x: seq<nat>, k: nat)
    requires k + 4 <= |x|
  {
    Quad1('0', x[k..k + 4]) || Quad1('1', x[k..k + 4]) || Quad1('F', x[k..k + 4])
  }

  function LastFour(x: seq<nat>): seq<nat> { if |x| < 4 then x else x[|x| - 4..] }

  lemma SilentFront(x: seq<nat>, n: nat)
    requires Silent(x) && n <= |x|
    ensures Silent(x[..n])
  {
    forall k | 0 <= k <= n - 4 ensures !SymbolAt(x[..n], k) {
      assert x[..n][k..k + 4] == x[k..k + 4] && !SymbolAt(x, k);
    }
  }

  lemma LastFourSlides(x: seq<nat>, y: nat)
    ensures Slide(LastFour(x), y) == LastFour(x + [y])
  {
  }

  lemma SilentAtEnd(x: seq<nat>)
    requires Silent(x) && |x| >= 4
    ensures It1Symbol(LastFour(x)) == None
  {
    var q := LastFour(x);
    assert !SymbolAt(x, |x| - 4) && x[|x| - 4..|x| - 4 + 4] == q;
    if It1Symbol(q).Some? { SymbolIff1(It1Symbol(q).value, q); }
  }

  lemma {:induction false} SearchSlides(x: seq<nat>)
    requires Silent(x)
    ensures It1Pulses(RESET_IT1, x) == It1("", LastFour(x))
    decreases |x|
  {
    if x != [] {
      var n := |x| - 1;
      SilentFront(x, n);
      SearchSlides(x[..n]);
      Unsnoc(x);
      LastFourSlides(x[..n], x[n]);
      if |x| >= 4 { SilentAtEnd(x); }
    }
  }

  lemma FourthOfFirst(front: seq<nat>, c: char, q: seq<nat>)
    requires Silent(front) && Quad1(c, q) && Slide(LastFour(front), q[3]) == q
    ensures It1Pulses(RESET_IT1, front + [q[3]]) == It1([c], [])
  {
    SearchSlides(front);
    PulseSnoc1(RESET_IT1, front, q[3]);
    SymbolIff1(c, q);
    assert "" + [c] == [c];
  }

  /** The search finds the first four pulses that are a symbol. */
  lemma FirstSymbol(x: seq<nat>, c: char, q: seq<nat>)
    requires Quad1(c, q) && Silent(x + q[..3])
    ensures It1Pulses(RESET_IT1, x + q) == It1([c], [])
  {
    var front := x + q[..3];
    assert x + q == front + [q[3]];
    assert Slide(LastFour(front), q[3]) == q;
    FourthOfFirst(front, c, q);
  }

  lemma {:induction false} SpelledIsHeard1(d: It1, word: string, p: seq<nat>)
    requires d.recent == [] && |d.s| + |word| <= 12 && Spells1(word, p)
    ensures It1Pulses(d, p) == It1(d.s + word, [])
    decreases |word|
  {
    if word == "" {
      assert d.s + word == d.s;
    } else {
      var n := |word| - 1;
      SpelledIsHeard1(d, word[..n], p[..4 * n]);
      It1Concat(d, p[..4 * n], p[4 * n..]);
      assert p == p[..4 * n] + p[4 * n..];
      SymbolIff1(word[n], p[4 * n..]);
      FourPulses1(d.s + word[..n], p[4 * n..]);
      Unsnoc(word);
      assert (d.s + word[..n]) + [word[n]] == d.s + word;
    }
  }

  /** Four pulses that are no symbol throw away what has been collected. */
  lemma BrokenOff1(d: It1, q: seq<nat>)
    requires 1 <= |d.s| <= 12 && d.recent == [] && |q| == 4 && Silent(q)
    ensures It1Pulses(d, q) == RESET_IT1
  {
    SilentAtEnd(q);
    assert q[0..] == q;
    FourPulses1(d.s, q);
  }

  lemma FewMore1(s: string, extra: seq<nat>)
    requires |extra| < 4
    ensures It1Pulses(It1(s, []), extra).s == s && It1Pulses(It1(s, []), extra).recent == extra
    decreases |extra|
  {
    if extra != [] {
      FewMore1(s, extra[..|extra| - 1]);
      Unsnoc(extra);
    }
  }

  lemma WordBehindNoise(x: seq<nat>, c: char, q: seq<nat>, word: string, p: seq<nat>, extra: seq<nat>)
    requires Quad1(c, q) && Silent(x + q[..3])
    requires |word| == 11 && Spells1(word, p) && |extra| < 4
    ensures It1Pulses(RESET_IT1, (x + q) + p + extra).s == [c] + word
  {
    FirstSymbol(x, c, q);
    SpelledIsHeard1(It1([c], []), word, p);
    It1Concat(RESET_IT1, x + q, p);
    It1Concat(RESET_IT1, (x + q) + p, extra);
    FewMore1([c] + word, extra);
  }

  /** The V1 decoder reports a word behind any pulses, as long as its first symbol is the first that can be found. */
  lemma V1BehindNoise(t: Task, x: seq<nat>, c: char, q: seq<nat>, word: string, p: seq<nat>, extra: seq<nat>,
                      body: seq<nat>, gap: nat)
    requires t.it1 == RESET_IT1 && body == (x + q) + p + extra && NoGap(body) && gap > 4000
    requires Quad1(c, q) && Silent(x + q[..3])
    requires |word| == 11 && Spells1(word, p) && |extra| < 4
    ensures Only1(Run(t, body + [gap]).reports) == [[c] + word]
  {
    WordBehindNoise(x, c, q, word, p, extra);
    OnlyToGap(t, body, gap);
  }
}
