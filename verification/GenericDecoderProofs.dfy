/**
 What the packets of the generic decoder mean: every one of them is a parse of
 a run of pulses, and a protocol whose symbols can be told apart decodes every
 transmission that is inside its tolerances.
 */
module GenericDecoderProofs {
  import opened Common
  import opened GenericDecoder

  // ----- frames

  /** The pulses match the first |run| entries of the table. */
  predicate Follows(p: Protocol, defs: seq<PulseDef>, run: seq<Pulse>) {
    |run| <= |defs| && forall i | 0 <= i < |run| :: Matches(p, defs[i], run[i])
  }

  /** One complete symbol. */
  predicate IsSymbol(p: Protocol, bit: bool, run: seq<Pulse>) {
    |run| == SymbolLen(p, bit) && Follows(p, Defs(p, bit), run)
  }

  /** The beginning of a symbol. */
  predicate Begins(p: Protocol, bit: bool, run: seq<Pulse>) {
    |run| < SymbolLen(p, bit) && Follows(p, Defs(p, bit), run)
  }

  /** The low 64 bits of the number that the bits spell. */
  function ValueOf(bits: seq<bool>): nat {
    if bits == [] then 0
    else (ValueOf(bits[..|bits| - 1]) * 2 + if bits[|bits| - 1] then 1 else 0) % WORD64
  }

  /** A sync, some symbols, and what came after the last complete symbol. */
  datatype Frame = Frame(sync: seq<Pulse>, symbols: seq<seq<Pulse>>, bits: seq<bool>, tail: seq<Pulse>)

  function PulsesOf(f: Frame): seq<Pulse> {
    f.sync + Concat(f.symbols) + f.tail
  }

  predicate IsFrame(p: Protocol, f: Frame) {
    && |f.sync| == p.syncLen > 0 && Follows(p, p.sync, f.sync)
    && |f.symbols| == |f.bits| && forall i | 0 <= i < |f.bits| :: IsSymbol(p, f.bits[i], f.symbols[i])
  }

  /** A packet is put out after max_bits symbols; or when at least min_bits
      symbols, perhaps the beginning of another one, and then a pulse that
      continues neither symbol have come. */
  predicate EndsPacket(p: Protocol, f: Frame) {
    || (p.maxBits > 0 && |f.bits| == p.maxBits && f.tail == [])
    || (&& |f.bits| % WORD16 >= p.minBits && |f.tail| > 0
        && !Follows(p, p.bit0, f.tail) && !Follows(p, p.bit1, f.tail)
        && (Begins(p, false, f.tail[..|f.tail| - 1]) || Begins(p, true, f.tail[..|f.tail| - 1])))
  }

  ghost predicate TrueParse(p: Protocol, run: seq<Pulse>, data: nat) {
    exists f: Frame ::
      IsFrame(p, f) && run == PulsesOf(f) && data == ValueOf(f.bits) && EndsPacket(p, f)
  }

  /** The packets are parses of disjoint runs of the stream, in order. */
  ghost predicate Explains(p: Protocol, xs: seq<Pulse>, packets: seq<nat>)
    decreases |packets|
  {
    packets == [] ||
    exists before: seq<Pulse>, run: seq<Pulse>, after: seq<Pulse> ::
      xs == before + run + after && TrueParse(p, run, packets[0]) && Explains(p, after, packets[1..])
  }

  // ----- the invariant

  predicate Candidate(p: Protocol, bit: bool, alive: bool, idx: nat, tail: seq<Pulse>) {
    && |tail| < MAX_SEQ_LEN
    && (alive <==> Follows(p, Defs(p, bit), tail))
    && (alive ==> idx == |tail| < SymbolLen(p, bit))
  }

  /** While waiting, the last pulses match the beginning of the sync; while
      reading, they are a frame. */
  predicate Inv(p: Protocol, s: Track, f: Frame) {
    if !s.reading then
      f == Frame(f.sync, [], [], []) && |f.sync| == s.seqIdx && Follows(p, p.sync, f.sync)
    else
      && IsFrame(p, f)
      && Counts(s, f.bits)
      && (p.maxBits > 0 ==> |f.bits| < p.maxBits)
      && Candidates(p, s, f.tail)
  }

  predicate Counts(s: Track, bits: seq<bool>) {
    s.bitCnt == |bits| % WORD16 && s.bitBuffer == ValueOf(bits)
  }

  predicate Candidates(p: Protocol, s: Track, tail: seq<Pulse>) {
    Candidate(p, false, s.match0, s.idx0, tail) && Candidate(p, true, s.match1, s.idx1, tail)
  }

  /** A sync that is not complete yet. */
  function SyncOnly(sync: seq<Pulse>): (f: Frame)
    ensures PulsesOf(f) == sync
  {
    Frame(sync, [], [], [])
  }

  /** The last pulses that still match the beginning of the sync. */
  lemma SyncKept(p: Protocol, s: Track, sync: seq<Pulse>, x: Pulse) returns (kept: seq<Pulse>)
    requires InBounds(p, s) && !s.reading && |sync| == s.seqIdx && Follows(p, p.sync, sync)
    ensures var s' := StepSync(p, s, x);
            && |kept| == s'.seqIdx && Follows(p, p.sync, kept)
            && (s'.reading ==> |kept| == p.syncLen > 0 && s' == SymbolStart(p.syncLen, 0, 0))
    ensures kept == sync + [x] || kept == [x] || kept == []
  {
    var s' := StepSync(p, s, x);
    kept := if s'.seqIdx == s.seqIdx + 1 then sync + [x] else if s'.seqIdx == 1 then [x] else [];
  }

  /** Waiting for a sync: the last pulses, of which `dropped` are of no use any more. */
  lemma SyncStep(p: Protocol, s: Track, f: Frame, x: Pulse) returns (f': Frame, dropped: seq<Pulse>)
    requires InBounds(p, s) && !s.reading && Inv(p, s, f)
    ensures Inv(p, StepSync(p, s, x), f') && PulsesOf(f) + [x] == dropped + PulsesOf(f')
  {
    assert f == SyncOnly(f.sync);
    var kept := SyncKept(p, s, f.sync, x);
    f' := SyncOnly(kept);
    dropped := if kept == f.sync + [x] then [] else if kept == [x] then f.sync else f.sync + [x];
    assert Candidate(p, false, true, 0, []) && Candidate(p, true, true, 0, []);
  }

  /** A candidate with one more pulse. */
  lemma CandidateStep(p: Protocol, bit: bool, alive: bool, idx: nat, tail: seq<Pulse>, x: Pulse)
    requires Candidate(p, bit, alive, idx, tail)
    ensures var hit := alive && Matches(p, Defs(p, bit)[idx], x);
            && (hit <==> Follows(p, Defs(p, bit), tail + [x]))
            && (hit && |tail| + 1 >= DefLen(p, bit) ==> IsSymbol(p, bit, tail + [x]))
            && (hit && |tail| + 1 < DefLen(p, bit) ==> |tail| + 1 < SymbolLen(p, bit))
  {
    if Follows(p, Defs(p, bit), tail + [x]) {
      assert forall i | 0 <= i < |tail| :: (tail + [x])[i] == tail[i];
      assert (tail + [x])[|tail|] == x;
      assert Follows(p, Defs(p, bit), tail);
    }
  }

  lemma CountsBit(s: Track, bits: seq<bool>, bit: bool)
    requires Counts(s, bits)
    ensures Counts(AppendBit(s, bit), bits + [bit])
  {
    assert (bits + [bit])[..|bits|] == bits;
  }

  function GrowTail(f: Frame, x: Pulse): Frame {
    f.(tail := f.tail + [x])
  }

  /** The frame when its last pulses have become a symbol. */
  function Complete(f: Frame, bit: bool): Frame {
    Frame(f.sync, f.symbols + [f.tail], f.bits + [bit], [])
  }

  lemma CompleteFrame(p: Protocol, f: Frame, bit: bool)
    requires IsFrame(p, f) && IsSymbol(p, bit, f.tail)
    ensures IsFrame(p, Complete(f, bit)) && PulsesOf(Complete(f, bit)) == PulsesOf(f)
  {
    ConcatSnoc(f.symbols, f.tail);
  }

  lemma GrowFrame(p: Protocol, f: Frame, x: Pulse)
    ensures IsFrame(p, GrowTail(f, x)) == IsFrame(p, f) && PulsesOf(GrowTail(f, x)) == PulsesOf(f) + [x]
  {
  }

  /** The bit a pulse completes, if it completes exactly one. */
  function Completed(p: Protocol, s: Track, x: Pulse): Option<bool>
    requires InBounds(p, s) && s.reading
  {
    var f := Follow(p, s, x);
    var complete0, complete1 := f.match0 && f.idx0 >= p.bit0Len, f.match1 && f.idx1 >= p.bit1Len;
    if complete0 != complete1 then Some(complete1) else None
  }

  /** Both candidates with one more pulse. */
  lemma CandidatesStep(p: Protocol, s: Track, tail: seq<Pulse>, x: Pulse)
    requires InBounds(p, s) && s.reading && Candidates(p, s, tail)
    ensures var f := Follow(p, s, x);
            && (f.match0 <==> Follows(p, p.bit0, tail + [x]))
            && (f.match1 <==> Follows(p, p.bit1, tail + [x]))
            && (Completed(p, s, x).Some? ==> IsSymbol(p, Completed(p, s, x).value, tail + [x]))
            && (StepBits(p, s, x).packet == None && StepBits(p, s, x).state == f ==> Candidates(p, f, tail + [x]))
  {
    CandidateStep(p, false, s.match0, s.idx0, tail, x);
    CandidateStep(p, true, s.match1, s.idx1, tail, x);
  }

  /** A pulse that completes a symbol: the frame has one more bit. */
  lemma BitCompletes(p: Protocol, s: Track, f: Frame, x: Pulse, bit: bool)
    requires InBounds(p, s) && s.reading && Inv(p, s, f) && Completed(p, s, x) == Some(bit)
    ensures var g := Complete(GrowTail(f, x), bit);
            IsFrame(p, g) && PulsesOf(g) == PulsesOf(f) + [x] && Counts(AppendBit(s, bit), g.bits)
  {
    CandidatesStep(p, s, f.tail, x);
    GrowFrame(p, f, x);
    CompleteFrame(p, GrowTail(f, x), bit);
    CountsBit(s, f.bits, bit);
  }

  /** What the decoder does with a pulse, in terms of the symbol it completes. */
  lemma StepBitsCases(p: Protocol, s: Track, x: Pulse)
    requires InBounds(p, s) && s.reading
    ensures var f, c, r := Follow(p, s, x), Completed(p, s, x), StepBits(p, s, x);
            if !f.match0 && !f.match1 then
              r == Stepped(RESET_TRACK, if s.bitCnt >= p.minBits then Some(s.bitBuffer) else None)
            else if c == None then r == Stepped(f, None) || r == Stepped(RESET_TRACK, None)
            else
              var t := AppendBit(s, c.value);
              r == if p.maxBits > 0 && t.bitCnt >= p.maxBits then Stepped(RESET_TRACK, Some(t.bitBuffer))
                   else Stepped(t, None)
  {
  }

  lemma EmptyCandidates(p: Protocol)
    ensures Candidate(p, false, true, 0, []) && Candidate(p, true, true, 0, [])
  {
  }

  /** At the start of the next symbol. */
  lemma InvAtStart(p: Protocol, t: Track, g: Frame)
    requires IsFrame(p, g) && Counts(t, g.bits) && g.tail == [] && t.reading
    requires t.match0 && t.match1 && t.idx0 == t.idx1 == 0 && (p.maxBits > 0 ==> |g.bits| < p.maxBits)
    ensures Inv(p, t, g)
  {
    EmptyCandidates(p);
  }

  /** The track when a bit has been completed and was not the last. */
  lemma NotLastBit(p: Protocol, s: Track, x: Pulse, bits: seq<bool>)
    requires InBounds(p, s) && s.reading && Counts(s, bits) && (p.maxBits > 0 ==> |bits| < p.maxBits)
    requires StepBits(p, s, x).packet == None && StepBits(p, s, x).state.reading && Completed(p, s, x).Some?
    ensures StepBits(p, s, x).state == AppendBit(s, Completed(p, s, x).value)
    ensures p.maxBits > 0 ==> |bits| + 1 < p.maxBits
  {
    StepBitsCases(p, s, x);
    Below(p, s, bits);
  }

  /** Reading: the frame grows, gains a bit, or is dropped. */
  lemma BitStepCompletes(p: Protocol, s: Track, f: Frame, x: Pulse) returns (f': Frame)
    requires InBounds(p, s) && s.reading && Inv(p, s, f) && StepBits(p, s, x).packet == None
    requires StepBits(p, s, x).state.reading && Completed(p, s, x).Some?
    ensures Inv(p, StepBits(p, s, x).state, f') && PulsesOf(f) + [x] == PulsesOf(f')
  {
    var bit := Completed(p, s, x).value;
    NotLastBit(p, s, x, f.bits);
    BitCompletes(p, s, f, x, bit);
    f' := Complete(GrowTail(f, x), bit);
    InvAtStart(p, AppendBit(s, bit), f');
  }

  lemma BitStep(p: Protocol, s: Track, f: Frame, x: Pulse) returns (f': Frame, dropped: seq<Pulse>)
    requires InBounds(p, s) && s.reading && Inv(p, s, f) && StepBits(p, s, x).packet == None
    ensures Inv(p, StepBits(p, s, x).state, f') && PulsesOf(f) + [x] == dropped + PulsesOf(f')
  {
    var r := StepBits(p, s, x).state;
    StepBitsCases(p, s, x);
    if !r.reading {
      f', dropped := SyncOnly([]), PulsesOf(f) + [x];
    } else if Completed(p, s, x).Some? {
      dropped := [];
      f' := BitStepCompletes(p, s, f, x);
      NothingDropped(PulsesOf(f'));
    } else {
      GrowFrame(p, f, x);
      CandidatesStep(p, s, f.tail, x);
      f', dropped := GrowTail(f, x), [];
      NothingDropped(PulsesOf(f'));
    }
  }

  lemma NothingDropped(pulses: seq<Pulse>)
    ensures pulses == [] + pulses
  {
  }

  /** The counter does not wrap below a maximum. */
  lemma Below(p: Protocol, s: Track, bits: seq<bool>)
    requires Counts(s, bits) && (p.maxBits > 0 ==> |bits| < p.maxBits)
    ensures p.maxBits > 0 ==>
      s.bitCnt == |bits| && (s.bitCnt + 1) % WORD16 == if |bits| + 1 == WORD16 then 0 else |bits| + 1
  {
  }

  lemma PacketOfMax(p: Protocol, s: Track, f: Frame, x: Pulse, g: Frame)
    requires InBounds(p, s) && s.reading && Inv(p, s, f) && StepBits(p, s, x).packet.Some?
    requires Completed(p, s, x).Some? && g == Complete(GrowTail(f, x), Completed(p, s, x).value)
    requires Follow(p, s, x).match0 || Follow(p, s, x).match1
    ensures IsFrame(p, g) && PulsesOf(g) == PulsesOf(f) + [x] && EndsPacket(p, g)
    ensures StepBits(p, s, x) == Stepped(RESET_TRACK, Some(ValueOf(g.bits)))
  {
    StepBitsCases(p, s, x);
    BitCompletes(p, s, f, x, Completed(p, s, x).value);
    Below(p, s, f.bits);
  }

  lemma PacketOfRest(p: Protocol, s: Track, f: Frame, x: Pulse, g: Frame)
    requires InBounds(p, s) && s.reading && Inv(p, s, f) && StepBits(p, s, x).packet.Some?
    requires g == GrowTail(f, x) && !Follow(p, s, x).match0 && !Follow(p, s, x).match1
    ensures IsFrame(p, g) && PulsesOf(g) == PulsesOf(f) + [x] && EndsPacket(p, g)
    ensures StepBits(p, s, x) == Stepped(RESET_TRACK, Some(ValueOf(g.bits)))
  {
    StepBitsCases(p, s, x);
    CandidatesStep(p, s, f.tail, x);
    GrowFrame(p, f, x);
    assert g.tail[..|g.tail| - 1] == f.tail;
  }

  /** A packet is put out: the frame and the last pulse are a parse of it. */
  lemma PacketStep(p: Protocol, s: Track, f: Frame, x: Pulse)
    requires InBounds(p, s) && s.reading && Inv(p, s, f) && StepBits(p, s, x).packet.Some?
    ensures StepBits(p, s, x).state == RESET_TRACK
    ensures TrueParse(p, PulsesOf(f) + [x], StepBits(p, s, x).packet.value)
  {
    StepBitsCases(p, s, x);
    var after := Follow(p, s, x);
    if !after.match0 && !after.match1 {
      PacketOfRest(p, s, f, x, GrowTail(f, x));
    } else {
      PacketOfMax(p, s, f, x, Complete(GrowTail(f, x), Completed(p, s, x).value));
    }
  }

  /** One pulse without a packet. */
  lemma QuietStep(p: Protocol, s: Track, f: Frame, x: Pulse) returns (f': Frame, dropped: seq<Pulse>)
    requires InBounds(p, s) && Inv(p, s, f) && Step(p, s, x).packet == None
    ensures Inv(p, Step(p, s, x).state, f') && PulsesOf(f) + [x] == dropped + PulsesOf(f')
  {
    if s.reading {
      f', dropped := BitStep(p, s, f, x);
    } else {
      f', dropped := SyncStep(p, s, f, x);
    }
  }

  lemma ExplainsFirst(p: Protocol, before: seq<Pulse>, run: seq<Pulse>, after: seq<Pulse>, d: nat, packets: seq<nat>)
    requires TrueParse(p, run, d) && Explains(p, after, packets)
    ensures Explains(p, before + run + after, [d] + packets)
  {
    var all := [d] + packets;
    assert all[0] == d && all[1..] == packets;
  }

  lemma InFront(dropped: seq<Pulse>, a: seq<Pulse>, b: seq<Pulse>, c: seq<Pulse>)
    ensures dropped + (a + b + c) == (dropped + a) + b + c
  {
  }

  /** Pulses in front of a stream do not matter to its parses. */
  lemma ExplainsLonger(p: Protocol, dropped: seq<Pulse>, xs: seq<Pulse>, packets: seq<nat>)
    requires Explains(p, xs, packets)
    ensures Explains(p, dropped + xs, packets)
  {
    if packets != [] {
      var before, run, after :|
        xs == before + run + after && TrueParse(p, run, packets[0]) && Explains(p, after, packets[1..]);
      InFront(dropped, before, run, after);
      var before' := dropped + before;
      assert dropped + xs == before' + run + after;
      assert TrueParse(p, run, packets[0]) && Explains(p, after, packets[1..]);
    }
  }

  /** The parses of a stream whose first pulse ends a packet, ... */
  lemma PacketHead(p: Protocol, s: Track, f: Frame, x: Pulse, rest: seq<Pulse>)
    requires InBounds(p, s) && Inv(p, s, f) && Step(p, s, x).packet.Some?
    requires Explains(p, rest, Feed(p, RESET_TRACK, rest).packets)
    ensures Explains(p, PulsesOf(f) + [x] + rest, Feed(p, s, [x] + rest).packets)
  {
    PacketStep(p, s, f, x);
    var run, later := PulsesOf(f) + [x], Feed(p, RESET_TRACK, rest).packets;
    ExplainsFirst(p, [], run, rest, Step(p, s, x).packet.value, later);
    assert [] + run == run;
    assert ([x] + rest)[1..] == rest;
  }

  /** ... and of one whose first pulse does not. */
  lemma QuietHead(p: Protocol, s: Track, x: Pulse, rest: seq<Pulse>,
                  run: seq<Pulse>, run': seq<Pulse>, dropped: seq<Pulse>)
    requires InBounds(p, s) && Step(p, s, x).packet == None && run + [x] == dropped + run'
    requires Explains(p, run' + rest, Feed(p, Step(p, s, x).state, rest).packets)
    ensures Explains(p, run + [x] + rest, Feed(p, s, [x] + rest).packets)
  {
    var later := Feed(p, Step(p, s, x).state, rest).packets;
    ExplainsLonger(p, dropped, run' + rest, later);
    Regroup(run, x, rest, dropped, run');
    assert ([x] + rest)[1..] == rest;
    assert [] + later == later;
  }

  /** Soundness: whatever pulses come, every packet is a true parse, and the
      parses do not overlap. */
  lemma {:induction false} PacketsAreParses(p: Protocol, s: Track, f: Frame, xs: seq<Pulse>)
    requires InBounds(p, s) && Inv(p, s, f)
    ensures Explains(p, PulsesOf(f) + xs, Feed(p, s, xs).packets)
    decreases |xs|
  {
    if xs != [] {
      var x, rest := xs[0], xs[1..];
      assert xs == [x] + rest;
      assert PulsesOf(f) + xs == PulsesOf(f) + [x] + rest;
      if Step(p, s, x).packet.Some? {
        PacketStep(p, s, f, x);
        PacketsAreParses(p, RESET_TRACK, SyncOnly([]), rest);
        assert [] + rest == rest;
        PacketHead(p, s, f, x, rest);
      } else {
        var f', dropped := QuietStep(p, s, f, x);
        PacketsAreParses(p, Step(p, s, x).state, f', rest);
        QuietHead(p, s, x, rest, PulsesOf(f), PulsesOf(f'), dropped);
      }
    }
  }

  lemma Regroup(run: seq<Pulse>, x: Pulse, rest: seq<Pulse>, dropped: seq<Pulse>, run': seq<Pulse>)
    requires run + [x] == dropped + run'
    ensures run + [x] + rest == dropped + (run' + rest)
  {
  }

  /** From the state after generic_decoder_init. */
  lemma Soundness(p: Protocol, xs: seq<Pulse>)
    ensures Explains(p, xs, Feed(p, INITIAL_TRACK, xs).packets)
  {
    PacketsAreParses(p, INITIAL_TRACK, SyncOnly([]), xs);
    assert PulsesOf(SyncOnly([])) + xs == xs;
  }

  // ----- completeness

  /** Pulses follow a table exactly if each has the level of its entry and, unless the entry
      allows any length, is off by less than the tolerance. */
  lemma FollowsIff(p: Protocol, defs: seq<PulseDef>, run: seq<Pulse>)
    requires |run| <= |defs|
    ensures Follows(p, defs, run) <==>
            forall i | 0 <= i < |run| ::
              && (run[i].high <==> defs[i].high)
              && (defs[i].duration == 0
                  || (run[i].duration - defs[i].duration < p.tolerance
                      && defs[i].duration - run[i].duration < p.tolerance))
  {
    forall i | 0 <= i < |run|
      ensures Matches(p, defs[i], run[i]) <==>
              && (run[i].high <==> defs[i].high)
              && (defs[i].duration == 0
                  || (run[i].duration - defs[i].duration < p.tolerance
                      && defs[i].duration - run[i].duration < p.tolerance))
    {
    }
  }

  /** No pulse is inside the tolerances of both definitions. */
  predicate Apart(p: Protocol, a: PulseDef, b: PulseDef) {
    || a.high != b.high
    || (a.duration != 0 && b.duration != 0
        && (a.duration - b.duration > 2 * p.tolerance - 2 || b.duration - a.duration > 2 * p.tolerance - 2))
  }

  /** A pulse inside both tolerances, when there is one. */
  function Common2(p: Protocol, a: PulseDef, b: PulseDef): (x: Pulse)
    requires p.tolerance >= 1 && !Apart(p, a, b)
    ensures Matches(p, a, x) && Matches(p, b, x)
    ensures x.duration <= if a.duration < b.duration then b.duration else a.duration
  {
    var lo, hi := Min(a.duration, b.duration), if a.duration < b.duration then b.duration else a.duration;
    Pulse(if lo == 0 then hi else if hi - p.tolerance + 1 > lo then hi - p.tolerance + 1 else lo, a.high)
  }

  lemma ApartIff(p: Protocol, a: PulseDef, b: PulseDef)
    requires p.tolerance >= 1
    ensures Apart(p, a, b) <==> forall x: Pulse :: !(Matches(p, a, x) && Matches(p, b, x))
  {
    if !Apart(p, a, b) {
      var x := Common2(p, a, b);
    }
  }

  lemma ApartExcludes(p: Protocol, a: PulseDef, b: PulseDef, x: Pulse)
    requires Apart(p, a, b)
    ensures !(Matches(p, a, x) && Matches(p, b, x))
  {
  }

  /** Both symbols have pulses, and at some place the two are apart. */
  predicate Distinguishable(p: Protocol) {
    exists d | 0 <= d < Min(p.bit0Len, p.bit1Len) :: Apart(p, p.bit0[d], p.bit1[d])
  }

  /** Some symbol is not finished, and none is. */
  predicate Undecided(p: Protocol, q: seq<Pulse>) {
    && (Begins(p, false, q) || Begins(p, true, q))
    && forall bit: bool :: !(SymbolLen(p, bit) <= |q| && IsSymbol(p, bit, q[..SymbolLen(p, bit)]))
  }

  predicate SameBits(s: Track, t: Track) {
    s.reading == t.reading && s.bitCnt == t.bitCnt && s.bitBuffer == t.bitBuffer && s.seqIdx == t.seqIdx
  }

  lemma FollowsPrefix(p: Protocol, defs: seq<PulseDef>, q: seq<Pulse>, k: nat)
    requires Follows(p, defs, q) && k <= |q|
    ensures Follows(p, defs, q[..k])
  {
  }

  lemma UndecidedPrefix(p: Protocol, q: seq<Pulse>)
    requires Undecided(p, q) && q != []
    ensures Undecided(p, q[..|q| - 1])
  {
    var r := q[..|q| - 1];
    forall bit: bool
      ensures Begins(p, bit, q) ==> Begins(p, bit, r)
      ensures !(SymbolLen(p, bit) <= |r| && IsSymbol(p, bit, r[..SymbolLen(p, bit)]))
    {
      if Begins(p, bit, q) {
        FollowsPrefix(p, Defs(p, bit), q, |r|);
      }
      if SymbolLen(p, bit) <= |r| {
        assert r[..SymbolLen(p, bit)] == q[..SymbolLen(p, bit)];
      }
    }
  }

  lemma FeedSnoc(p: Protocol, s: Track, xs: seq<Pulse>, x: Pulse)
    requires InBounds(p, s)
    ensures var a := Feed(p, s, xs);
            var r := Step(p, a.state, x);
            Feed(p, s, xs + [x]) == Fed(r.state, a.packets + match r.packet case None => [] case Some(d) => [d])
  {
    FeedConcat(p, s, xs, [x]);
    var r := Step(p, Feed(p, s, xs).state, x);
    assert Feed(p, r.state, [x][1..]) == Fed(r.state, []);
  }

  /** The state in the middle of a symbol. */
  predicate MidSymbol(p: Protocol, s0: Track, q: seq<Pulse>, r: Fed) {
    r.packets == [] && r.state.reading && SameBits(r.state, s0) && Candidates(p, r.state, q)
  }

  lemma UndecidedStep(p: Protocol, s: Track, q: seq<Pulse>, x: Pulse)
    requires InBounds(p, s) && s.reading && Candidates(p, s, q) && Undecided(p, q + [x])
    ensures Step(p, s, x) == Stepped(Follow(p, s, x), None) && Candidates(p, Follow(p, s, x), q + [x])
  {
    CandidatesStep(p, s, q, x);
    StepBitsCases(p, s, x);
    forall bit: bool
      ensures !IsSymbol(p, bit, q + [x])
    {
      assert (q + [x])[..|q| + 1] == q + [x];
    }
    CandidateStep(p, false, s.match0, s.idx0, q, x);
    CandidateStep(p, true, s.match1, s.idx1, q, x);
  }

  /** As long as no symbol is finished, the decoder only keeps its candidates. */
  lemma {:induction false} UndecidedRun(p: Protocol, s0: Track, q: seq<Pulse>)
    requires InBounds(p, s0) && s0 == SymbolStart(s0.seqIdx, s0.bitCnt, s0.bitBuffer) && Undecided(p, q)
    ensures MidSymbol(p, s0, q, Feed(p, s0, q))
    decreases |q|
  {
    if q == [] {
      EmptyCandidates(p);
    } else {
      var r, x := q[..|q| - 1], q[|q| - 1];
      assert q == r + [x];
      UndecidedPrefix(p, q);
      UndecidedRun(p, s0, r);
      FeedSnoc(p, s0, r, x);
      UndecidedStep(p, Feed(p, s0, r).state, r, x);
    }
  }

  /** The result of reading one more bit. */
  function Finished(p: Protocol, s0: Track, bit: bool): Fed {
    var t := AppendBit(s0, bit);
    if p.maxBits > 0 && t.bitCnt >= p.maxBits then Fed(RESET_TRACK, [t.bitBuffer]) else Fed(t, [])
  }

  /** A symbol is decoded: nothing is decided before its last pulse, and then it
      is the bit that was sent. */
  predicate DecodesSymbol(p: Protocol, s0: Track, bit: bool, q: seq<Pulse>)
    requires InBounds(p, s0)
  {
    && Feed(p, s0, q) == Finished(p, s0, bit)
    && forall k | 0 <= k < |q| ::
         var r := Feed(p, s0, q[..k]); r.packets == [] && r.state.reading && SameBits(r.state, s0)
  }

  /** No beginning of `q` is the symbol `bit`. */
  predicate NoPrefixIs(p: Protocol, bit: bool, q: seq<Pulse>) {
    !(SymbolLen(p, bit) <= |q| && IsSymbol(p, bit, q[..SymbolLen(p, bit)]))
  }

  lemma SymbolUndecided(p: Protocol, bit: bool, q: seq<Pulse>, k: nat)
    requires IsSymbol(p, bit, q) && NoPrefixIs(p, !bit, q) && k < |q|
    ensures Undecided(p, q[..k])
  {
    FollowsPrefix(p, Defs(p, bit), q, k);
    assert Begins(p, bit, q[..k]);
    forall b: bool
      ensures NoPrefixIs(p, b, q[..k])
    {
      if b != bit && SymbolLen(p, b) <= k {
        assert q[..k][..SymbolLen(p, b)] == q[..SymbolLen(p, b)];
      }
    }
  }

  lemma LastPulse(p: Protocol, s: Track, bit: bool, q: seq<Pulse>, x: Pulse)
    requires InBounds(p, s) && s.reading && Candidates(p, s, q)
    requires IsSymbol(p, bit, q + [x]) && NoPrefixIs(p, !bit, q + [x])
    ensures Completed(p, s, x) == Some(bit)
  {
    CandidateStep(p, false, s.match0, s.idx0, q, x);
    CandidateStep(p, true, s.match1, s.idx1, q, x);
    assert (q + [x])[..|q| + 1] == q + [x];
  }

  /** The last pulse of a symbol completes it. */
  lemma SymbolEnds(p: Protocol, s0: Track, bit: bool, r: seq<Pulse>, x: Pulse)
    requires InBounds(p, s0) && MidSymbol(p, s0, r, Feed(p, s0, r))
    requires IsSymbol(p, bit, r + [x]) && NoPrefixIs(p, !bit, r + [x])
    ensures Feed(p, s0, r + [x]) == Finished(p, s0, bit)
  {
    var s := Feed(p, s0, r).state;
    FeedSnoc(p, s0, r, x);
    LastPulse(p, s, bit, r, x);
    CompletedStep(p, s, s0, x, bit);
  }

  lemma CompletedStep(p: Protocol, s: Track, s0: Track, x: Pulse, bit: bool)
    requires InBounds(p, s) && s.reading && SameBits(s, s0) && Completed(p, s, x) == Some(bit)
    ensures var r := Step(p, s, x);
      Fed(r.state, [] + match r.packet case None => [] case Some(d) => [d]) == Finished(p, s0, bit)
  {
    StepBitsCases(p, s, x);
    assert AppendBit(s, bit) == AppendBit(s0, bit);
  }

  lemma {:induction false} SymbolDecodes(p: Protocol, s0: Track, bit: bool, q: seq<Pulse>)
    requires InBounds(p, s0) && s0 == SymbolStart(s0.seqIdx, s0.bitCnt, s0.bitBuffer)
    requires IsSymbol(p, bit, q) && NoPrefixIs(p, !bit, q)
    ensures DecodesSymbol(p, s0, bit, q)
  {
    forall k | 0 <= k < |q|
      ensures MidSymbol(p, s0, q[..k], Feed(p, s0, q[..k]))
    {
      SymbolUndecided(p, bit, q, k);
      UndecidedRun(p, s0, q[..k]);
    }
    Unsnoc(q);
    SymbolEnds(p, s0, bit, q[..|q| - 1], q[|q| - 1]);
  }

  /** Symbols that are apart somewhere are never beginnings of one another. */
  lemma DistinctSymbols(p: Protocol, bit: bool, q: seq<Pulse>)
    requires Distinguishable(p) && IsSymbol(p, bit, q)
    ensures NoPrefixIs(p, !bit, q)
  {
    var d :| 0 <= d < Min(p.bit0Len, p.bit1Len) && Apart(p, p.bit0[d], p.bit1[d]);
    ApartExcludes(p, p.bit0[d], p.bit1[d], q[d]);
  }

  /** A symbol of `bit` that is also a symbol of the other bit, or begins with one. */
  lemma ConfusedSymbol(p: Protocol, bit: bool) returns (q: seq<Pulse>)
    requires p.tolerance >= 1 && p.bit0Len > 0 && p.bit1Len > 0 && !Distinguishable(p)
    requires DefLen(p, !bit) <= DefLen(p, bit)
    ensures IsSymbol(p, bit, q) && IsSymbol(p, !bit, q[..SymbolLen(p, !bit)])
  {
    var n := SymbolLen(p, !bit);
    q := seq(SymbolLen(p, bit), i requires 0 <= i < SymbolLen(p, bit) =>
               if i < n then Common2(p, p.bit0[i], p.bit1[i]) else Defs(p, bit)[i]);
  }

  /** At the last pulse that both symbols have, the decoder gives up or decides. */
  lemma ConfusedPulse(p: Protocol, s0: Track, bit: bool, q: seq<Pulse>, n: nat)
    requires InBounds(p, s0) && s0 == SymbolStart(s0.seqIdx, s0.bitCnt, s0.bitBuffer)
    requires IsSymbol(p, bit, q) && n == SymbolLen(p, !bit) <= |q| && IsSymbol(p, !bit, q[..n])
    requires p.bit0Len > 0 && p.bit1Len > 0
    ensures var c := Feed(p, s0, q[..n]);
      if n == |q| then c.packets == [] && !c.state.reading
      else !(c.packets == [] && c.state.reading && SameBits(c.state, s0))
  {
    var r, x := q[..n - 1], q[n - 1];
    assert q[..n] == r + [x];
    FollowsPrefix(p, Defs(p, bit), q, n);
    FollowsPrefix(p, Defs(p, !bit), q[..n], n - 1);
    assert q[..n][..n - 1] == r;
    assert Begins(p, !bit, r);
    UndecidedRun(p, s0, r);
    var s := Feed(p, s0, r).state;
    FeedSnoc(p, s0, r, x);
    CandidateStep(p, false, s.match0, s.idx0, r, x);
    CandidateStep(p, true, s.match1, s.idx1, r, x);
    if n == |q| {
      assert q == q[..n];
      assert !Step(p, s, x).state.reading && Step(p, s, x).packet == None;
    }
  }

  /** Such a symbol is not decoded: the decoder makes up its mind too early, or
      finds it ambiguous. */
  lemma ConfusedFails(p: Protocol, s0: Track, bit: bool, q: seq<Pulse>)
    requires InBounds(p, s0) && s0 == SymbolStart(s0.seqIdx, s0.bitCnt, s0.bitBuffer)
    requires IsSymbol(p, bit, q) && SymbolLen(p, !bit) <= |q| && IsSymbol(p, !bit, q[..SymbolLen(p, !bit)])
    requires p.bit0Len > 0 && p.bit1Len > 0
    ensures !DecodesSymbol(p, s0, bit, q)
  {
    var n := SymbolLen(p, !bit);
    ConfusedPulse(p, s0, bit, q, n);
    if n == |q| { assert q[..n] == q; }
  }

  /** The exact condition: every in-tolerance symbol is decoded if and only if the
      symbols are apart at some place they both have. */
  lemma SymbolsDecodeIff(p: Protocol, s0: Track)
    requires p.tolerance >= 1 && p.bit0Len > 0 && p.bit1Len > 0
    requires InBounds(p, s0) && s0 == SymbolStart(s0.seqIdx, s0.bitCnt, s0.bitBuffer)
    ensures Distinguishable(p) <==> forall bit, q | IsSymbol(p, bit, q) :: DecodesSymbol(p, s0, bit, q)
  {
    if Distinguishable(p) {
      forall bit, q | IsSymbol(p, bit, q)
        ensures DecodesSymbol(p, s0, bit, q)
      {
        DistinctSymbols(p, bit, q);
        SymbolDecodes(p, s0, bit, q);
      }
    } else {
      var bit := p.bit0Len <= p.bit1Len;
      var q := ConfusedSymbol(p, bit);
      ConfusedFails(p, s0, bit, q);
    }
  }

  /** The sync of a transmission, from a state that waits for its first pulse. */
  lemma {:induction false} SyncRun(p: Protocol, s: Track, sync: seq<Pulse>)
    requires !s.reading && s.seqIdx == 0 && |sync| <= p.syncLen && p.syncLen > 0 && Follows(p, p.sync, sync)
    ensures Feed(p, s, sync)
         == Fed(if |sync| < p.syncLen then s.(seqIdx := |sync|) else SymbolStart(p.syncLen, 0, 0), [])
    decreases |sync|
  {
    if sync != [] {
      var r, x := sync[..|sync| - 1], sync[|sync| - 1];
      assert sync == r + [x];
      FollowsPrefix(p, p.sync, sync, |r|);
      SyncRun(p, s, r);
      FeedSnoc(p, s, r, x);
    }
  }

  /** A sync can begin with this pulse: none has begun, or the pulse has the level but not the length
      that comes next. */
  predicate CanBegin(p: Protocol, s: Track, x: Pulse) {
    && InBounds(p, s) && !s.reading
    && (s.seqIdx == 0 || (x.high == p.sync[s.seqIdx].high && !Matches(p, p.sync[s.seqIdx], x)))
  }

  /** The first pulse of a sync, in the middle of another that it does not continue, begins a new one exactly if
      it has the level that was expected. */
  lemma RetryIff(p: Protocol, s: Track, x: Pulse)
    requires InBounds(p, s) && !s.reading && s.seqIdx > 0
    requires Matches(p, p.sync[0], x) && !Matches(p, p.sync[s.seqIdx], x)
    ensures StepSync(p, s, x) == s.(seqIdx := if x.high == p.sync[s.seqIdx].high then 1 else 0)
    ensures StepSync(p, s, x) == StepSync(p, s.(seqIdx := 0), x) <==> CanBegin(p, s, x)
  {
  }

  /** The sync of a transmission, from any state in which it can begin. */
  lemma SyncFound(p: Protocol, s: Track, sync: seq<Pulse>)
    requires p.syncLen > 0 && |sync| == p.syncLen && Follows(p, p.sync, sync) && CanBegin(p, s, sync[0])
    ensures Feed(p, s, sync) == Fed(SymbolStart(p.syncLen, 0, 0), [])
  {
    var idle := s.(seqIdx := 0);
    if s.seqIdx > 0 {
      RetryIff(p, s, sync[0]);
      assert sync == [sync[0]] + sync[1..];
      FeedFirst(p, s, sync[0], sync, sync[1..]);
      FeedFirst(p, idle, sync[0], sync, sync[1..]);
    }
    SyncRun(p, idle, sync);
  }

  predicate Train(p: Protocol, bits: seq<bool>, runs: seq<seq<Pulse>>) {
    |runs| == |bits| && forall i | 0 <= i < |bits| :: IsSymbol(p, bits[i], runs[i])
  }

  /** A maximum, if there is one, has not been reached. */
  predicate Room(p: Protocol, bits: seq<bool>) { p.maxBits > 0 ==> |bits| < p.maxBits }

  /** After `n` symbols that are not yet the whole transmission. */
  function BitsRead(p: Protocol, bits: seq<bool>): Track {
    SymbolStart(p.syncLen, |bits| % WORD16, ValueOf(bits))
  }

  /** After the symbols of some bits. */
  function AfterBits(p: Protocol, bits: seq<bool>): Fed {
    if p.maxBits > 0 && |bits| == p.maxBits then Fed(RESET_TRACK, [ValueOf(bits)]) else Fed(BitsRead(p, bits), [])
  }

  /** One more symbol of a transmission. */
  lemma OneMoreBit(p: Protocol, bits: seq<bool>, bit: bool, run: seq<Pulse>)
    requires Distinguishable(p) && p.syncLen > 0 && Room(p, bits) && IsSymbol(p, bit, run)
    ensures Feed(p, BitsRead(p, bits), run) == AfterBits(p, bits + [bit])
  {
    var s0 := BitsRead(p, bits);
    DistinctSymbols(p, bit, run);
    SymbolDecodes(p, s0, bit, run);
    CountsBit(s0, bits, bit);
  }

  lemma QuietThen(p: Protocol, s: Track, xs: seq<Pulse>, t: Track, ys: seq<Pulse>, r: Fed)
    requires InBounds(p, s) && InBounds(p, t) && Feed(p, s, xs) == Fed(t, []) && Feed(p, t, ys) == r
    ensures Feed(p, s, xs + ys) == r
  {
    FeedConcat(p, s, xs, ys);
    assert [] + r.packets == r.packets;
  }

  lemma NextSymbol(p: Protocol, word: seq<bool>, bit: bool, init: seq<seq<Pulse>>, run: seq<Pulse>)
    requires Distinguishable(p) && p.syncLen > 0 && Room(p, word) && IsSymbol(p, bit, run)
    requires Feed(p, BitsRead(p, []), Concat(init)) == AfterBits(p, word)
    ensures Feed(p, BitsRead(p, []), Concat(init + [run])) == AfterBits(p, word + [bit])
  {
    ConcatSnoc(init, run);
    OneMoreBit(p, word, bit, run);
    QuietThen(p, BitsRead(p, []), Concat(init), BitsRead(p, word), run, AfterBits(p, word + [bit]));
  }

  lemma TrainFront(p: Protocol, bits: seq<bool>, runs: seq<seq<Pulse>>, n: nat)
    requires Train(p, bits, runs) && n < |bits|
    ensures Train(p, bits[..n], runs[..n]) && IsSymbol(p, bits[n], runs[n])
  {
  }

  lemma {:induction false} BitsRun(p: Protocol, bits: seq<bool>, runs: seq<seq<Pulse>>)
    requires Distinguishable(p) && Train(p, bits, runs) && p.syncLen > 0 && (p.maxBits > 0 ==> |bits| <= p.maxBits)
    ensures Feed(p, BitsRead(p, []), Concat(runs)) == AfterBits(p, bits)
    decreases |bits|
  {
    if bits == [] {
      assert runs == [];
    } else {
      var n := |bits| - 1;
      TrainFront(p, bits, runs, n);
      Unsnoc(bits);
      Unsnoc(runs);
      BitsRun(p, bits[..n], runs[..n]);
      NextSymbol(p, bits[..n], bits[n], runs[..n], runs[n]);
    }
  }

  /** Completeness: a sync and max_bits symbols, all inside the tolerances, give
      exactly one packet with exactly those bits, and the decoder is reset. */
  lemma Completeness(p: Protocol, s: Track, sync: seq<Pulse>, bits: seq<bool>, runs: seq<seq<Pulse>>)
    requires Distinguishable(p) && p.syncLen > 0 && p.maxBits > 0
    requires |sync| == p.syncLen && Follows(p, p.sync, sync) && CanBegin(p, s, sync[0])
    requires |bits| == p.maxBits && Train(p, bits, runs)
    ensures Feed(p, s, sync + Concat(runs)) == Fed(RESET_TRACK, [ValueOf(bits)])
  {
    SyncFound(p, s, sync);
    BitsRun(p, bits, runs);
    QuietThen(p, s, sync, BitsRead(p, []), Concat(runs), AfterBits(p, bits));
  }

  /** The beginning of a symbol is not yet another one. */
  lemma BeginningIsUndecided(p: Protocol, bit: bool, tail: seq<Pulse>)
    requires Distinguishable(p) && Begins(p, bit, tail)
    ensures Undecided(p, tail)
  {
    var d :| 0 <= d < Min(p.bit0Len, p.bit1Len) && Apart(p, p.bit0[d], p.bit1[d]);
    var n := SymbolLen(p, !bit);
    if n <= |tail| {
      assert tail[..n][d] == tail[d];
      ApartExcludes(p, p.bit0[d], p.bit1[d], tail[d]);
    }
  }

  /** A pulse that continues neither symbol. */
  lemma NeitherContinues(p: Protocol, s0: Track, tail: seq<Pulse>, x: Pulse)
    requires InBounds(p, s0) && s0 == SymbolStart(s0.seqIdx, s0.bitCnt, s0.bitBuffer) && Undecided(p, tail)
    requires !Follows(p, p.bit0, tail + [x]) && !Follows(p, p.bit1, tail + [x])
    ensures Feed(p, s0, tail + [x]) == Fed(RESET_TRACK, if s0.bitCnt >= p.minBits then [s0.bitBuffer] else [])
  {
    UndecidedRun(p, s0, tail);
    var s := Feed(p, s0, tail).state;
    FeedSnoc(p, s0, tail, x);
    CandidatesStep(p, s, tail, x);
    StepBitsCases(p, s, x);
  }

  /** A transmission that breaks off: with at least min_bits symbols it is one packet with exactly
      those bits, with fewer none; and the decoder is reset. */
  lemma BreaksOff(p: Protocol, s: Track, sync: seq<Pulse>, bits: seq<bool>, runs: seq<seq<Pulse>>,
                  bit: bool, tail: seq<Pulse>, x: Pulse)
    requires Distinguishable(p) && p.syncLen > 0 && Room(p, bits)
    requires |sync| == p.syncLen && Follows(p, p.sync, sync) && CanBegin(p, s, sync[0])
    requires Train(p, bits, runs) && Begins(p, bit, tail)
    requires !Follows(p, p.bit0, tail + [x]) && !Follows(p, p.bit1, tail + [x])
    ensures Feed(p, s, (sync + Concat(runs)) + (tail + [x]))
         == Fed(RESET_TRACK, if |bits| % WORD16 >= p.minBits then [ValueOf(bits)] else [])
  {
    var t := BitsRead(p, bits);
    SyncFound(p, s, sync);
    BitsRun(p, bits, runs);
    QuietThen(p, s, sync, BitsRead(p, []), Concat(runs), Fed(t, []));
    BeginningIsUndecided(p, bit, tail);
    NeitherContinues(p, t, tail, x);
    QuietThen(p, s, sync + Concat(runs), t, tail + [x],
              Fed(RESET_TRACK, if |bits| % WORD16 >= p.minBits then [ValueOf(bits)] else []));
  }

  lemma LastOfValue(v: nat, x: bool, w: nat, y: bool)
    requires v < 0x8000_0000_0000_0000 && w < 0x8000_0000_0000_0000
    requires (v * 2 + if x then 1 else 0) % WORD64 == (w * 2 + if y then 1 else 0) % WORD64
    ensures v == w && x == y
  {
  }

  /** Up to 64 bits fit the buffer: the packet determines the word that was sent. */
  lemma {:induction false} PacketDeterminesWord(a: seq<bool>, b: seq<bool>)
    requires |a| == |b| <= 64 && ValueOf(a) == ValueOf(b)
    ensures a == b
    decreases |a|
  {
    if a != [] {
      var n := |a| - 1;
      NoOverflow(a[..n]);
      NoOverflow(b[..n]);
      LastOfValue(ValueOf(a[..n]), a[n], ValueOf(b[..n]), b[n]);
      PacketDeterminesWord(a[..n], b[..n]);
      Unsnoc(a);
      Unsnoc(b);
    }
  }

  /** Below 64 bits there is room for one more. */
  lemma {:induction false} NoOverflow(bits: seq<bool>)
    requires |bits| < 64
    ensures ValueOf(bits) * 2 + 1 < WORD64
    decreases |bits|
  {
    ValueFits(bits, 63 - |bits|);
  }

  predicate Fits(v: nat, p: nat) { (v + 1) * p <= 0x8000_0000_0000_0000 }

  lemma {:induction false} ValueFits(bits: seq<bool>, room: nat)
    requires |bits| + room == 63
    ensures Fits(ValueOf(bits), Pow2(room))
    decreases |bits|
  {
    if bits == [] {
      Pow2Of63();
    } else {
      var v, bit, p := ValueOf(bits[..|bits| - 1]), bits[|bits| - 1], Pow2(room);
      ValueFits(bits[..|bits| - 1], room + 1);
      assert Pow2(room + 1) == 2 * p;
      Doubled(v, if bit then 1 else 0, p);
    }
  }

  lemma Doubled(v: nat, bit: nat, p: nat)
    requires bit <= 1 && p >= 1 && Fits(v, 2 * p)
    ensures Fits((v * 2 + bit) % WORD64, p)
  {
    assert (v + 1) * (2 * p) == (2 * v + 2) * p;
    assert (2 * v + 2) * p >= 2 * v + 2;
    assert (2 * v + bit + 1) * p <= (2 * v + 2) * p;
  }

  function Pow2(n: nat): (r: nat)
    ensures r >= 1
  {
    if n == 0 then 1 else 2 * Pow2(n - 1)
  }

  lemma Pow2Of63()
    ensures Pow2(63) == 0x8000_0000_0000_0000
  {
    assert Pow2(7) == 0x80;
    assert Pow2(14) == 0x80 * Pow2(7);
    assert Pow2(21) == 0x80 * Pow2(14);
    assert Pow2(28) == 0x80 * Pow2(21);
    assert Pow2(35) == 0x80 * Pow2(28);
    assert Pow2(42) == 0x80 * Pow2(35);
    assert Pow2(49) == 0x80 * Pow2(42);
    assert Pow2(56) == 0x80 * Pow2(49);
    assert Pow2(63) == 0x80 * Pow2(56);
  }

  // ----- the bits of a packet

  lemma Halve(v: nat, bit: nat)
    requires bit <= 1
    ensures var w := (v * 2 + bit) % WORD64; w % 2 == bit && w / 2 == v % 0x8000_0000_0000_0000
  {
    var q := (v * 2 + bit) / WORD64;
    var w := (v * 2 + bit) % WORD64;
    assert v * 2 + bit == WORD64 * q + w;
    assert w % 2 == bit;
    assert v == 0x8000_0000_0000_0000 * q + w / 2;
  }

  lemma DivideTwice(a: nat, k: nat)
    requires k > 0
    ensures a / (2 * k) == a / 2 / k
  {
    var q, r := a / 2 / k, a / 2 % k;
    assert a / 2 == k * q + r;
    assert a == 2 * k * q + (2 * r + a % 2);
    Quotient(a, 2 * k, q, 2 * r + a % 2);
  }

  lemma NotNegative(k: nat, d: nat)
    ensures k * d >= 0
  {
  }

  lemma AtLeastOnce(k: int, d: int)
    requires k >= 0
    ensures d >= 1 ==> k * d >= k
    ensures d <= -1 ==> k * d <= -k
  {
    if d >= 1 {
      assert k * d == k + k * (d - 1);
      NotNegative(k, d - 1);
    } else if d <= -1 {
      assert k * d == -k - k * (-d - 1);
      NotNegative(k, -d - 1);
    }
  }

  lemma Quotient(a: nat, k: nat, q: nat, r: nat)
    requires a == k * q + r && r < k
    ensures a / k == q
  {
    var d: int := a / k - q;
    assert k * d + a % k == r;
    AtLeastOnce(k, d);
  }

  lemma Collected(k: nat, m: nat, n: nat, q: nat, c: nat, d: nat)
    requires n == k * (2 * m)
    ensures n * q + (k * c + d) == k * (2 * (m * q) + c) + d
  {
    assert n * q == k * (2 * m) * q == k * (2 * (m * q));
  }

  lemma SameParity(x: nat, c: nat)
    ensures (2 * x + c) % 2 == c % 2
  {
  }

  /** Taking the low bits does not change them. */
  lemma LowBits(v: nat, k: nat, m: nat, n: nat)
    requires k > 0 && n > 0 && n == k * (2 * m)
    ensures v % n / k % 2 == v / k % 2
  {
    var q, r := v / n, v % n;
    var c, d := r / k, r % k;
    Collected(k, m, n, q, c, d);
    Quotient(v, k, 2 * (m * q) + c, d);
    SameParity(m * q, c);
  }

  lemma {:induction false} Pow2Sum(a: nat, b: nat)
    ensures Pow2(a + b) == Pow2(a) * Pow2(b)
  {
    if a > 0 {
      Pow2Sum(a - 1, b);
      assert Pow2(a) * Pow2(b) == 2 * (Pow2(a - 1) * Pow2(b));
    }
  }

  lemma ShiftedBit(v: nat, bit: nat, k: nat)
    requires bit <= 1 && k < 63
    ensures (v * 2 + bit) % WORD64 / Pow2(k + 1) % 2 == v / Pow2(k) % 2
  {
    var w, h, m := (v * 2 + bit) % WORD64, Pow2(k), Pow2(62 - k);
    Halve(v, bit);
    DivideTwice(w, h);
    Pow2Of63();
    Pow2Sum(k, 63 - k);
    assert h * (2 * m) == 0x8000_0000_0000_0000;
    LowBits(v, h, m, 0x8000_0000_0000_0000);
  }

  /** The bits stand in the packet as they came, the last one lowest: of the last 64 each has its place. */
  lemma {:induction false} BitAt(bits: seq<bool>, k: nat)
    requires k < |bits| && k < 64
    ensures ValueOf(bits) / Pow2(k) % 2 == if bits[|bits| - 1 - k] then 1 else 0
    decreases |bits|
  {
    var n := |bits| - 1;
    var v, bit := ValueOf(bits[..n]), if bits[n] then 1 else 0;
    if k == 0 {
      Halve(v, bit);
    } else {
      BitAt(bits[..n], k - 1);
      ShiftedBit(v, bit, k - 1);
    }
  }

  // ----- the decoder object over a whole stream

  /** The packets of one pulse come in the order of the protocols, at most one of each. */
  lemma {:induction false} OutputsInOrder(steps: seq<Stepped>, n: nat)
    requires n <= |steps|
    ensures forall k | 0 <= k < |Outputs(steps, n)| :: Outputs(steps, n)[k].proto < n
    ensures forall a, b | 0 <= a < b < |Outputs(steps, n)| ::
              Outputs(steps, n)[a].proto < Outputs(steps, n)[b].proto
  {
    if n > 0 { OutputsInOrder(steps, n - 1); }
  }

  /** The packets of one protocol. */
  function OfProto(packets: seq<Packet>, i: nat): seq<nat> {
    if packets == [] then []
    else
      var last := packets[|packets| - 1];
      OfProto(packets[..|packets| - 1], i) + if last.proto == i then [last.data] else []
  }

  lemma {:induction false} OfProtoConcat(a: seq<Packet>, b: seq<Packet>, i: nat)
    ensures OfProto(a + b, i) == OfProto(a, i) + OfProto(b, i)
    decreases |b|
  {
    if b == [] {
      assert a + b == a;
    } else {
      assert (a + b)[..|a + b| - 1] == a + b[..|b| - 1];
      OfProtoConcat(a, b[..|b| - 1], i);
    }
  }

  function DataOf(packet: Option<nat>): seq<nat> {
    match packet case None => [] case Some(d) => [d]
  }

  lemma OfProtoEmission(k: nat, packet: Option<nat>, i: nat)
    ensures OfProto(Emission(k, packet), i) == if k == i then DataOf(packet) else []
  {
    if packet.Some? {
      assert [Packet(k, packet.value)][..0] == [];
    }
  }

  lemma FrontOrBack(all: seq<nat>, front: seq<nat>, back: seq<nat>)
    requires all == front + back
    ensures (back == [] ==> all == front) && (front == [] ==> all == back)
  {
  }

  lemma OutputsNext(steps: seq<Stepped>, n: nat, i: nat)
    requires 0 < n <= |steps|
    ensures n - 1 != i ==> OfProto(Outputs(steps, n), i) == OfProto(Outputs(steps, n - 1), i)
    ensures OfProto(Outputs(steps, n - 1), i) == [] && n - 1 == i ==>
              OfProto(Outputs(steps, n), i) == DataOf(steps[n - 1].packet)
  {
    var before, now := Outputs(steps, n - 1), Emission(n - 1, steps[n - 1].packet);
    OfProtoConcat(before, now, i);
    OfProtoEmission(n - 1, steps[n - 1].packet, i);
    FrontOrBack(OfProto(Outputs(steps, n), i), OfProto(before, i), OfProto(now, i));
  }

  predicate IsShare(steps: seq<Stepped>, n: nat, i: nat)
    requires n <= |steps| && i < |steps|
  {
    var mine := OfProto(Outputs(steps, n), i);
    if i < n then mine == DataOf(steps[i].packet) else mine == []
  }

  lemma ShareOfNone(steps: seq<Stepped>, i: nat)
    requires i < |steps|
    ensures IsShare(steps, 0, i)
  {
  }

  lemma ShareGrows(steps: seq<Stepped>, n: nat, i: nat)
    requires 0 < n <= |steps| && i < |steps| && IsShare(steps, n - 1, i)
    ensures IsShare(steps, n, i)
  {
    OutputsNext(steps, n, i);
  }

  lemma {:induction false} OutputsOfProto(steps: seq<Stepped>, n: nat, i: nat)
    requires n <= |steps| && i < |steps|
    ensures IsShare(steps, n, i)
    decreases n
  {
    if n == 0 {
      ShareOfNone(steps, i);
    } else {
      OutputsOfProto(steps, n - 1, i);
      ShareGrows(steps, n, i);
    }
  }

  ghost predicate Alone(p: Protocol, s0: Track, xs: seq<Pulse>, s: Track, packets: seq<nat>, p0: seq<nat>) {
    InBounds(p, s0) && s == Feed(p, s0, xs).state && packets == p0 + Feed(p, s0, xs).packets
  }

  /** Every protocol has decoded `xs` as if it were alone. */
  ghost predicate AllAlone(protos: seq<Protocol>, s0: seq<Track>, xs: seq<Pulse>,
                           states: seq<Track>, packets: seq<Packet>, p0: seq<Packet>) {
    && |s0| == |states| == |protos|
    && forall i | 0 <= i < |protos| ::
         Alone(protos[i], s0[i], xs, states[i], OfProto(packets, i), OfProto(p0, i))
  }

  lemma AloneStep(p: Protocol, s0: Track, xs: seq<Pulse>, s: Track, packets: seq<nat>, p0: seq<nat>, x: Pulse)
    requires Alone(p, s0, xs, s, packets, p0)
    ensures Alone(p, s0, xs + [x], Step(p, s, x).state, packets + DataOf(Step(p, s, x).packet), p0)
  {
    FeedSnoc(p, s0, xs, x);
  }

  lemma AllAloneStep(protos: seq<Protocol>, s0: seq<Track>, xs: seq<Pulse>,
                     states: seq<Track>, packets: seq<Packet>, p0: seq<Packet>, x: Pulse)
    requires AllAlone(protos, s0, xs, states, packets, p0) && AllInBounds(protos, states)
    ensures var steps := Steps(protos, states, x);
            AllAlone(protos, s0, xs + [x], StatesOf(steps), packets + Outputs(steps, |steps|), p0)
  {
    var steps := Steps(protos, states, x);
    var out := Outputs(steps, |steps|);
    forall i | 0 <= i < |protos|
      ensures Alone(protos[i], s0[i], xs + [x], StatesOf(steps)[i], OfProto(packets + out, i), OfProto(p0, i))
    {
      OutputsOfProto(steps, |steps|, i);
      OfProtoConcat(packets, out, i);
      AloneStep(protos[i], s0[i], xs, states[i], OfProto(packets, i), OfProto(p0, i), x);
    }
  }

  method StreamStep(decoder: Decoder, x: Pulse, ghost s0: seq<Track>, ghost xs: seq<Pulse>, ghost p0: seq<Packet>)
    requires decoder.Valid() && AllAlone(decoder.protocols, s0, xs, decoder.states[..], decoder.packets, p0)
    modifies decoder, decoder.states
    ensures decoder.Valid() && AllAlone(decoder.protocols, s0, xs + [x], decoder.states[..], decoder.packets, p0)
  {
    AllAloneStep(decoder.protocols, s0, xs, decoder.states[..], decoder.packets, p0, x);
    decoder.ProcessPulse(x);
  }

  /** Every protocol decodes a stream as if it were alone. */
  method ProcessStream(decoder: Decoder, xs: seq<Pulse>)
    requires decoder.Valid()
    modifies decoder, decoder.states
    ensures decoder.Valid()
    ensures AllAlone(decoder.protocols, old(decoder.states[..]), xs, decoder.states[..],
                     decoder.packets, old(decoder.packets))
  {
    ghost var s0, p0 := decoder.states[..], decoder.packets;
    ghost var seen: seq<Pulse> := [];
    for n := 0 to |xs|
      invariant decoder.Valid() && seen == xs[..n]
      invariant AllAlone(decoder.protocols, s0, seen, decoder.states[..], decoder.packets, p0)
    {
      StreamStep(decoder, xs[n], s0, seen, p0);
      seen := seen + [xs[n]];
    }
    assert seen == xs;
  }
}
