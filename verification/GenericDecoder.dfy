/**
 The table-driven pulse decoder of generic_decoder.c.  A protocol gives a sync
 sequence and the pulse sequences of the symbols 0 and 1; the decoder follows
 both symbols at once until one of them is complete.
 */
module GenericDecoder {
  import opened Common

  const MAX_SEQ_LEN: nat := 16
  const WORD16: nat := 0x1_0000
  const WORD64: nat := 0x1_0000_0000_0000_0000

  /** A finished pulse: its length in microseconds and its level. */
  datatype Pulse = Pulse(duration: nat, high: bool)

  type PulseDef = Pulse

  const NO_PULSE: PulseDef := Pulse(0, false)

  datatype ProtoValue = Proto(
    tolerance: nat,
    sync: seq<PulseDef>, syncLen: nat,
    bit0: seq<PulseDef>, bit0Len: nat,
    bit1: seq<PulseDef>, bit1Len: nat,
    minBits: nat, maxBits: nat)

  predicate Table(defs: seq<PulseDef>, len: nat) {
    |defs| == MAX_SEQ_LEN && len <= MAX_SEQ_LEN
  }

  type Protocol = p: ProtoValue |
      && Table(p.sync, p.syncLen) && Table(p.bit0, p.bit0Len) && Table(p.bit1, p.bit1Len)
      && p.minBits < WORD16 && p.maxBits < WORD16
    witness Proto(0, seq(16, _ => NO_PULSE), 0, seq(16, _ => NO_PULSE), 0, seq(16, _ => NO_PULSE), 0, 0, 0)

  predicate MatchPulse(duration: nat, target: nat, tol: nat) {
    target == 0 || target - tol < duration < target + tol
  }

  predicate Matches(p: Protocol, def: PulseDef, x: Pulse) {
    x.high == def.high && MatchPulse(x.duration, def.duration, p.tolerance)
  }

  function Defs(p: Protocol, bit: bool): seq<PulseDef> { if bit then p.bit1 else p.bit0 }

  function DefLen(p: Protocol, bit: bool): nat { if bit then p.bit1Len else p.bit0Len }

  /** A symbol without any pulse still takes one: the first entry is looked at. */
  function SymbolLen(p: Protocol, bit: bool): (n: nat)
    ensures 1 <= n <= MAX_SEQ_LEN
  {
    if DefLen(p, bit) == 0 then 1 else DefLen(p, bit)
  }

  // ----- one protocol, one pulse

  datatype Track = Track(
    reading: bool, seqIdx: nat, bitCnt: nat, bitBuffer: nat,
    idx0: nat, idx1: nat, match0: bool, match1: bool)

  /** All zero, as after generic_decoder_init. */
  const INITIAL_TRACK: Track := Track(false, 0, 0, 0, 0, 0, false, false)
  /** As reset_state leaves it. */
  const RESET_TRACK: Track := Track(false, 0, 0, 0, 0, 0, true, true)

  /** At the start of a symbol, with `cnt` bits read. */
  function SymbolStart(seqIdx: nat, cnt: nat, buffer: nat): Track {
    Track(true, seqIdx, cnt, buffer, 0, 0, true, true)
  }

  /** Every index the decoder is about to use lies inside its table. */
  predicate InBounds(p: Protocol, s: Track) {
    && (!s.reading ==> s.seqIdx <= p.syncLen && (s.seqIdx < p.syncLen || p.syncLen == 0))
    && (s.reading ==> (s.match0 || s.match1)
                      && (s.match0 ==> s.idx0 < SymbolLen(p, false))
                      && (s.match1 ==> s.idx1 < SymbolLen(p, true))
                      && (p.maxBits > 0 ==> s.bitCnt < p.maxBits))
  }

  datatype Stepped = Stepped(state: Track, packet: Option<nat>)

  function StepSync(p: Protocol, s: Track, x: Pulse): (r: Track)
    requires InBounds(p, s) && !s.reading
    ensures InBounds(p, r)
  {
    if s.seqIdx >= p.syncLen then s
    else if x.high != p.sync[s.seqIdx].high then s.(seqIdx := 0)
    else if Matches(p, p.sync[s.seqIdx], x) then
      if s.seqIdx + 1 >= p.syncLen then SymbolStart(s.seqIdx + 1, 0, 0) else s.(seqIdx := s.seqIdx + 1)
    else if Matches(p, p.sync[0], x) then
      // the first pulse of a new sync; a sync of one pulse that did not match cannot match now
      s.(seqIdx := 1)
    else s.(seqIdx := 0)
  }

  function AppendBit(s: Track, bit: bool): Track {
    SymbolStart(s.seqIdx, (s.bitCnt + 1) % WORD16, (s.bitBuffer * 2 + if bit then 1 else 0) % WORD64)
  }

  /** The two candidates after one more pulse. */
  function Follow(p: Protocol, s: Track, x: Pulse): Track
    requires InBounds(p, s) && s.reading
  {
    var hit0 := s.match0 && Matches(p, p.bit0[s.idx0], x);
    var hit1 := s.match1 && Matches(p, p.bit1[s.idx1], x);
    s.(match0 := hit0, idx0 := if hit0 then s.idx0 + 1 else s.idx0,
       match1 := hit1, idx1 := if hit1 then s.idx1 + 1 else s.idx1)
  }

  function StepBits(p: Protocol, s: Track, x: Pulse): (r: Stepped)
    requires InBounds(p, s) && s.reading
    ensures InBounds(p, r.state)
  {
    var f := Follow(p, s, x);
    if !f.match0 && !f.match1 then
      Stepped(RESET_TRACK, if s.bitCnt >= p.minBits then Some(s.bitBuffer) else None)
    else
      var complete0 := f.match0 && f.idx0 >= p.bit0Len;
      var complete1 := f.match1 && f.idx1 >= p.bit1Len;
      var t := if complete0 && complete1 then RESET_TRACK
               else if complete0 then AppendBit(f, false)
               else if complete1 then AppendBit(f, true)
               else f;
      if p.maxBits > 0 && t.bitCnt >= p.maxBits then Stepped(RESET_TRACK, Some(t.bitBuffer)) else Stepped(t, None)
  }

  function Step(p: Protocol, s: Track, x: Pulse): (r: Stepped)
    requires InBounds(p, s)
    ensures InBounds(p, r.state)
  {
    if s.reading then StepBits(p, s, x) else Stepped(StepSync(p, s, x), None)
  }

  // ----- a stream of pulses

  datatype Fed = Fed(state: Track, packets: seq<nat>)

  function Feed(p: Protocol, s: Track, xs: seq<Pulse>): (r: Fed)
    requires InBounds(p, s)
    ensures InBounds(p, r.state)
    decreases |xs|
  {
    if xs == [] then Fed(s, [])
    else
      var r := Step(p, s, xs[0]);
      var rest := Feed(p, r.state, xs[1..]);
      Fed(rest.state, Prepend(r.packet, rest.packets))
  }

  function Prepend(packet: Option<nat>, rest: seq<nat>): seq<nat> {
    match packet case None => rest case Some(d) => [d] + rest
  }

  lemma PrependConcat(packet: Option<nat>, a: seq<nat>, b: seq<nat>)
    ensures Prepend(packet, a) + b == Prepend(packet, a + b)
  {
    if packet.Some? { assert ([packet.value] + a) + b == [packet.value] + (a + b); }
  }

  /** The first pulse, and what follows it. */
  lemma FeedFirst(p: Protocol, s: Track, x: Pulse, xs: seq<Pulse>, rest: seq<Pulse>)
    requires InBounds(p, s) && xs == [x] + rest
    ensures var r := Step(p, s, x); var f := Feed(p, r.state, rest);
            Feed(p, s, xs) == Fed(f.state, Prepend(r.packet, f.packets))
  {
    assert xs[1..] == rest;
  }

  lemma {:induction false} FeedConcat(p: Protocol, s: Track, xs: seq<Pulse>, ys: seq<Pulse>)
    requires InBounds(p, s)
    ensures var a := Feed(p, s, xs);
            var b := Feed(p, a.state, ys);
            Feed(p, s, xs + ys) == Fed(b.state, a.packets + b.packets)
    decreases |xs|
  {
    if xs == [] {
      assert xs + ys == ys && [] + Feed(p, s, ys).packets == Feed(p, s, ys).packets;
    } else {
      var x, rest := xs[0], xs[1..];
      var r := Step(p, s, x);
      var f := Feed(p, r.state, rest);
      assert xs == [x] + rest && xs + ys == [x] + (rest + ys);
      FeedConcat(p, r.state, rest, ys);
      FeedFirst(p, s, x, xs, rest);
      FeedFirst(p, s, x, xs + ys, rest + ys);
      PrependConcat(r.packet, f.packets, Feed(p, f.state, ys).packets);
    }
  }

  // ----- all protocols

  datatype Packet = Packet(proto: nat, data: nat)

  predicate AllInBounds(protos: seq<Protocol>, states: seq<Track>) {
    |protos| == |states| && forall i | 0 <= i < |protos| :: InBounds(protos[i], states[i])
  }

  /** The step of every protocol for one pulse. */
  function Steps(protos: seq<Protocol>, states: seq<Track>, x: Pulse): seq<Stepped>
    requires AllInBounds(protos, states)
  {
    seq(|protos|, i requires 0 <= i < |protos| => Step(protos[i], states[i], x))
  }

  function StatesOf(steps: seq<Stepped>): seq<Track> {
    seq(|steps|, i requires 0 <= i < |steps| => steps[i].state)
  }

  function Emission(i: nat, packet: Option<nat>): seq<Packet> {
    match packet case None => [] case Some(d) => [Packet(i, d)]
  }

  /** The packets the first `n` protocols put out, in order. */
  function Outputs(steps: seq<Stepped>, n: nat): seq<Packet>
    requires n <= |steps|
  {
    if n == 0 then [] else Outputs(steps, n - 1) + Emission(n - 1, steps[n - 1].packet)
  }

  class Decoder {
    const protocols: seq<Protocol>
    const states: array<Track>
    var packets: seq<Packet>

    ghost predicate Valid()
      reads this, states
    {
      AllInBounds(protocols, states[..])
    }

    constructor (protocols: seq<Protocol>)
      ensures Valid() && this.protocols == protocols && packets == [] && fresh(states)
      ensures forall i | 0 <= i < |protocols| :: states[i] == INITIAL_TRACK
    {
      this.protocols := protocols;
      states := new Track[|protocols|](_ => INITIAL_TRACK);
      packets := [];
    }

    method Output(i: nat, data: nat)
      modifies `packets
      ensures packets == old(packets) + [Packet(i, data)]
    {
      packets := packets + [Packet(i, data)];
    }

    /** The STATE_WAIT_SYNC part of the loop body. */
    method SyncPulse(i: nat, x: Pulse)
      requires Valid() && i < |protocols| && !states[i].reading
      modifies states
      ensures states[i] == StepSync(protocols[i], old(states[i]), x)
      ensures forall k | 0 <= k < states.Length && k != i :: states[k] == old(states[k])
    {
      var p, s := protocols[i], states[i];
      if s.seqIdx < p.syncLen {
        var target := p.sync[s.seqIdx];
        if x.high == target.high {
          if MatchPulse(x.duration, target.duration, p.tolerance) {
            s := s.(seqIdx := s.seqIdx + 1);
            if s.seqIdx >= p.syncLen {
              s := s.(reading := true, bitCnt := 0, bitBuffer := 0,
                      idx0 := 0, idx1 := 0, match0 := true, match1 := true);
            }
          } else {
            s := s.(seqIdx := 0);
            if x.high == p.sync[0].high && MatchPulse(x.duration, p.sync[0].duration, p.tolerance) {
              s := s.(seqIdx := 1);
            }
          }
        } else {
          s := s.(seqIdx := 0);
        }
      }
      states[i] := s;
    }

    /** Both candidates look at the pulse, as long as they are alive. */
    static method FollowPulse(p: Protocol, before: Track, x: Pulse) returns (s: Track)
      requires InBounds(p, before) && before.reading
      ensures s == Follow(p, before, x)
    {
      s := before;
      var possible0, possible1 := s.match0, s.match1;
      if possible0 {
        var tgt0 := p.bit0[s.idx0];
        if x.high != tgt0.high || !MatchPulse(x.duration, tgt0.duration, p.tolerance) {
          s := s.(match0 := false);
        } else {
          s := s.(idx0 := s.idx0 + 1);
        }
      }
      if possible1 {
        var tgt1 := p.bit1[s.idx1];
        if x.high != tgt1.high || !MatchPulse(x.duration, tgt1.duration, p.tolerance) {
          s := s.(match1 := false);
        } else {
          s := s.(idx1 := s.idx1 + 1);
        }
      }
    }

    /** The STATE_READ_BITS part of the loop body. */
    method BitPulse(i: nat, x: Pulse)
      requires Valid() && i < |protocols| && states[i].reading
      modifies states, `packets
      ensures states[i] == StepBits(protocols[i], old(states[i]), x).state
      ensures forall k | 0 <= k < states.Length && k != i :: states[k] == old(states[k])
      ensures packets == old(packets) + Emission(i, StepBits(protocols[i], old(states[i]), x).packet)
    {
      var p := protocols[i];
      ghost var r := StepBits(p, states[i], x);
      var s := FollowPulse(p, states[i], x);
      if !s.match0 && !s.match1 {
        if s.bitCnt >= p.minBits {
          Output(i, s.bitBuffer);
        }
        s := RESET_TRACK;
      } else {
        var complete0 := s.match0 && s.idx0 >= p.bit0Len;
        var complete1 := s.match1 && s.idx1 >= p.bit1Len;
        if complete0 && complete1 {
          s := RESET_TRACK;
        } else if complete0 || complete1 {
          s := s.(bitBuffer := (s.bitBuffer * 2 + if complete1 then 1 else 0) % WORD64,
                  bitCnt := (s.bitCnt + 1) % WORD16,
                  idx0 := 0, idx1 := 0, match0 := true, match1 := true);
        }
        if s.bitCnt >= p.maxBits && p.maxBits > 0 {
          Output(i, s.bitBuffer);
          s := RESET_TRACK;
        }
      }
      assert s == r.state;
      states[i] := s;
    }

    /** The body of the loop over the protocols. */
    method OneProtocol(i: nat, x: Pulse, ghost r: Stepped)
      requires Valid() && i < |protocols| && r == Step(protocols[i], states[i], x)
      modifies states, `packets
      ensures Valid()
      ensures states[i] == r.state && packets == old(packets) + Emission(i, r.packet)
      ensures forall k | 0 <= k < states.Length && k != i :: states[k] == old(states[k])
    {
      if !states[i].reading {
        SyncPulse(i, x);
      } else {
        BitPulse(i, x);
      }
    }

    /** The first `i` protocols have taken their steps. */
    ghost predicate Taken(before: seq<Track>, steps: seq<Stepped>, out: seq<Packet>, i: nat)
      reads this, states
    {
      && Valid() && |before| == |steps| == |protocols| && i <= |steps|
      && (forall k | 0 <= k < i :: states[k] == steps[k].state)
      && (forall k | i <= k < |protocols| :: states[k] == before[k])
      && packets == out + Outputs(steps, i)
    }

    method Turn(i: nat, x: Pulse, ghost before: seq<Track>, ghost steps: seq<Stepped>, ghost out: seq<Packet>)
      requires Taken(before, steps, out, i) && i < |protocols| && steps[i] == Step(protocols[i], states[i], x)
      modifies states, `packets
      ensures Taken(before, steps, out, i + 1)
    {
      OneProtocol(i, x, steps[i]);
    }

    /** generic_decoder_process_pulse: every protocol takes its own step. */
    method ProcessPulse(x: Pulse)
      requires Valid()
      modifies this, states
      ensures Valid()
      ensures var steps := Steps(protocols, old(states[..]), x);
              states[..] == StatesOf(steps) && packets == old(packets) + Outputs(steps, |steps|)
    {
      ghost var before, out := states[..], packets;
      ghost var steps := Steps(protocols, before, x);
      for i := 0 to |protocols|
        invariant Taken(before, steps, out, i)
      {
        assert steps[i] == Step(protocols[i], before[i], x);
        Turn(i, x, before, steps, out);
      }
      assert states[..] == StatesOf(steps);
    }
  }

  // ----- the definitions

  /** One {"h": .., "l": ..} object; either key may be missing. */
  datatype Pair = Pair(h: Option<int>, l: Option<int>)

  /** `value` times the base length, in 16 bits. */
  function Micros(value: int, base: nat): nat { value * base % WORD16 }

  function Flatten(pairs: seq<Pair>, base: nat): seq<PulseDef> {
    if pairs == [] then []
    else OfPair(pairs[0], base) + Flatten(pairs[1..], base)
  }

  lemma {:induction false} FlattenConcat(a: seq<Pair>, b: seq<Pair>, base: nat)
    ensures Flatten(a + b, base) == Flatten(a, base) + Flatten(b, base)
    decreases |a|
  {
    if a == [] {
      assert a + b == b;
    } else {
      assert (a + b)[1..] == a[1..] + b;
      FlattenConcat(a[1..], b, base);
    }
  }

  /** The pulses of one pair. */
  function OfPair(pair: Pair, base: nat): seq<PulseDef> {
    (match pair.h case None => [] case Some(v) => [Pulse(Micros(v, base), true)])
    + (match pair.l case None => [] case Some(v) => [Pulse(Micros(v, base), false)])
  }

  lemma FlattenSnoc(pairs: seq<Pair>, i: nat, base: nat)
    requires i < |pairs|
    ensures Flatten(pairs[..i + 1], base) == Flatten(pairs[..i], base) + OfPair(pairs[i], base)
  {
    assert pairs[..i + 1] == pairs[..i] + [pairs[i]];
    FlattenConcat(pairs[..i], [pairs[i]], base);
    assert [pairs[i]][1..] == [];
  }

  /** Pairs with both pulses fill the table with a high and a low pulse each, in units of the base length,
      16 bits wide. */
  lemma {:induction false} FlattenAt(pairs: seq<Pair>, base: nat, k: nat)
    requires k < |pairs| && forall i :: 0 <= i < |pairs| ==> pairs[i].h.Some? && pairs[i].l.Some?
    ensures var f := Flatten(pairs, base);
      && |f| == 2 * |pairs|
      && f[2 * k] == Pulse(pairs[k].h.value * base % 0x1_0000, true)
      && f[2 * k + 1] == Pulse(pairs[k].l.value * base % 0x1_0000, false)
    decreases |pairs|
  {
    var rest := pairs[1..];
    assert Flatten(pairs, base) == OfPair(pairs[0], base) + Flatten(rest, base);
    if k > 0 {
      FlattenAt(rest, base, k - 1);
    } else if rest != [] {
      FlattenAt(rest, base, 0);
    }
  }

  /** One with a single pulse contributes that. */
  lemma SinglePulses(v: int, base: nat)
    ensures Flatten([Pair(Some(v), None)], base) == [Pulse(v * base % 0x1_0000, true)]
    ensures Flatten([Pair(None, Some(v))], base) == [Pulse(v * base % 0x1_0000, false)]
    ensures Flatten([Pair(None, None)], base) == []
  {
    assert forall x: Pair :: [x][1..] == [];
  }

  method AddPair(pair: Pair, out: array<PulseDef>, at: nat, base: nat) returns (len: nat)
    requires at + 1 < MAX_SEQ_LEN && out.Length == MAX_SEQ_LEN
    modifies out
    ensures at <= len <= MAX_SEQ_LEN && out[..len] == old(out[..at]) + OfPair(pair, base)
    ensures out[len..] == old(out[..])[len..]
  {
    len := at;
    if pair.h.Some? {
      out[len] := Pulse(Micros(pair.h.value, base), true);
      len := len + 1;
    }
    if pair.l.Some? {
      out[len] := Pulse(Micros(pair.l.value, base), false);
      len := len + 1;
    }
  }

  /** parse_pulse_def: the pairs in order, until the table could overflow. */
  method ParsePulseDef(pairs: seq<Pair>, out: array<PulseDef>, base: nat) returns (len: nat)
    requires out.Length == MAX_SEQ_LEN
    modifies out
    ensures len <= MAX_SEQ_LEN
    ensures exists n | 0 <= n <= |pairs| ::
              out[..len] == Flatten(pairs[..n], base) && (n == |pairs| || len >= MAX_SEQ_LEN - 1)
    ensures out[len..] == old(out[..])[len..]
  {
    len := 0;
    var i := 0;
    while i < |pairs|
      invariant 0 <= i <= |pairs| && len <= MAX_SEQ_LEN
      invariant out[..len] == Flatten(pairs[..i], base)
      invariant out[len..] == old(out[..])[len..]
    {
      if len >= MAX_SEQ_LEN - 1 {
        break;
      }
      FlattenSnoc(pairs, i, base);
      len := AddPair(pairs[i], out, len, base);
      i := i + 1;
    }
  }
}
