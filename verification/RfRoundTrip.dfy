/**
 What the decoders of slowrf.c make of the signals sent by cc1101.c: the round
 trips for every jitter inside the decoders' windows, the errors FS20 detects,
 and which decoders can take a signal for theirs.
 */
module RfRoundTrip {
  import opened Common
  import opened SlowRf
  import opened RfSender

  // ----- runs of pulses between two gaps

  function Fs20Pulses(d: Fs20, p: seq<nat>): Fs20 {
    if p == [] then d else Fs20Pulse(Fs20Pulses(d, p[..|p| - 1]), p[|p| - 1])
  }

  function It1Pulses(d: It1, p: seq<nat>): It1 {
    if p == [] then d else It1Pulse(It1Pulses(d, p[..|p| - 1]), p[|p| - 1])
  }

  function It3Pulses(d: It3, p: seq<nat>): It3 {
    if p == [] then d else It3Pulse(It3Pulses(d, p[..|p| - 1]), p[|p| - 1])
  }

  function TaskPulses(t: Task, p: seq<nat>): Task {
    Task(Fs20Pulses(t.fs, p), It1Pulses(t.it1, p), It3Pulses(t.it3, p))
  }

  predicate NoGap(p: seq<nat>) { forall i :: 0 <= i < |p| ==> p[i] <= 4000 }

  /** Between two gaps the decoders work side by side and nothing is reported. */
  lemma {:induction false} RunNoGap(t: Task, p: seq<nat>)
    requires NoGap(p)
    ensures Run(t, p) == Stepped(TaskPulses(t, p), [])
    decreases |p|
  {
    if p != [] {
      var n := |p| - 1;
      RunNoGap(t, p[..n]);
      RunSnoc(t, p, n);
      assert p[..n + 1] == p;
    }
  }

  lemma RunToGap(t: Task, p: seq<nat>, gap: nat)
    requires NoGap(p) && Gap(gap)
    ensures Run(t, p + [gap]) == Stepped(AfterGap(gap), ReportsOf(TaskPulses(t, p)))
  {
    RunNoGap(t, p);
    RunSnoc(t, p + [gap], |p|);
    assert (p + [gap])[..|p| + 1] == p + [gap] && (p + [gap])[..|p|] == p;
  }

  // ----- reports of one kind

  function Only20(r: seq<Report>): seq<seq<byte>> {
    if r == [] then [] else if r[0].FS20? then [r[0].data] + Only20(r[1..]) else Only20(r[1..])
  }

  function Only1(r: seq<Report>): seq<string> {
    if r == [] then [] else if r[0].ITV1? then [r[0].word] + Only1(r[1..]) else Only1(r[1..])
  }

  function Only3(r: seq<Report>): seq<string> {
    if r == [] then [] else if r[0].ITV3? then [r[0].word] + Only3(r[1..]) else Only3(r[1..])
  }

  lemma {:induction false} Only20Concat(a: seq<Report>, b: seq<Report>)
    ensures Only20(a + b) == Only20(a) + Only20(b)
    decreases |a|
  {
    if a == [] {
      assert a + b == b;
    } else {
      assert (a + b)[0] == a[0] && (a + b)[1..] == a[1..] + b;
      Only20Concat(a[1..], b);
    }
  }

  lemma {:induction false} Only1Concat(a: seq<Report>, b: seq<Report>)
    ensures Only1(a + b) == Only1(a) + Only1(b)
    decreases |a|
  {
    if a == [] {
      assert a + b == b;
    } else {
      assert (a + b)[0] == a[0] && (a + b)[1..] == a[1..] + b;
      Only1Concat(a[1..], b);
    }
  }

  lemma {:induction false} Only3Concat(a: seq<Report>, b: seq<Report>)
    ensures Only3(a + b) == Only3(a) + Only3(b)
    decreases |a|
  {
    if a == [] {
      assert a + b == b;
    } else {
      assert (a + b)[0] == a[0] && (a + b)[1..] == a[1..] + b;
      Only3Concat(a[1..], b);
    }
  }

  lemma OnlyConcat(a: seq<Report>, b: seq<Report>)
    ensures Only20(a + b) == Only20(a) + Only20(b)
    ensures Only1(a + b) == Only1(a) + Only1(b)
    ensures Only3(a + b) == Only3(a) + Only3(b)
  {
    Only20Concat(a, b);
    Only1Concat(a, b);
    Only3Concat(a, b);
  }

  lemma OnlyOne(r: Report)
    ensures Only20([r]) == if r.FS20? then [r.data] else []
    ensures Only1([r]) == if r.ITV1? then [r.word] else []
    ensures Only3([r]) == if r.ITV3? then [r.word] else []
  {
    assert [r][1..] == [];
  }

  lemma OnlyIf(there: bool, r: Report)
    ensures var s := if there then [r] else [];
      && Only20(s) == (if there && r.FS20? then [r.data] else [])
      && Only1(s) == (if there && r.ITV1? then [r.word] else [])
      && Only3(s) == (if there && r.ITV3? then [r.word] else [])
  {
    OnlyOne(r);
  }

  lemma OnlyReports(t: Task)
    ensures Only20(ReportsOf(t)) == if |t.fs.data| >= 4 then [t.fs.data] else []
    ensures Only1(ReportsOf(t)) == if |t.it1.s| == 12 then [t.it1.s] else []
    ensures Only3(ReportsOf(t)) == if |t.it3.s| == 32 then [t.it3.s] else []
  {
    var a := if |t.fs.data| >= 4 then [FS20(t.fs.data)] else [];
    var b := if |t.it1.s| == 12 then [ITV1(t.it1.s)] else [];
    var c := if |t.it3.s| == 32 then [ITV3(t.it3.s)] else [];
    OnlyConcat(a + b, c);
    OnlyConcat(a, b);
    OnlyIf(|t.fs.data| >= 4, FS20(t.fs.data));
    OnlyIf(|t.it1.s| == 12, ITV1(t.it1.s));
    OnlyIf(|t.it3.s| == 32, ITV3(t.it3.s));
  }

  lemma OnlyToGap(t: Task, p: seq<nat>, gap: nat)
    requires NoGap(p) && Gap(gap)
    ensures Run(t, p + [gap]).task == AfterGap(gap)
    ensures var data := Fs20Pulses(t.fs, p).data;
      Only20(Run(t, p + [gap]).reports) == if |data| >= 4 then [data] else []
    ensures var s := It1Pulses(t.it1, p).s;
      Only1(Run(t, p + [gap]).reports) == if |s| == 12 then [s] else []
    ensures var s := It3Pulses(t.it3, p).s;
      Only3(Run(t, p + [gap]).reports) == if |s| == 32 then [s] else []
  {
    RunToGap(t, p, gap);
    OnlyReports(TaskPulses(t, p));
  }

  // ----- FS20: bits

  function Fs20Bits(d: Fs20, bits: seq<bool>): Fs20 {
    if bits == [] then d else Fs20Bit(Fs20Bits(d, bits[..|bits| - 1]), bits[|bits| - 1])
  }

  /** What may be received for a pulse that was sent. */
  predicate Near20(sent: nat, got: nat) {
    if sent == 400 then 250 <= got <= 550 else if sent == 600 then 550 < got <= 900 else got > 4000
  }

  predicate Jitter20(sent: seq<nat>, got: seq<nat>) {
    |sent| == |got| && forall i :: 0 <= i < |sent| ==> Near20(sent[i], got[i])
  }

  lemma TwoHalves(d: Fs20, bit: bool, a: nat, b: nat)
    requires d.pending == None
    requires Near20(BitPulses(bit)[0], a) && Near20(BitPulses(bit)[1], b)
    ensures Fs20Pulse(Fs20Pulse(d, a), b) == Fs20Bit(d, bit)
    ensures Fs20Bit(d, bit).pending == None
  {
    assert d.(pending := Some(bit)).(pending := None) == d;
  }

  lemma PulseSnoc(d: Fs20, front: seq<nat>, x: nat)
    ensures Fs20Pulses(d, front + [x]) == Fs20Pulse(Fs20Pulses(d, front), x)
  {
    FrontOfSnoc(front, x);
  }

  lemma {:induction false} Fs20Concat(d: Fs20, a: seq<nat>, b: seq<nat>)
    ensures Fs20Pulses(d, a + b) == Fs20Pulses(Fs20Pulses(d, a), b)
    decreases |b|
  {
    if b == [] {
      assert a + b == a;
    } else {
      Fs20Concat(d, a, b[..|b| - 1]);
      FrontOfConcat(a, b);
    }
  }

  /** The two pulses of the last bit. */
  lemma LastBitJitter(bits: seq<bool>, got: seq<nat>, n: nat)
    requires |bits| == n + 1 && Jitter20(BitsPulses(bits), got)
    ensures |got| == 2 * n + 2 && got == (got[..2 * n] + [got[2 * n]]) + [got[2 * n + 1]]
    ensures Jitter20(BitsPulses(bits[..n]), got[..2 * n])
    ensures Near20(BitPulses(bits[n])[0], got[2 * n]) && Near20(BitPulses(bits[n])[1], got[2 * n + 1])
  {
    var sent, front := BitsPulses(bits), BitsPulses(bits[..n]);
    forall i | 0 <= i < 2 * n ensures Near20(front[i], got[..2 * n][i]) { assert sent[i] == front[i]; }
    assert sent[2 * n] == BitPulses(bits[n])[0] && sent[2 * n + 1] == BitPulses(bits[n])[1];
  }

  /** Two half bits are a bit, whatever their lengths inside the windows. */
  lemma {:induction false} BitsHeard(d: Fs20, bits: seq<bool>, got: seq<nat>)
    requires d.pending == None && Jitter20(BitsPulses(bits), got)
    ensures Fs20Pulses(d, got) == Fs20Bits(d, bits)
    ensures Fs20Bits(d, bits).pending == None
    ensures NoGap(got)
    decreases |bits|
  {
    if bits != [] {
      var n := |bits| - 1;
      LastBitJitter(bits, got, n);
      var front, x, y := got[..2 * n], got[2 * n], got[2 * n + 1];
      BitsHeard(d, bits[..n], front);
      PulseSnoc(d, front, x);
      PulseSnoc(d, front + [x], y);
      TwoHalves(Fs20Bits(d, bits[..n]), bits[n], x, y);
      NoGapSnoc(front + [x], 2 * n);
      NoGapSnoc(got, 2 * n + 1);
    }
  }

  lemma {:induction false} BitsConcat(d: Fs20, a: seq<bool>, b: seq<bool>)
    ensures Fs20Bits(d, a + b) == Fs20Bits(Fs20Bits(d, a), b)
    decreases |b|
  {
    if b == [] {
      assert a + b == a;
    } else {
      BitsConcat(d, a, b[..|b| - 1]);
      FrontOfConcat(a, b);
    }
  }

  /** The signal of a list of bits that ends in a zero: its last low pulse runs on into the pause. */
  function Signal(bits: seq<bool>): seq<nat> {
    Longer(BitsPulses(bits + [false]), 10000)
  }

  /** The pulses of the bits, the high pulse of the closing zero, and the pause. */
  lemma SignalParts(bits: seq<bool>)
    ensures Signal(bits) == BitsPulses(bits) + [400, 10400]
  {
    assert (bits + [false])[..|bits|] == bits;
    assert BitsPulses(bits + [false]) == (BitsPulses(bits) + [400]) + [400];
  }

  lemma SignalCut(sent: seq<nat>, got: seq<nat>, n: nat)
    requires |sent| == n && Jitter20(sent + [400, 10400], got)
    ensures got == got[..n + 1] + [got[n + 1]] && Gap(got[n + 1])
    ensures got[..n + 1][..n] == got[..n] && Jitter20(sent, got[..n]) && HalfZero(got[n])
  {
    var all := sent + [400, 10400];
    assert all[n] == 400 && all[n + 1] == 10400;
    forall i | 0 <= i < n ensures Near20(sent[i], got[..n][i]) {
      assert all[i] == sent[i];
    }
  }

  lemma OneHalf(d: Fs20, x: nat)
    requires d.pending == None && HalfZero(x)
    ensures Fs20Pulse(d, x).data == d.data
  {
  }

  lemma LastHalf(bits: seq<bool>, body: seq<nat>, n: nat)
    requires n == 2 * |bits| && |body| == n + 1
    requires Jitter20(BitsPulses(bits), body[..n]) && HalfZero(body[n])
    ensures NoGap(body)
    ensures Fs20Pulses(RESET_FS20, body).data == Fs20Bits(RESET_FS20, bits).data
  {
    BitsHeard(RESET_FS20, bits, body[..n]);
    OneHalf(Fs20Bits(RESET_FS20, bits), body[n]);
    NoGapSnoc(body, n);
  }

  lemma NoGapSnoc(body: seq<nat>, n: nat)
    requires |body| == n + 1 && NoGap(body[..n]) && !Gap(body[n])
    ensures NoGap(body)
  {
    forall i | 0 <= i < |body| ensures !Gap(body[i]) {
      if i < n { assert body[i] == body[..n][i]; }
    }
  }

  /** A signal is heard bit by bit; its last zero stays unfinished and the pause is a gap. */
  lemma SignalHeard(t: Task, bits: seq<bool>, got: seq<nat>)
    requires t.fs == RESET_FS20 && Jitter20(Signal(bits), got)
    ensures got != [] && Run(t, got).task == AfterGap(got[|got| - 1])
    ensures Only20(Run(t, got).reports)
         == if |Fs20Bits(RESET_FS20, bits).data| >= 4 then [Fs20Bits(RESET_FS20, bits).data] else []
  {
    var n := 2 * |bits|;
    SignalParts(bits);
    SignalCut(BitsPulses(bits), got, n);
    var body, gap := got[..n + 1], got[n + 1];
    LastHalf(bits, body, n);
    OnlyToGap(t, body, gap);
  }

  // ----- FS20: groups

  /** Bits that do not complete a group are collected. */
  lemma {:induction false} Collect(d: Fs20, g: seq<bool>)
    requires d.syncFound && |d.bits| + |g| <= 8
    ensures Fs20Bits(d, g) == d.(bits := d.bits + g)
    decreases |g|
  {
    var n := |g| - 1;
    if g == [] {
      assert d.bits + g == d.bits;
    } else {
      Collect(d, g[..n]);
      assert (d.bits + g[..n]) + [g[n]] == d.bits + g;
    }
  }

  lemma NinthBit(d: Fs20, bits: seq<bool>, last: bool)
    requires d.syncFound && |bits| == 8
    ensures Fs20Bit(d.(bits := bits), last) == EndGroup(d, bits + [last])
  {
  }

  /** Bits that complete a group. */
  lemma Completes(d: Fs20, g: seq<bool>)
    requires d.syncFound && g != [] && |d.bits| + |g| == 9
    ensures Fs20Bits(d, g) == EndGroup(d, d.bits + g)
  {
    var n := |g| - 1;
    var front := d.bits + g[..n];
    Collect(d, g[..n]);
    NinthBit(d, front, g[n]);
    assert front + [g[n]] == d.bits + g;
  }

  lemma GroupHeard(d: Fs20, g: seq<bool>)
    requires d.syncFound && d.bits == [] && |g| == 9
    ensures Fs20Bits(d, g) == EndGroup(d, g)
  {
    Completes(d, g);
    assert d.bits + g == g;
  }

  lemma GroupIsEven(b: byte)
    ensures !Odd(Group(b)) && Byte(Group(b)[..8]) == b
  {
    var bits := BitsOf(b, 8);
    BitsSnoc(bits, Odd(bits));
    assert Group(b)[..8] == bits;
    assert b < Pow2(8) by { Pow2Small(); }
    ValueOfBits(b, 8);
  }

  /** What of the bytes fits into the decoder's buffer. */
  function Kept(bytes: seq<byte>): seq<byte> { bytes[..Min(|bytes|, 16)] }

  lemma KeptSnoc(bytes: seq<byte>)
    requires bytes != []
    ensures var n := |bytes| - 1;
      Kept(bytes) == if n < 16 then Kept(bytes[..n]) + [bytes[n]] else Kept(bytes[..n])
  {
    var n := |bytes| - 1;
    if n < 16 {
      assert Kept(bytes[..n]) == bytes[..n] && bytes[..n] + [bytes[n]] == bytes;
    } else {
      assert bytes[..n][..16] == bytes[..16];
    }
  }

  lemma {:induction false} GroupsHeard(d: Fs20, bytes: seq<byte>)
    requires d.syncFound && d.bits == [] && d.data == []
    ensures Fs20Bits(d, Groups(bytes)) == d.(data := Kept(bytes))
    decreases |bytes|
  {
    if bytes == [] {
      assert Kept(bytes) == [];
    } else {
      var n := |bytes| - 1;
      GroupsHeard(d, bytes[..n]);
      BitsConcat(d, Groups(bytes[..n]), Group(bytes[n]));
      GroupHeard(d.(data := Kept(bytes[..n])), Group(bytes[n]));
      GroupIsEven(bytes[n]);
      KeptSnoc(bytes);
    }
  }

  lemma {:induction false} ZerosHeard(n: nat)
    ensures Fs20Bits(RESET_FS20, Zeros(n)) == RESET_FS20
  {
    if n > 0 {
      ZerosHeard(n - 1);
      FrontOfZeros(n);
    }
  }

  const SYNCED: Fs20 := RESET_FS20.(syncFound := true)

  const HEAD: seq<bool> := Zeros(24) + [true]

  lemma HeadHeard()
    ensures Fs20Bits(RESET_FS20, HEAD) == SYNCED
  {
    ZerosHeard(24);
    assert HEAD[..24] == Zeros(24);
  }

  /**
   The bytes of a transmission are reported as they were sent, for every jitter
   inside the windows: the first sixteen of them, if there are at least four.
   */
  lemma Fs20RoundTrip(t: Task, bytes: seq<byte>, got: seq<nat>)
    requires t.fs == RESET_FS20 && Jitter20(Frame20(bytes), got)
    ensures Run(t, got).task == AfterGap(got[|got| - 1])
    ensures Only20(Run(t, got).reports) == if |bytes| >= 4 then [Kept(bytes)] else []
  {
    SignalHeard(t, HEAD + Groups(bytes), got);
    BitsConcat(RESET_FS20, HEAD, Groups(bytes));
    HeadHeard();
    GroupsHeard(SYNCED, bytes);
  }

  lemma SplitJitter20(a: seq<nat>, b: seq<nat>, got: seq<nat>)
    requires Jitter20(a + b, got)
    ensures Jitter20(a, got[..|a|]) && Jitter20(b, got[|a|..]) && got == got[..|a|] + got[|a|..]
  {
    forall i | 0 <= i < |a| ensures Near20(a[i], got[..|a|][i]) { assert (a + b)[i] == a[i]; }
    forall i | 0 <= i < |b| ensures Near20(b[i], got[|a|..][i]) { assert (a + b)[|a| + i] == b[i]; }
  }

  /** Every repetition of a frame is reported on its own. */
  lemma {:induction false} Fs20Repetitions(t: Task, bytes: seq<byte>, n: nat, got: seq<nat>)
    requires t.fs == RESET_FS20 && Jitter20(Repeat(Frame20(bytes), n), got)
    ensures Run(t, got).task.fs == RESET_FS20
    ensures Only20(Run(t, got).reports) == Repeat(if |bytes| >= 4 then [Kept(bytes)] else [], n)
    decreases n
  {
    if n > 0 {
      var front := Repeat(Frame20(bytes), n - 1);
      SplitJitter20(front, Frame20(bytes), got);
      var a, b := got[..|front|], got[|front|..];
      Fs20Repetitions(t, bytes, n - 1, a);
      Fs20RoundTrip(Run(t, a).task, bytes, b);
      RunConcat(t, a, b);
      OnlyConcat(Run(t, a).reports, Run(Run(t, a).task, b).reports);
    }
  }

  // ----- FS20: one wrong symbol

  /** The bits of a frame, the closing zero left out, with the `k`th of them turned. */
  function Turned(bytes: seq<byte>, k: nat): seq<bool>
    requires k < 25 + 9 * |bytes|
  {
    TurnOne(HEAD + Groups(bytes), k)
  }

  lemma {:induction false} OddTurned(g: seq<bool>, i: nat)
    requires i < |g|
    ensures Odd(g[i := !g[i]]) == !Odd(g)
    decreases |g|
  {
    var n := |g| - 1;
    if i < n {
      OddTurned(g[..n], i);
      assert g[i := !g[i]][..n] == g[..n][i := !g[i]];
    } else {
      assert g[i := !g[i]][..n] == g[..n];
    }
  }

  lemma {:induction false} GroupsConcat(a: seq<byte>, b: seq<byte>)
    ensures Groups(a + b) == Groups(a) + Groups(b)
    decreases |b|
  {
    if b == [] {
      assert a + b == a;
    } else {
      GroupsConcat(a, b[..|b| - 1]);
      FrontOfConcat(a, b);
    }
  }

  function TurnOne(g: seq<bool>, i: nat): seq<bool>
    requires i < |g|
  {
    g[i := !g[i]]
  }

  lemma TurnInside(front: seq<bool>, b: seq<bool>, c: seq<bool>, i: nat)
    requires i < |b|
    ensures TurnOne(front + b + c, |front| + i) == (front + TurnOne(b, i)) + c
  {
    assert (front + b + c)[|front| + i] == b[i];
  }

  lemma GroupsAround(bytes: seq<byte>, g: nat)
    requires g < |bytes|
    ensures Groups(bytes) == Groups(bytes[..g]) + Group(bytes[g]) + Groups(bytes[g + 1..])
  {
    CutOut(bytes, g);
    GroupsConcat(bytes[..g] + [bytes[g]], bytes[g + 1..]);
    GroupsConcat(bytes[..g], [bytes[g]]);
    GroupsOfOne(bytes[g]);
  }

  lemma CutOut(bytes: seq<byte>, g: nat)
    requires g < |bytes|
    ensures bytes == (bytes[..g] + [bytes[g]]) + bytes[g + 1..]
  {
  }

  /** A turned symbol turns one group, and leaves what is before and after it. */
  lemma TurnedGroup(bytes: seq<byte>, g: nat, i: nat)
    requires g < |bytes| && i < 9
    ensures Turned(bytes, 25 + 9 * g + i)
         == (HEAD + Groups(bytes[..g]) + TurnOne(Group(bytes[g]), i)) + Groups(bytes[g + 1..])
  {
    GroupsAround(bytes, g);
    var front, b, c := HEAD + Groups(bytes[..g]), Group(bytes[g]), Groups(bytes[g + 1..]);
    assert |front| == 25 + 9 * g;
    assert HEAD + Groups(bytes) == front + b + c;
    TurnInside(front, b, c, i);
  }

  /** A wrong group makes the decoder start again. */
  lemma TurnedResets(bytes: seq<byte>, g: nat, i: nat, k: nat, rest: seq<byte>)
    requires g < |bytes| && i < 9 && k == 25 + 9 * g + i && rest == bytes[g + 1..]
    ensures Fs20Bits(RESET_FS20, Turned(bytes, k)) == Fs20Bits(RESET_FS20, Groups(rest))
  {
    var a, b, c := Groups(bytes[..g]), Group(bytes[g]), Groups(bytes[g + 1..]);
    var wrong := TurnOne(b, i);
    var d := SYNCED.(data := Kept(bytes[..g]));
    TurnedGroup(bytes, g, i);
    BitsConcat(RESET_FS20, HEAD + a + wrong, c);
    BitsConcat(RESET_FS20, HEAD + a, wrong);
    BitsConcat(RESET_FS20, HEAD, a);
    HeadHeard();
    GroupsHeard(SYNCED, bytes[..g]);
    GroupIsEven(bytes[g]);
    OddTurned(b, i);
    GroupHeard(d, wrong);
  }

  /** How many bits the decoder must at least have heard to be in a state. */
  function Weight(d: Fs20): nat {
    9 * |d.data| + |d.bits| + if d.syncFound then 1 else 0
  }

  predicate Tidy(d: Fs20) { |d.bits| < 9 && (!d.syncFound ==> d.data == [] && d.bits == []) }

  lemma OneBitWeighsOne(d: Fs20, bit: bool)
    requires Tidy(d)
    ensures Tidy(Fs20Bit(d, bit)) && Weight(Fs20Bit(d, bit)) <= Weight(d) + 1
  {
  }

  lemma {:induction false} WeightFrom(d: Fs20, bits: seq<bool>)
    requires Tidy(d)
    ensures Tidy(Fs20Bits(d, bits)) && Weight(Fs20Bits(d, bits)) <= Weight(d) + |bits|
    decreases |bits|
  {
    if bits != [] {
      WeightFrom(d, bits[..|bits| - 1]);
      OneBitWeighsOne(Fs20Bits(d, bits[..|bits| - 1]), bits[|bits| - 1]);
    }
  }

  /** A byte costs nine bits, and finding the synchronisation another one. */
  lemma WeightOfBits(bits: seq<bool>)
    ensures Tidy(Fs20Bits(RESET_FS20, bits)) && Weight(Fs20Bits(RESET_FS20, bits)) <= |bits|
  {
    WeightFrom(RESET_FS20, bits);
  }

  // ----- FS20: where the detection ends

  lemma {:induction false} OddConcat(a: seq<bool>, b: seq<bool>)
    ensures Odd(a + b) == (Odd(a) != Odd(b))
    decreases |b|
  {
    if b == [] {
      assert a + b == a;
    } else {
      OddConcat(a, b[..|b| - 1]);
      FrontOfConcat(a, b);
    }
  }

  lemma OddOne(b: bool)
    ensures Odd([b]) == b
  {
    assert [b][..0] == [];
  }

  lemma FrontOfZeros(n: nat)
    requires n > 0
    ensures Zeros(n)[..n - 1] == Zeros(n - 1) && !Zeros(n)[n - 1]
  {
  }

  lemma {:induction false} OddZeros(n: nat)
    ensures !Odd(Zeros(n))
  {
    if n > 0 {
      OddZeros(n - 1);
      FrontOfZeros(n);
    }
  }

  lemma GroupOf80()
    ensures Group(0x80) == ([true] + Zeros(7)) + [true]
  {
    assert BitsOf(0x80, 8) == [true] + Zeros(7) by {
      assert BitsOf(0x80, 8) == [true, false, false, false, false, false, false, false];
    }
    OddConcat([true], Zeros(7));
    OddOne(true);
    OddZeros(7);
  }

  lemma EvenAround(r: nat)
    requires r <= 7
    ensures !Odd((Zeros(r) + [true]) + ([true] + Zeros(7 - r)))
  {
    OddConcat(Zeros(r) + [true], [true] + Zeros(7 - r));
    OddConcat(Zeros(r), [true]);
    OddConcat([true], Zeros(7 - r));
    OddOne(true);
    OddZeros(r);
    OddZeros(7 - r);
  }

  /** `r` zeros and a one collected: the decoder is out of step by `r + 1` bits. */
  predicate OutOfStep(d: Fs20, r: nat) { d.syncFound && d.bits == Zeros(r) + [true] }

  lemma FallsIn(d: Fs20, r: nat)
    requires r <= 7 && OutOfStep(d, r)
    ensures var e := Fs20Bits(d, [true] + Zeros(7 - r));
      e.syncFound && e.bits == [] && |e.data| == |d.data| + if |d.data| < 16 then 1 else 0
  {
    Completes(d, [true] + Zeros(7 - r));
    EvenAround(r);
  }

  lemma FallsOut(d: Fs20, r: nat)
    requires r <= 7 && d.syncFound && d.bits == []
    ensures Fs20Bits(d, Zeros(r) + [true]) == d.(bits := Zeros(r) + [true])
  {
    Collect(d, Zeros(r) + [true]);
    assert [] + (Zeros(r) + [true]) == Zeros(r) + [true];
  }

  lemma GroupInTwo(r: nat)
    requires r <= 7
    ensures Group(0x80) == ([true] + Zeros(7 - r)) + (Zeros(r) + [true])
  {
    GroupOf80();
  }

  /** A byte 0x80 leaves a decoder as much out of step as it was, and is taken for some byte. */
  lemma StaysOut(d: Fs20, r: nat)
    requires r <= 7 && OutOfStep(d, r)
    ensures var e := Fs20Bits(d, Group(0x80)); OutOfStep(e, r) && |e.data| == |d.data| + if |d.data| < 16 then 1 else 0
  {
    var a, b := [true] + Zeros(7 - r), Zeros(r) + [true];
    GroupInTwo(r);
    BitsConcat(d, a, b);
    FallsIn(d, r);
    FallsOut(Fs20Bits(d, a), r);
  }

  function Many80(m: nat): (bytes: seq<byte>)
    ensures |bytes| == m
  {
    seq(m, _ => 0x80)
  }

  lemma MoreOf80(m: nat)
    requires m > 0
    ensures Groups(Many80(m)) == Groups(Many80(m - 1)) + Group(0x80)
  {
    assert Many80(m)[..m - 1] == Many80(m - 1);
  }

  lemma {:induction false} AllTaken(d: Fs20, r: nat, m: nat)
    requires r <= 7 && OutOfStep(d, r) && |d.data| <= 16
    ensures var e := Fs20Bits(d, Groups(Many80(m))); OutOfStep(e, r) && |e.data| == Min(|d.data| + m, 16)
    decreases m
  {
    if m > 0 {
      AllTaken(d, r, m - 1);
      MoreOf80(m);
      BitsConcat(d, Groups(Many80(m - 1)), Group(0x80));
      StaysOut(Fs20Bits(d, Groups(Many80(m - 1))), r);
    }
  }

  lemma GroupsOfOne(b: byte)
    ensures Groups([b]) == Group(b)
  {
    assert [b][..0] == [] && Groups([]) + Group(b) == Group(b);
  }

  lemma SyncsIn80()
    ensures OutOfStep(Fs20Bits(RESET_FS20, Group(0x80)), 7) && Fs20Bits(RESET_FS20, Group(0x80)).data == []
  {
    var b := Zeros(7) + [true];
    GroupOf80();
    assert Group(0x80) == [true] + b && [true][..0] == [];
    BitsConcat(RESET_FS20, [true], b);
    Collect(SYNCED, b);
    assert [] + b == b;
  }

  /** A decoder that waits for a synchronisation takes the first bit of the first 0x80 for one. */
  lemma {:induction false} TakenFromReset(m: nat)
    requires m > 0
    ensures |Fs20Bits(RESET_FS20, Groups(Many80(m))).data| == Min(m - 1, 16)
    ensures OutOfStep(Fs20Bits(RESET_FS20, Groups(Many80(m))), 7)
    decreases m
  {
    MoreOf80(m);
    var rest := Groups(Many80(m - 1));
    BitsConcat(RESET_FS20, rest, Group(0x80));
    if m == 1 {
      assert rest == [];
      SyncsIn80();
    } else {
      TakenFromReset(m - 1);
      StaysOut(Fs20Bits(RESET_FS20, rest), 7);
    }
  }

  // ----- FS20: a wrong symbol in front of the bytes

  lemma TurnedHead(bytes: seq<byte>, k: nat)
    requires k < 25
    ensures Turned(bytes, k) == TurnOne(HEAD, k) + Groups(bytes)
  {
  }

  /** The sync bit is turned: the decoder waits for another. */
  lemma NoSync(bytes: seq<byte>)
    ensures Fs20Bits(RESET_FS20, Turned(bytes, 24)) == Fs20Bits(RESET_FS20, Groups(bytes))
  {
    TurnedHead(bytes, 24);
    assert TurnOne(HEAD, 24) == Zeros(25);
    ZerosHeard(25);
    BitsConcat(RESET_FS20, Zeros(25), Groups(bytes));
  }

  lemma NineZeros(d: Fs20, r: nat)
    requires d.syncFound && r < 9 && d.bits == Zeros(r) && |d.data| < 16
    ensures var e := Fs20Bits(d, Zeros(9)); e.syncFound && e.bits == Zeros(r) && |e.data| == |d.data| + 1
  {
    var a, b := Zeros(9 - r), Zeros(r);
    assert Zeros(9) == a + b;
    BitsConcat(d, a, b);
    Completes(d, a);
    assert d.bits + a == Zeros(9);
    OddZeros(9);
    Collect(EndGroup(d, Zeros(9)), b);
    assert [] + b == b;
  }

  /** Zeros are heard as bytes, every nine of them. */
  lemma {:induction false} ZerosTaken(q: nat, r: nat)
    requires q <= 16 && r < 9
    ensures var d := Fs20Bits(SYNCED, Zeros(9 * q + r)); d.syncFound && |d.data| == q && d.bits == Zeros(r)
    decreases q
  {
    var n := 9 * q + r;
    if q == 0 {
      Collect(SYNCED, Zeros(n));
      assert [] + Zeros(n) == Zeros(n);
    } else {
      ZerosTaken(q - 1, r);
      assert Zeros(n) == Zeros(n - 9) + Zeros(9);
      BitsConcat(SYNCED, Zeros(n - 9), Zeros(9));
      NineZeros(Fs20Bits(SYNCED, Zeros(n - 9)), r);
    }
  }

  /** A turned preamble symbol is taken for the sync bit: what the decoder holds when the bytes begin. */
  function EarlySync(k: nat): Fs20
    requires k < 24
  {
    Fs20Bits(SYNCED, Zeros(23 - k) + [true])
  }

  lemma EarlySyncHeard(bytes: seq<byte>, k: nat)
    requires k < 24
    ensures Fs20Bits(RESET_FS20, Turned(bytes, k)) == Fs20Bits(EarlySync(k), Groups(bytes))
  {
    var a, b := Zeros(k) + [true], Zeros(23 - k) + [true];
    TurnedHead(bytes, k);
    assert TurnOne(HEAD, k) == a + b;
    BitsConcat(RESET_FS20, a + b, Groups(bytes));
    BitsConcat(RESET_FS20, a, b);
    BitsConcat(RESET_FS20, Zeros(k), [true]);
    ZerosHeard(k);
    assert [true][..0] == [];
    assert Fs20Bits(RESET_FS20, [true]) == SYNCED;
  }

  /** The true sync bit ends a group of the zeros before it, which is wrong then, or is collected. */
  lemma EarlySyncIs(k: nat, q: nat, r: nat)
    requires k < 24 && r < 9 && 23 - k == 9 * q + r
    ensures if r == 8 then EarlySync(k) == RESET_FS20 else OutOfStep(EarlySync(k), r) && |EarlySync(k).data| == q
  {
    var d := Fs20Bits(SYNCED, Zeros(23 - k));
    ZerosTaken(q, r);
    BitsConcat(SYNCED, Zeros(23 - k), [true]);
    if r == 8 {
      Completes(d, [true]);
      OddConcat(Zeros(8), [true]);
      OddZeros(8);
      OddOne(true);
    } else {
      Collect(d, [true]);
    }
  }

  /** How many groups there are between an early sync bit and the true one. */
  lemma Between(k: nat) returns (q: nat, r: nat)
    requires k < 24
    ensures r < 9 && 23 - k == 9 * q + r
    ensures r == 8 <==> (24 - k) % 9 == 0
    ensures r < 8 ==> (24 - k) / 9 == q
  {
    q, r := (23 - k) / 9, (23 - k) % 9;
  }

  // ----- FS20: which errors are caught

  const QUIET: Task := Task(RESET_FS20, RESET_IT1, RESET_IT3)

  lemma {:induction false} ExactBits(bits: seq<bool>)
    ensures Jitter20(BitsPulses(bits), BitsPulses(bits))
    decreases |bits|
  {
    if bits != [] {
      ExactBits(bits[..|bits| - 1]);
    }
  }

  /** The number of bytes a decoder holds at the end of a frame with the `k`th symbol turned. */
  function Held(bytes: seq<byte>, k: nat): nat
    requires k < 25 + 9 * |bytes|
  {
    |Fs20Bits(RESET_FS20, Turned(bytes, k)).data|
  }

  /** No frame of `n` bytes is ever reported when its `k`th symbol has been turned. */
  ghost predicate Caught(n: nat, k: nat)
    requires k < 25 + 9 * n
  {
    forall t: Task, bytes, got |
        t.fs == RESET_FS20 && |bytes| == n && Jitter20(Signal(Turned(bytes, k)), got) ::
      Only20(Run(t, got).reports) == []
  }

  /** The error leaves the decoder too few bits for four bytes. */
  predicate TooFewLeft(n: nat, k: nat) {
    if k >= 25 then n <= 5 + (k - 25) / 9
    else if (24 - k) % 9 == 0 then n <= 4
    else n + (24 - k) / 9 <= 3
  }

  /** The group and the place in it of a symbol behind the sync bit. */
  lemma InGroup(k: nat) returns (g: nat, i: nat)
    requires k >= 25
    ensures i < 9 && k == 25 + 9 * g + i && (k - 25) / 9 == g
  {
    g, i := (k - 25) / 9, (k - 25) % 9;
  }

  /** At most so many bytes, whatever the bytes of the frame ... */
  lemma AtMost(bytes: seq<byte>, k: nat)
    requires k < 25 + 9 * |bytes| && TooFewLeft(|bytes|, k)
    ensures Held(bytes, k) <= 3
  {
    if k >= 25 {
      var g, i := InGroup(k);
      TurnedResets(bytes, g, i, k, bytes[g + 1..]);
      WeightOfBits(Groups(bytes[g + 1..]));
    } else if k == 24 {
      NoSync(bytes);
      WeightOfBits(Groups(bytes));
    } else {
      var q, r := Between(k);
      EarlySyncHeard(bytes, k);
      EarlySyncIs(k, q, r);
      WeightFrom(EarlySync(k), Groups(bytes));
    }
  }

  lemma AtLeastAfter(n: nat, g: nat, i: nat)
    requires i < 9 && g + 5 < n
    ensures Held(Many80(n), 25 + 9 * g + i) >= 4
  {
    assert Many80(n)[g + 1..] == Many80(n - g - 1);
    TurnedResets(Many80(n), g, i, 25 + 9 * g + i, Many80(n - g - 1));
    TakenFromReset(n - g - 1);
  }

  lemma AtLeastEarly(n: nat, k: nat)
    requires k < 24 && !TooFewLeft(n, k)
    ensures Held(Many80(n), k) >= 4
  {
    var q, r := Between(k);
    EarlySyncHeard(Many80(n), k);
    EarlySyncIs(k, q, r);
    if r == 8 { TakenFromReset(n); } else { AllTaken(EarlySync(k), r, n); }
  }

  /** ... and with bytes 0x80 as many as that. */
  lemma AtLeast(n: nat, k: nat)
    requires k < 25 + 9 * n && !TooFewLeft(n, k)
    ensures Held(Many80(n), k) >= 4
  {
    if k >= 25 {
      var g, i := InGroup(k);
      AtLeastAfter(n, g, i);
    } else if k == 24 {
      NoSync(Many80(n));
      TakenFromReset(n);
    } else {
      AtLeastEarly(n, k);
    }
  }

  /** Exactly where a frame of `n` bytes can have a wrong symbol without ever being reported. */
  lemma CaughtIff(n: nat, k: nat)
    requires k < 25 + 9 * n
    ensures Caught(n, k) <==> TooFewLeft(n, k)
  {
    if TooFewLeft(n, k) {
      forall t: Task, bytes, got |
          t.fs == RESET_FS20 && |bytes| == n && Jitter20(Signal(Turned(bytes, k)), got)
        ensures Only20(Run(t, got).reports) == []
      {
        AtMost(bytes, k);
        SignalHeard(t, Turned(bytes, k), got);
      }
    } else {
      NotCaught(n, k);
    }
  }

  lemma NotCaught(n: nat, k: nat)
    requires k < 25 + 9 * n && !TooFewLeft(n, k)
    ensures !Caught(n, k)
  {
    var bits := Turned(Many80(n), k);
    var got := Signal(bits);
    SignalParts(bits);
    ExactBits(bits);
    assert Jitter20(got, got);
    SignalHeard(QUIET, bits, got);
    AtLeast(n, k);
  }

  /** A wrong symbol among the bytes and their parities is always caught exactly in frames of at most five bytes. */
  lemma ByteErrorsAreCaughtIff(n: nat)
    ensures (forall k | 25 <= k < 25 + 9 * n :: Caught(n, k)) <==> n <= 5
  {
    if n <= 5 {
      forall k | 25 <= k < 25 + 9 * n ensures Caught(n, k) { CaughtIff(n, k); }
    } else {
      CaughtIff(n, 25);
    }
  }

  /** A wrong symbol anywhere is always caught exactly in frames of at most one byte. */
  lemma AllErrorsAreCaughtIff(n: nat)
    ensures (forall k | 0 <= k < 25 + 9 * n :: Caught(n, k)) <==> n <= 1
  {
    if n <= 1 {
      forall k | 0 <= k < 25 + 9 * n ensures Caught(n, k) { CaughtIff(n, k); }
    } else {
      CaughtIff(n, 0);
    }
  }

  /** In the frames of five bytes that are in use, exactly the errors in front of the bytes can go unnoticed. */
  lemma FiveBytes(k: nat)
    requires k < 70
    ensures Caught(5, k) <==> k >= 25
  {
    CaughtIff(5, k);
  }
}
