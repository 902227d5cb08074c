/**
 FS20 signals and the Intertechno decoders: the V3 decoder never takes one for
 its own, the V1 decoder exactly if there are long enough pulses and bytes.
 */
module RfFs20Alone {
  import opened Common
  import opened SlowRf
  import opened RfSender
  import opened RfRoundTrip
  import opened RfIntertechno
  import opened RfMistaken
  import opened RfV3AsFs20

  // ----- the pulses of a signal

  lemma {:induction false} PulsesAt(bits: seq<bool>, k: nat)
    requires k < |bits|
    ensures BitsPulses(bits)[2 * k] == BitsPulses(bits)[2 * k + 1] == if bits[k] then ONE20 else ZERO20
    decreases |bits|
  {
    var n := |bits| - 1;
    if k < n { PulsesAt(bits[..n], k); }
  }

  function FrontBits(bytes: seq<byte>): (bits: seq<bool>)
    ensures |bits| == 25 + 9 * |bytes|
  {
    HEAD + Groups(bytes)
  }

  lemma PartsOf20(bytes: seq<byte>)
    ensures Frame20(bytes) == BitsPulses(FrontBits(bytes)) + [400, 10400]
  {
    SignalParts(FrontBits(bytes));
  }

  predicate HalvesUpTo(hi: nat, got: seq<nat>) { forall i :: 0 <= i < |got| - 1 ==> got[i] <= hi }

  /** The pulses before the pause, and what is known of them. */
  ghost predicate Body20(bytes: seq<byte>, got: seq<nat>, body: seq<nat>) {
    && |body| == 51 + 18 * |bytes| && |got| == |body| + 1
    && got == body + [got[|body|]] && Gap(got[|body|])
    && (forall i :: 0 <= i < |body| ==> body[i] == got[i] && 250 <= body[i] <= 900)
    && (forall i :: 0 <= i < 48 ==> HalfZero(body[i]))
  }

  lemma PreambleAt(bytes: seq<byte>, i: nat)
    requires i < 48
    ensures BitsPulses(FrontBits(bytes))[i] == ZERO20
  {
    var k := i / 2;
    assert FrontBits(bytes)[k] == HEAD[k] == false;
    PulsesAt(FrontBits(bytes), k);
  }

  lemma CutFrame20(bytes: seq<byte>, got: seq<nat>) returns (body: seq<nat>)
    requires Jitter20(Frame20(bytes), got)
    ensures Body20(bytes, got, body)
  {
    var sent := BitsPulses(FrontBits(bytes));
    PartsOf20(bytes);
    SignalCut(sent, got, |sent|);
    body := got[..|sent| + 1];
    forall i | 0 <= i < |body| ensures 250 <= body[i] <= 900 && (i < 48 ==> HalfZero(body[i])) {
      if i < |sent| {
        PulsesAt(FrontBits(bytes), i / 2);
        assert Near20(sent[i], got[..|sent|][i]);
        if i < 48 { PreambleAt(bytes, i); }
      }
    }
  }

  // ----- the V3 decoder

  /** The first four pulses of the preamble end a V3 frame. */
  lemma PreambleEndsV3(d: It3, body: seq<nat>)
    requires d.s == "" && d.pulses == [] && |body| >= 4 && forall i :: 0 <= i < 4 ==> HalfZero(body[i])
    ensures It3Pulses(d, body).s == ""
  {
    var a, b := body[..4], body[4..];
    assert body == a + b;
    It3Concat(d, a, b);
    if d.syncFound {
      FourPulses3("", a);
    } else {
      DeafHears(d, a);
    }
    DeafHears(It3Pulses(d, a), b);
  }

  /** No FS20 signal is reported as a V3 word. */
  lemma Fs20IsNotV3(t: Task, bytes: seq<byte>, got: seq<nat>)
    requires Idle(t) && Jitter20(Frame20(bytes), got)
    ensures Only3(Run(t, got).reports) == []
  {
    var body := CutFrame20(bytes, got);
    PreambleEndsV3(t.it3, body);
    NoGapIn20(bytes, got, body);
    OnlyToGap(t, body, got[|body|]);
  }

  lemma NoGapIn20(bytes: seq<byte>, got: seq<nat>, body: seq<nat>)
    requires Body20(bytes, got, body)
    ensures NoGap(body)
  {
  }

  // ----- the V1 decoder

  /** How much the V1 decoder has of its symbols. */
  function Weight1(d: It1): nat { 4 * |d.s| + |d.recent| }

  lemma {:induction false} FourForOne1(d: It1, p: seq<nat>)
    requires |d.recent| <= 4
    ensures |It1Pulses(d, p).recent| <= 4 && Weight1(It1Pulses(d, p)) <= Weight1(d) + |p|
    decreases |p|
  {
    if p != [] { FourForOne1(d, p[..|p| - 1]); }
  }

  /** Behind the preamble there are at most 39 pulses, too few for twelve symbols. */
  lemma TwoBytesAreTooShort(body: seq<nat>)
    requires 48 <= |body| <= 87 && AllShort1(body[..48])
    ensures |It1Pulses(RESET_IT1, body).s| < 12
  {
    var a, b := body[..48], body[48..];
    assert body == a + b;
    It1Concat(RESET_IT1, a, b);
    ShortPulsesAreNoSymbols(a);
    FourForOne1(It1Pulses(RESET_IT1, a), b);
  }

  lemma Fs20IsNotV1(t: Task, bytes: seq<byte>, got: seq<nat>)
    requires Idle(t) && Jitter20(Frame20(bytes), got) && (HalvesUpTo(800, got) || |bytes| <= 2)
    ensures Only1(Run(t, got).reports) == []
  {
    var body := CutFrame20(bytes, got);
    if |bytes| <= 2 {
      TwoBytesAreTooShort(body);
    } else {
      ShortPulsesAreNoSymbols(body);
    }
    NoGapIn20(bytes, got, body);
    OnlyToGap(t, body, got[|body|]);
  }

  /** No FS20 signal of `n` bytes with halves of at most `hi` is reported as a V1 word. */
  ghost predicate NeverV1From20(hi: nat, n: nat) {
    forall t, bytes, got | Idle(t) && |bytes| == n && Jitter20(Frame20(bytes), got) && HalvesUpTo(hi, got) ::
      Only1(Run(t, got).reports) == []
  }

  /** Bits of which every second one is a one. */
  function Ladder(others: seq<bool>): (bits: seq<bool>)
    ensures |bits| == 2 * |others|
  {
    if others == [] then [] else Ladder(others[..|others| - 1]) + [others[|others| - 1]] + [true]
  }

  function Half(bit: bool): nat { if bit then ONE20 else ZERO20 }

  /** Their pulses, those ones with halves of 801. */
  function LadderPulses(others: seq<bool>): (p: seq<nat>)
    ensures |p| == 4 * |others|
  {
    if others == [] then []
    else
      var h := Half(others[|others| - 1]);
      LadderPulses(others[..|others| - 1]) + [h, h, 801, 801]
  }

  /** Pulses of bits: halves of a one may be 801. */
  predicate Stretched(sent: seq<nat>, got: seq<nat>) {
    |sent| == |got| && forall i :: 0 <= i < |sent| ==> got[i] == sent[i] || (sent[i] == 600 && got[i] == 801)
  }

  lemma JoinStretched(a: seq<nat>, b: seq<nat>, x: seq<nat>, y: seq<nat>)
    requires Stretched(a, x) && Stretched(b, y)
    ensures Stretched(a + b, x + y)
  {
  }

  lemma StepNear(bit: bool)
    ensures Stretched(BitPulses(bit) + BitPulses(true), [Half(bit), Half(bit), 801, 801])
  {
  }

  lemma TwoBits(front: seq<bool>, a: bool, b: bool)
    ensures BitsPulses(front + [a] + [b]) == BitsPulses(front) + (BitPulses(a) + BitPulses(b))
  {
    BitsSnoc(front, a);
    BitsSnoc(front + [a], b);
  }

  lemma {:induction false} LadderNear(others: seq<bool>)
    ensures Stretched(BitsPulses(Ladder(others)), LadderPulses(others))
    decreases |others|
  {
    if others != [] {
      var n := |others| - 1;
      var front, bit := Ladder(others[..n]), others[n];
      LadderNear(others[..n]);
      TwoBits(front, bit, true);
      StepNear(bit);
      JoinStretched(BitsPulses(front), BitPulses(bit) + BitPulses(true),
                    LadderPulses(others[..n]), [Half(bit), Half(bit), 801, 801]);
    }
  }

  /** The next short pulse completes the `n`th symbol F. */
  ghost predicate Expects(d: It1, n: nat) {
    forall x | Short1(x) :: It1Pulse(d, x) == It1(Fs(n), [])
  }

  function Fs(n: nat): (w: string)
    ensures |w| == n
  {
    seq(n, _ => 'F')
  }

  lemma FourMore(d: It1, a: nat, b: nat, x: nat, y: nat)
    ensures It1Pulses(d, [a, b, x, y]) == It1Pulse(It1Pulse(It1Pulse(It1Pulse(d, a), b), x), y)
  {
    ThreePulses1(d, a, b, x);
    PulseSnoc1(d, [a, b, x], y);
    assert [a, b, x, y] == [a, b, x] + [y];
  }

  lemma FirstStep(w: seq<nat>, h: nat)
    requires AllShort1(w) && |w| == 4 && Short1(h)
    ensures Expects(It1Pulses(It1("", w), [h, h, 801, 801]), 1)
  {
    var d := It1("", w);
    FourMore(d, h, h, 801, 801);
    assert It1Pulse(d, h) == It1("", [w[1], w[2], w[3], h]);
    assert It1Pulse(It1Pulse(d, h), h) == It1("", [w[2], w[3], h, h]);
    assert It1Pulse(It1("", [w[2], w[3], h, h]), 801) == It1("", [w[3], h, h, 801]);
    assert It1Pulse(It1("", [w[3], h, h, 801]), 801) == It1("", [h, h, 801, 801]);
    forall x | Short1(x) ensures It1Pulse(It1("", [h, h, 801, 801]), x) == It1(Fs(1), []) {
      assert Slide([h, h, 801, 801], x) == [h, 801, 801, x];
      assert "" + ['F'] == Fs(1);
    }
  }

  lemma NextStep(d: It1, n: nat, h: nat)
    requires Expects(d, n) && 1 <= n < 12 && Short1(h)
    ensures Expects(It1Pulses(d, [h, h, 801, 801]), n + 1)
  {
    FourMore(d, h, h, 801, 801);
    StartPulse1(Fs(n), [], h);
    StartPulse1(Fs(n), [h], 801);
    StartPulse1(Fs(n), [h, 801], 801);
    assert [] + [h] == [h] && [h] + [801] == [h, 801] && [h, 801] + [801] == [h, 801, 801];
    forall x | Short1(x) ensures It1Pulse(It1(Fs(n), [h, 801, 801]), x) == It1(Fs(n + 1), []) {
      LastPulse1(Fs(n), [h, 801, 801], x, [h, 801, 801, x]);
      assert Fs(n) + ['F'] == Fs(n + 1);
    }
  }

  /** Behind short pulses every step of the ladder is a symbol F, one pulse late. */
  lemma {:induction false} LadderHeard(front: seq<nat>, others: seq<bool>)
    requires AllShort1(front) && |front| >= 4 && 1 <= |others| <= 12
    ensures Expects(It1Pulses(RESET_IT1, front + LadderPulses(others)), |others|)
    decreases |others|
  {
    var n := |others| - 1;
    var before, h := LadderPulses(others[..n]), Half(others[n]);
    assert front + LadderPulses(others) == (front + before) + [h, h, 801, 801];
    It1Concat(RESET_IT1, front + before, [h, h, 801, 801]);
    if n == 0 {
      ShortPulsesAreNoSymbols(front);
      assert front + before == front;
      FirstStep(It1Pulses(RESET_IT1, front).recent, h);
    } else {
      LadderHeard(front, others[..n]);
      NextStep(It1Pulses(RESET_IT1, front + before), n, h);
    }
  }

  /** Three bytes that end in a ladder of twelve steps. */
  function ThreeBytes(n: nat): (bytes: seq<byte>)
    requires n >= 3
    ensures |bytes| == n
  {
    seq(n - 3, _ => 0) + [0xEA] + [0x55] + [0xEA]
  }

  const THREE: seq<bool> := [false, false, false]
  const STEPS: seq<bool> := THREE + [false, false, false] + [false, false, true] + [false, false, false]

  /** The bits before the ladder. */
  function BeforeLadder(n: nat): (bits: seq<bool>)
    requires n >= 3
    ensures |bits| == 28 + 9 * (n - 3)
  {
    HEAD + Groups(seq(n - 3, _ => 0)) + [true, true, true]
  }

  lemma BitsOfEA()
    ensures BitsOf(0xEA, 8) == [true, true, true, false, true, false, true, false] && Odd(BitsOf(0xEA, 8)) == true
  {
    NextBit(0, 0, true);
    NextBit(1, 1, true);
    NextBit(3, 2, true);
    NextBit(7, 3, false);
    NextBit(14, 4, true);
    NextBit(29, 5, false);
    NextBit(58, 6, true);
    NextBit(117, 7, false);
  }

  lemma GroupEA()
    ensures Group(0xEA) == [true, true, true, false, true, false, true, false, true]
  {
    BitsOfEA();
  }

  lemma LadderSnoc(others: seq<bool>, bit: bool)
    ensures Ladder(others + [bit]) == Ladder(others) + [bit] + [true]
  {
    assert (others + [bit])[..|others|] == others;
  }

  lemma LadderThree(others: seq<bool>, a: bool, b: bool, c: bool, all: seq<bool>)
    requires all == others + [a, b, c]
    ensures Ladder(all) == Ladder(others) + [a, true, b, true, c, true]
  {
    var one, two := others + [a], others + [a] + [b];
    LadderSnoc(others, a);
    LadderSnoc(one, b);
    LadderSnoc(two, c);
    assert all == two + [c];
    Six(Ladder(others), a, b, c);
  }

  lemma Six(l: seq<bool>, a: bool, b: bool, c: bool)
    ensures (((((l + [a]) + [true]) + [b]) + [true]) + [c]) + [true] == l + [a, true, b, true, c, true]
  {
  }

  lemma LadderOfSteps()
    ensures Ladder(STEPS) == [false, true, false, true, false, true] + [false, true, false, true, false, true]
                           + [false, true, false, true, true, true] + [false, true, false, true, false, true]
  {
    var two := THREE + [false, false, false];
    var three := two + [false, false, true];
    LadderThree([], false, false, false, THREE);
    LadderThree(THREE, false, false, false, two);
    LadderThree(two, false, false, true, three);
    LadderThree(three, false, false, false, STEPS);
  }

  lemma LadderOfGroups()
    ensures [true, true, true] + Ladder(STEPS) == Group(0xEA) + Group(0x55) + Group(0xEA)
  {
    GroupEA();
    Group55();
    LadderOfSteps();
  }

  lemma LadderAtEnd(n: nat)
    requires n >= 3
    ensures FrontBits(ThreeBytes(n)) == BeforeLadder(n) + Ladder(STEPS)
  {
    var front: seq<byte> := seq(n - 3, _ => 0);
    GroupsSnoc(front, 0xEA);
    GroupsSnoc(front + [0xEA], 0x55);
    GroupsSnoc(front + [0xEA] + [0x55], 0xEA);
    LadderOfGroups();
    Regroup(HEAD, Groups(front), Group(0xEA), Group(0x55), [true, true, true], Ladder(STEPS));
  }

  lemma Regroup(x: seq<bool>, y: seq<bool>, a: seq<bool>, b: seq<bool>, t: seq<bool>, l: seq<bool>)
    requires t + l == a + b + a
    ensures x + (y + a + b + a) == (x + y + t) + l
  {
    assert (x + y + t) + l == (x + y) + (t + l);
    assert x + (y + a + b + a) == (x + y) + (a + b + a);
  }

  /** The signal of these bytes with the ladder's ones at 801. */
  function Confused(n: nat): seq<nat>
    requires n >= 3
  {
    BitsPulses(BeforeLadder(n)) + LadderPulses(STEPS) + [400]
  }

  lemma ExactPulse(bits: seq<bool>, i: nat)
    requires i < 2 * |bits|
    ensures BitsPulses(bits)[i] == 400 || BitsPulses(bits)[i] == 600
  {
    PulsesAt(bits, i / 2);
  }

  lemma ExactShort(bits: seq<bool>)
    ensures AllShort1(BitsPulses(bits)) && Stretched(BitsPulses(bits), BitsPulses(bits))
  {
    forall i | 0 <= i < 2 * |bits| ensures Short1(BitsPulses(bits)[i]) { ExactPulse(bits, i); }
  }

  lemma StretchedIsNear(bits: seq<bool>, p: seq<nat>)
    requires Stretched(BitsPulses(bits), p)
    ensures Jitter20(BitsPulses(bits) + [400, 10400], p + [400] + [10400])
    ensures HalvesUpTo(801, p + [400] + [10400]) && NoGap(p + [400])
  {
    var sent, got := BitsPulses(bits), p + [400] + [10400];
    forall i | 0 <= i < |sent| ensures Near20(sent[i], p[i]) && p[i] <= 801 { ExactPulse(bits, i); }
  }

  lemma ConfusedNear(n: nat)
    requires n >= 3
    ensures Jitter20(Frame20(ThreeBytes(n)), Confused(n) + [10400])
    ensures HalvesUpTo(801, Confused(n) + [10400]) && NoGap(Confused(n))
  {
    var front := BeforeLadder(n);
    PartsOf20(ThreeBytes(n));
    LadderAtEnd(n);
    BitsPulsesConcat(front, Ladder(STEPS));
    ExactShort(front);
    LadderNear(STEPS);
    JoinStretched(BitsPulses(front), BitsPulses(Ladder(STEPS)), BitsPulses(front), LadderPulses(STEPS));
    StretchedIsNear(front + Ladder(STEPS), BitsPulses(front) + LadderPulses(STEPS));
  }

  /** Halves of a one may be long to the V1 decoder: three bytes are enough for a word of twelve symbols. */
  lemma Fs20TakenForV1(t: Task, n: nat)
    requires Idle(t) && n >= 3
    ensures var bytes, got := ThreeBytes(n), Confused(n) + [10400];
      && Jitter20(Frame20(bytes), got) && HalvesUpTo(801, got)
      && Only1(Run(t, got).reports) == [Fs(12)]
  {
    var front := BitsPulses(BeforeLadder(n));
    ConfusedNear(n);
    ExactShort(BeforeLadder(n));
    LadderHeard(front, STEPS);
    PulseSnoc1(RESET_IT1, front + LadderPulses(STEPS), 400);
    assert It1Pulses(t.it1, Confused(n)) == It1(Fs(12), []);
    OnlyToGap(t, Confused(n), 10400);
  }

  /** FS20 is safe from being taken for V1 exactly if its halves are at most 800, or there are at most two bytes. */
  lemma NeverV1From20Iff(hi: nat, n: nat)
    ensures NeverV1From20(hi, n) <==> hi <= 800 || n <= 2
  {
    if hi <= 800 || n <= 2 {
      forall t, bytes, got | Idle(t) && |bytes| == n && Jitter20(Frame20(bytes), got) && HalvesUpTo(hi, got)
        ensures Only1(Run(t, got).reports) == []
      {
        Fs20IsNotV1(t, bytes, got);
      }
    } else {
      var t := Task(RESET_FS20, RESET_IT1, RESET_IT3);
      Fs20TakenForV1(t, n);
      assert Idle(t) && HalvesUpTo(hi, Confused(n) + [10400]);
      assert Only1(Run(t, Confused(n) + [10400]).reports) != [];
    }
  }

  // ----- what is reported of a signal

  lemma {:induction false} Only20These(r: seq<Report>)
    requires Only1(r) == [] && Only3(r) == []
    ensures Only20(r) == [] ==> r == []
    ensures forall data :: Only20(r) == [data] ==> r == [FS20(data)]
    decreases |r|
  {
    if r != [] {
      assert !r[0].ITV1? && !r[0].ITV3?;
      assert Only20(r) == [r[0].data] + Only20(r[1..]);
      assert Only20(r)[0] == r[0].data && Only20(r)[1..] == Only20(r[1..]);
      Only20These(r[1..]);
    }
  }

  function Reported(bytes: seq<byte>): seq<Report> {
    if |bytes| >= 4 then [FS20(Kept(bytes))] else []
  }

  /** A signal with halves of at most 800 is reported once, as itself, and as nothing else. */
  lemma Fs20Alone(t: Task, bytes: seq<byte>, got: seq<nat>)
    requires Idle(t) && Heard20(bytes, got)
    ensures Run(t, got).reports == Reported(bytes)
    ensures Idle(Run(t, got).task)
  {
    Fs20RoundTrip(t, bytes, got);
    Fs20IsNotV1(t, bytes, got);
    Fs20IsNotV3(t, bytes, got);
    Only20These(Run(t, got).reports);
  }

  /** What may be received of a signal, if the V1 decoder is to be left out of it. */
  predicate Heard20(bytes: seq<byte>, got: seq<nat>) {
    Jitter20(Frame20(bytes), got) && (HalvesUpTo(800, got) || |bytes| <= 2)
  }

  lemma OneMoreAlone(t: Task, front: seq<nat>, bytes: seq<byte>, got: seq<nat>)
    requires Idle(Run(t, front).task) && Heard20(bytes, got)
    ensures Run(t, front + got).reports == Run(t, front).reports + Reported(bytes)
    ensures Idle(Run(t, front + got).task)
  {
    Fs20Alone(Run(t, front).task, bytes, got);
    RunConcat(t, front, got);
  }

  /** So are all its repetitions, although the pause before each makes the V3 decoder listen. */
  lemma {:induction false} Fs20AloneRepeated(t: Task, bytes: seq<byte>, gots: seq<seq<nat>>)
    requires Idle(t) && forall i :: 0 <= i < |gots| ==> Heard20(bytes, gots[i])
    ensures Run(t, Concat(gots)).reports == Repeat(Reported(bytes), |gots|)
    ensures Idle(Run(t, Concat(gots)).task)
    decreases |gots|
  {
    if gots != [] {
      var n := |gots| - 1;
      var front, last := gots[..n], gots[n];
      assert gots == front + [last];
      Fs20AloneRepeated(t, bytes, front);
      OneMoreAlone(t, Concat(front), bytes, last);
      ConcatSnoc(front, last);
    }
  }
}
