/**
 The FS20, Intertechno V1 and Intertechno V3 decoders of slowrf.c, and the
 reporting they do when a gap ends a transmission.  Only the lengths of the
 pulses matter to these decoders.
 */
module SlowRf {
  import opened Common

  const SYNC_MIN: nat := 4000
  const WORD32: nat := 0x1_0000_0000

  // ----- FS20

  /** `pending` is the first half of a bit, `bits` the group being collected. */
  datatype Fs20 = Fs20(data: seq<byte>, bits: seq<bool>, pending: Option<bool>, syncFound: bool)

  const RESET_FS20: Fs20 := Fs20([], [], None, false)

  /** A half of a 0 or of a 1. */
  predicate HalfZero(pulse: nat) { 250 <= pulse <= 550 }
  predicate HalfOne(pulse: nat) { 550 < pulse <= 900 }

  function Value(bits: seq<bool>): nat {
    if bits == [] then 0 else 2 * Value(bits[..|bits| - 1]) + if bits[|bits| - 1] then 1 else 0
  }

  /** Whether the number of ones is odd. */
  predicate Odd(bits: seq<bool>) {
    bits != [] && Odd(bits[..|bits| - 1]) != bits[|bits| - 1]
  }

  function Byte(bits: seq<bool>): byte { Value(bits) % 0x100 }

  /** A group has eight bits and a ninth that makes the number of ones even. */
  function EndGroup(d: Fs20, group: seq<bool>): Fs20
    requires |group| == 9
  {
    if Odd(group) then RESET_FS20
    else d.(data := if |d.data| < 16 then d.data + [Byte(group[..8])] else d.data, bits := [])
  }

  function Fs20Bit(d: Fs20, bit: bool): Fs20 {
    if !d.syncFound then
      if bit then d.(syncFound := true, bits := []) else d
    else
      var bits := d.bits + [bit];
      if |bits| == 9 then EndGroup(d, bits) else d.(bits := bits)
  }

  /** The bit a pulse completes, and the half bit that is left pending. */
  function Fs20Half(pending: Option<bool>, pulse: nat): (Option<bool>, Option<bool>) {
    if HalfZero(pulse) then if pending == Some(false) then (Some(false), None) else (None, Some(false))
    else if HalfOne(pulse) then if pending == Some(true) then (Some(true), None) else (None, Some(true))
    else if 900 < pulse <= 1150 then (Some(false), None)
    else if 1150 < pulse <= 1600 then (Some(true), None)
    else (None, pending)
  }

  function Fs20Pulse(d: Fs20, pulse: nat): Fs20 {
    var (bit, pending) := Fs20Half(d.pending, pulse);
    match bit
    case None => d.(pending := pending)
    case Some(b) => Fs20Bit(d.(pending := None), b)
  }

  // ----- Intertechno V3

  datatype It3 = It3(s: string, pulses: seq<nat>, syncFound: bool)

  const RESET_IT3: It3 := It3("", [], false)

  predicate Short3(p: nat) { 100 < p < 600 }
  predicate Long3(p: nat) { 600 <= p < 1500 }

  function It3Symbol(p: seq<nat>): Option<char>
    requires |p| == 4
  {
    if Short3(p[0]) && Long3(p[1]) && Short3(p[2]) && Long3(p[3]) then Some('0')
    else if Short3(p[0]) && Long3(p[1]) && Long3(p[2]) && Short3(p[3]) then Some('1')
    else None
  }

  function It3Pulse(d: It3, pulse: nat): It3 {
    if !d.syncFound then d
    else
      var buf := d.pulses + [pulse];
      if |buf| != 4 then d.(pulses := buf)
      else match It3Symbol(buf)
        case None => It3(d.s, [], false)
        case Some(c) => It3(d.s + [c], [], |d.s| + 1 != 32)
  }

  // ----- Intertechno V1

  /** `recent` are the last pulses, at most four, that belong to no symbol yet. */
  datatype It1 = It1(s: string, recent: seq<nat>)

  const RESET_IT1: It1 := It1("", [])

  predicate Short1(p: nat) { 100 <= p <= 800 }
  predicate Long1(p: nat) { 800 < p <= 2200 }

  function It1Symbol(p: seq<nat>): Option<char>
    requires |p| == 4
  {
    if Short1(p[0]) && Long1(p[1]) && Short1(p[2]) && Long1(p[3]) then Some('0')
    else if Long1(p[0]) && Short1(p[1]) && Long1(p[2]) && Short1(p[3]) then Some('1')
    else if Short1(p[0]) && Long1(p[1]) && Long1(p[2]) && Short1(p[3]) then Some('F')
    else None
  }

  function Slide(window: seq<nat>, pulse: nat): seq<nat> {
    (if |window| < 4 then window else window[1..]) + [pulse]
  }

  /** The window slides until a first symbol is found; then symbols must follow each other. */
  function It1Pulse(d: It1, pulse: nat): It1 {
    var last := Slide(d.recent, pulse);
    if |last| != 4 then It1(d.s, last)
    else match It1Symbol(last)
      case Some(c) => if |d.s| < 12 then It1(d.s + [c], []) else RESET_IT1
      case None => if d.s == "" then It1("", last) else RESET_IT1
  }

  // ----- the receiving loop

  datatype Report = FS20(data: seq<byte>) | ITV1(word: string) | ITV3(word: string)

  datatype Task = Task(fs: Fs20, it1: It1, it3: It3)

  datatype Stepped = Stepped(task: Task, reports: seq<Report>)

  predicate Gap(pulse: nat) { pulse > SYNC_MIN }

  function ReportsOf(t: Task): seq<Report> {
    (if |t.fs.data| >= 4 then [FS20(t.fs.data)] else [])
    + (if |t.it1.s| == 12 then [ITV1(t.it1.s)] else [])
    + (if |t.it3.s| == 32 then [ITV3(t.it3.s)] else [])
  }

  /** The decoders after a gap; some gaps announce a V3 frame. */
  function AfterGap(gap: nat): Task {
    Task(RESET_FS20, RESET_IT1, RESET_IT3.(syncFound := 8000 < gap < 11000))
  }

  function TaskPulse(t: Task, pulse: nat): Stepped {
    if Gap(pulse) then Stepped(AfterGap(pulse), ReportsOf(t))
    else Stepped(Task(Fs20Pulse(t.fs, pulse), It1Pulse(t.it1, pulse), It3Pulse(t.it3, pulse)), [])
  }

  /** A run of the loop, with reporting switched on. */
  function Run(t: Task, pulses: seq<nat>): Stepped
    decreases |pulses|
  {
    if pulses == [] then Stepped(t, [])
    else
      var first := TaskPulse(t, pulses[0]);
      Join(first.reports, Run(first.task, pulses[1..]))
  }

  function Join(seen: seq<Report>, rest: Stepped): Stepped {
    Stepped(rest.task, seen + rest.reports)
  }

  lemma JoinJoin(x: seq<Report>, y: seq<Report>, r: Stepped)
    ensures Join(x, Join(y, r)) == Join(x + y, r)
  {
    assert x + (y + r.reports) == (x + y) + r.reports;
  }

  /** The first pulse, and what follows it. */
  lemma RunFirst(t: Task, x: nat, p: seq<nat>, rest: seq<nat>)
    requires p == [x] + rest
    ensures Run(t, p) == Join(TaskPulse(t, x).reports, Run(TaskPulse(t, x).task, rest))
  {
    assert p[1..] == rest;
  }

  lemma {:induction false} RunConcat(t: Task, a: seq<nat>, b: seq<nat>)
    ensures Run(t, a + b) == Join(Run(t, a).reports, Run(Run(t, a).task, b))
    decreases |a|
  {
    if a == [] {
      assert a + b == b && [] + Run(t, b).reports == Run(t, b).reports;
    } else {
      var first, tail := TaskPulse(t, a[0]), a[1..];
      assert a == [a[0]] + tail && a + b == [a[0]] + (tail + b);
      RunConcat(first.task, tail, b);
      RunFirst(t, a[0], a, tail);
      RunFirst(t, a[0], a + b, tail + b);
      JoinJoin(first.reports, Run(first.task, tail).reports, Run(Run(t, a).task, b));
    }
  }

  lemma RunSnoc(t: Task, pulses: seq<nat>, i: nat)
    requires i < |pulses|
    ensures var r := Run(t, pulses[..i]);
      Run(t, pulses[..i + 1]) == Join(r.reports, TaskPulse(r.task, pulses[i]))
  {
    assert pulses[..i + 1] == pulses[..i] + [pulses[i]];
    RunConcat(t, pulses[..i], [pulses[i]]);
    RunOne(Run(t, pulses[..i]).task, pulses[i]);
  }

  lemma RunOne(t: Task, pulse: nat)
    ensures Run(t, [pulse]) == TaskPulse(t, pulse)
  {
    var first := TaskPulse(t, pulse);
    assert [pulse][1..] == [] && first.reports + [] == first.reports;
  }

  // ----- the ring of the V1 decoder

  /** What a ring holds after `cnt` pulses: the last four, the oldest at `cnt % 4`. */
  function Window(buf: seq<nat>, cnt: nat): (w: seq<nat>)
    requires |buf| == 4
    ensures |w| == Min(cnt, 4)
  {
    if cnt < 4 then buf[..cnt]
    else
      var c := cnt - 4;
      [buf[c % 4], buf[(c + 1) % 4], buf[(c + 2) % 4], buf[(c + 3) % 4]]
  }

  /** Overwriting the oldest entry slides the window. */
  lemma Ring(buf: seq<nat>, cnt: nat, pulse: nat)
    requires |buf| == 4
    ensures Window(buf[cnt % 4 := pulse], cnt + 1) == Slide(Window(buf, cnt), pulse)
  {
    if cnt >= 4 {
      var c := cnt - 4;
      assert cnt % 4 == c % 4;
      match c % 4 {
        case 0 => assert (c + 1) % 4 == 1 && (c + 2) % 4 == 2 && (c + 3) % 4 == 3;
        case 1 => assert (c + 1) % 4 == 2 && (c + 2) % 4 == 3 && (c + 3) % 4 == 0;
        case 2 => assert (c + 1) % 4 == 3 && (c + 2) % 4 == 0 && (c + 3) % 4 == 1;
        case _ => assert (c + 1) % 4 == 0 && (c + 2) % 4 == 1 && (c + 3) % 4 == 2;
      }
    }
  }

  // ----- bits and numbers

  /** The low `k` bits of `v`, the most significant first. */
  function BitsOf(v: nat, k: nat): (bits: seq<bool>)
    ensures |bits| == k
    decreases v, k
  {
    if k == 0 then [] else BitsOf(v / 2, k - 1) + [v % 2 == 1]
  }

  /** How many of the low `k` bits of `v` are set. */
  function Ones(v: nat, k: nat): nat
    decreases v, k
  {
    if k == 0 then 0 else v % 2 + Ones(v / 2, k - 1)
  }

  function Pow2(k: nat): (r: nat)
    ensures r > 0
  {
    if k == 0 then 1 else 2 * Pow2(k - 1)
  }

  lemma {:induction false} ValueOfBits(v: nat, k: nat)
    requires v < Pow2(k)
    ensures Value(BitsOf(v, k)) == v
    decreases k
  {
    if k > 0 {
      ValueOfBits(v / 2, k - 1);
      assert BitsOf(v, k)[..k - 1] == BitsOf(v / 2, k - 1);
    }
  }

  lemma {:induction false} OddOnes(v: nat, k: nat)
    ensures Odd(BitsOf(v, k)) <==> Ones(v, k) % 2 == 1
    decreases k
  {
    if k > 0 {
      OddOnes(v / 2, k - 1);
      assert BitsOf(v, k)[..k - 1] == BitsOf(v / 2, k - 1);
    }
  }

  lemma Pow2Small()
    ensures Pow2(8) == 0x100 && Pow2(9) == 0x200
  {
    assert Pow2(4) == 16;
    assert Pow2(8) == 16 * Pow2(4);
  }

  lemma {:induction false} Pow2Grows(k: nat, n: nat)
    requires k <= n
    ensures Pow2(k) <= Pow2(n)
    decreases n
  {
    if k < n { Pow2Grows(k, n - 1); }
  }

  lemma Small(v: nat, k: nat)
    requires k <= 8 && v < Pow2(k)
    ensures v < 0x100 && 2 * v + 1 < Pow2(k + 1)
  {
    Pow2Grows(k, 8);
    Pow2Small();
  }

  lemma PushBit(v: nat, k: nat, bit: bool)
    ensures BitsOf(v * 2 + if bit then 1 else 0, k + 1) == BitsOf(v, k) + [bit]
  {
    var w := v * 2 + if bit then 1 else 0;
    assert w / 2 == v && (w % 2 == 1) == bit;
  }

  lemma ShiftIn(v: nat, k: nat, bit: bool)
    requires k <= 8 && v < Pow2(k)
    ensures var w := v * 2 % WORD32 + if bit then 1 else 0;
      w < Pow2(k + 1) && (k == 8 ==> w < 0x200) && BitsOf(w, k + 1) == BitsOf(v, k) + [bit]
  {
    Small(v, k);
    assert v * 2 % WORD32 == v * 2;
    PushBit(v, k, bit);
  }

  /** Splitting off the last bit: the rest is the byte, and the whole is odd when that bit is not its parity. */
  lemma LastBit(cur: nat, k: nat)
    requires cur / 2 < Pow2(k)
    ensures BitsOf(cur, k + 1)[..k] == BitsOf(cur / 2, k)
    ensures Value(BitsOf(cur / 2, k)) == cur / 2
    ensures Odd(BitsOf(cur, k + 1)) <==> cur % 2 != Ones(cur / 2, k) % 2
  {
    assert BitsOf(cur, k + 1) == BitsOf(cur / 2, k) + [cur % 2 == 1];
    assert BitsOf(cur, k + 1)[..k] == BitsOf(cur / 2, k);
    OddOnes(cur / 2, k);
    ValueOfBits(cur / 2, k);
  }

  /** The parity loop's test accepts a group exactly when its number of ones is even. */
  lemma GroupOf(cur: nat)
    requires cur < 0x200
    ensures Byte(BitsOf(cur, 9)[..8]) == cur / 2
    ensures Odd(BitsOf(cur, 9)) <==> cur % 2 != Ones(cur / 2, 8) % 2
  {
    assert cur / 2 < Pow2(8) by { Pow2Small(); }
    LastBit(cur, 8);
  }

  // ----- the decoders' records

  class Fs20Decoder {
    const data: array<byte>
    var byteCnt: nat
    var bitCnt: nat
    var currentBits: nat
    var lastBit: int
    var pulseInBit: nat
    var syncFound: bool

    ghost predicate Valid()
      reads this, data
    {
      && data.Length == 16 && byteCnt <= 16 && bitCnt < 9 && currentBits < Pow2(bitCnt)
      && (pulseInBit == 1 ==> lastBit == 0 || lastBit == 1)
      && (!syncFound ==> byteCnt == 0 && bitCnt == 0)
    }

    ghost function State(): Fs20
      requires Valid()
      reads this, data
    {
      Fs20(data[..byteCnt], BitsOf(currentBits, bitCnt),
           if pulseInBit == 1 then Some(lastBit == 1) else None, syncFound)
    }

    constructor ()
      ensures Valid() && fresh(data) && State() == RESET_FS20
    {
      data := new byte[16](_ => 0);
      byteCnt, bitCnt, currentBits, lastBit, pulseInBit, syncFound := 0, 0, 0, -1, 0, false;
    }

    method Reset()
      requires Valid()
      modifies this, data
      ensures Valid() && State() == RESET_FS20
    {
      forall i | 0 <= i < data.Length { data[i] := 0; }
      byteCnt, bitCnt, currentBits, lastBit, pulseInBit, syncFound := 0, 0, 0, -1, 0, false;
    }

    /** The parity loop. */
    static method CountOnes(val: byte) returns (ones: nat)
      ensures ones == Ones(val, 8)
    {
      ones := 0;
      var i, rest := 0, val as nat;
      while i < 8
        invariant i <= 8
        invariant ones + Ones(rest, 8 - i) == Ones(val, 8)
      {
        if rest % 2 == 1 { ones := ones + 1; }
        i, rest := i + 1, rest / 2;
      }
    }

    /** A byte with the right parity. */
    method Store(val: byte)
      requires Valid() && syncFound && pulseInBit == 0
      modifies this`byteCnt, data
      ensures data.Length == 16 && byteCnt <= 16
      ensures data[..byteCnt] == if old(byteCnt) < 16 then old(data[..byteCnt]) + [val] else old(data[..byteCnt])
    {
      if byteCnt < 16 { data[byteCnt] := val; byteCnt := byteCnt + 1; }
    }

    /** A complete group of nine bits, the last of which is the parity. */
    method Group(cur: nat)
      requires Valid() && syncFound && pulseInBit == 0 && cur < 0x200
      modifies this, data
      ensures Valid() && State() == EndGroup(old(State()), BitsOf(cur, 9))
    {
      var val: byte, par := cur / 2, cur % 2;
      var ones := CountOnes(val);
      GroupOf(cur);
      if par == ones % 2 {
        Store(val);
      } else {
        if byteCnt > 0 { Reset(); } else { syncFound := false; }
      }
      bitCnt, currentBits := 0, 0;
    }

    method Shift(bit: bool) returns (cur: nat)
      requires Valid()
      ensures cur < Pow2(bitCnt + 1) && (bitCnt == 8 ==> cur < 0x200)
      ensures BitsOf(cur, bitCnt + 1) == BitsOf(currentBits, bitCnt) + [bit]
    {
      ShiftIn(currentBits, bitCnt, bit);
      cur := (currentBits * 2) % WORD32 + if bit then 1 else 0;
    }

    method Bit(bit: bool)
      requires Valid() && pulseInBit == 0
      modifies this, data
      ensures Valid() && State() == Fs20Bit(old(State()), bit)
    {
      if !syncFound {
        if bit { syncFound := true; bitCnt, currentBits := 0, 0; }
      } else {
        var cur := Shift(bit);
        if bitCnt + 1 == 9 {
          Group(cur);
        } else {
          bitCnt, currentBits := bitCnt + 1, cur;
        }
      }
    }

    method Pulse(pulse: nat)
      requires Valid()
      modifies this, data
      ensures Valid() && State() == Fs20Pulse(old(State()), pulse)
    {
      var bit: Option<bool> := None;
      if 250 <= pulse <= 550 {
        if pulseInBit == 1 && lastBit == 0 { bit := Some(false); pulseInBit := 0; }
        else { lastBit, pulseInBit := 0, 1; }
      } else if 550 < pulse <= 900 {
        if pulseInBit == 1 && lastBit == 1 { bit := Some(true); pulseInBit := 0; }
        else { lastBit, pulseInBit := 1, 1; }
      } else if 900 < pulse <= 1150 { bit := Some(false); pulseInBit := 0; }
      else if 1150 < pulse <= 1600 { bit := Some(true); pulseInBit := 0; }
      if bit.Some? { Bit(bit.value); }
    }
  }

  class It1Decoder {
    const s: array<char>
    const pulseBuf: array<nat>
    var pos: nat
    var pulseCnt: nat

    ghost predicate Valid()
      reads this, s, pulseBuf
    {
      && s.Length == 17 && pulseBuf.Length == 4 && pos <= 12
      && (pos > 0 ==> pulseCnt < 4)
      && (forall i :: 0 <= i < pos ==> s[i] != '\0')
      && (forall i :: pos <= i < 17 ==> s[i] == '\0')
    }

    ghost function State(): It1
      requires Valid()
      reads this, s, pulseBuf
    {
      It1(s[..pos], Window(pulseBuf[..], pulseCnt))
    }

    constructor ()
      ensures Valid() && fresh(s) && fresh(pulseBuf) && State() == RESET_IT1
    {
      s := new char[17](_ => '\0');
      pulseBuf := new nat[4](_ => 0);
      pos, pulseCnt := 0, 0;
    }

    method Reset()
      requires s.Length == 17 && pulseBuf.Length == 4
      modifies this, s
      ensures Valid() && State() == RESET_IT1
    {
      pos, pulseCnt := 0, 0;
      forall i | 0 <= i < s.Length { s[i] := '\0'; }
    }

    static method Symbol(p1: nat, p2: nat, p3: nat, p4: nat) returns (bit: char)
      ensures It1Symbol([p1, p2, p3, p4]) == if bit == '\0' then None else Some(bit)
    {
      bit := '\0';
      if Short1(p1) && Long1(p2) && Short1(p3) && Long1(p4) { bit := '0'; }
      else if Long1(p1) && Short1(p2) && Long1(p3) && Short1(p4) { bit := '1'; }
      else if Short1(p1) && Long1(p2) && Long1(p3) && Short1(p4) { bit := 'F'; }
    }

    /** Puts a pulse into the ring. */
    method Turn(pulse: nat)
      requires Valid() && pos == 0
      modifies this`pulseCnt, pulseBuf
      ensures pulseBuf.Length == 4 && pulseCnt == old(pulseCnt) + 1
      ensures Window(pulseBuf[..], pulseCnt) == Slide(old(Window(pulseBuf[..], pulseCnt)), pulse)
    {
      Ring(pulseBuf[..], pulseCnt, pulse);
      pulseBuf[pulseCnt % 4] := pulse;
      pulseCnt := pulseCnt + 1;
    }

    /** The symbol of the last four pulses. */
    method RingSymbol() returns (bit: char)
      requires pulseBuf.Length == 4 && pulseCnt >= 4
      ensures It1Symbol(Window(pulseBuf[..], pulseCnt)) == if bit == '\0' then None else Some(bit)
    {
      var c := pulseCnt - 4;
      bit := Symbol(pulseBuf[c % 4], pulseBuf[(c + 1) % 4], pulseBuf[(c + 2) % 4], pulseBuf[(c + 3) % 4]);
    }

    /** The search for a first symbol in the ring. */
    method Search(pulse: nat)
      requires Valid() && pos == 0
      modifies this, s, pulseBuf
      ensures Valid() && State() == It1Pulse(old(State()), pulse)
    {
      ghost var last := Slide(Window(pulseBuf[..], pulseCnt), pulse);
      Turn(pulse);
      assert |last| == Min(pulseCnt, 4);
      if pulseCnt >= 4 {
        var bit := RingSymbol();
        if bit != '\0' { s[pos] := bit; pos := pos + 1; pulseCnt := 0; }
      }
    }

    method Collect(pulse: nat)
      requires Valid() && pos > 0
      modifies this, s, pulseBuf
      ensures Valid() && State() == It1Pulse(old(State()), pulse)
    {
      pulseBuf[pulseCnt] := pulse;
      pulseCnt := pulseCnt + 1;
      if pulseCnt == 4 {
        var bit := Symbol(pulseBuf[0], pulseBuf[1], pulseBuf[2], pulseBuf[3]);
        assert pulseBuf[..4] == [pulseBuf[0], pulseBuf[1], pulseBuf[2], pulseBuf[3]];
        if bit != '\0' && pos < 12 {
          s[pos] := bit; pos := pos + 1; pulseCnt := 0;
        } else {
          Reset();
        }
      }
    }

    method Pulse(pulse: nat)
      requires Valid()
      modifies this, s, pulseBuf
      ensures Valid() && State() == It1Pulse(old(State()), pulse)
    {
      if pos == 0 { Search(pulse); } else { Collect(pulse); }
    }
  }

  class It3Decoder {
    const s: array<char>
    const pulseBuf: array<nat>
    var bitPos: nat
    var pulseCnt: nat
    var syncFound: bool

    ghost predicate Valid()
      reads this, s, pulseBuf
    {
      && s.Length == 33 && pulseBuf.Length == 4 && bitPos <= 32 && pulseCnt < 4
      && (syncFound ==> bitPos < 32)
      && (forall i :: 0 <= i < bitPos ==> s[i] != '\0')
      && (forall i :: bitPos <= i < 33 ==> s[i] == '\0')
    }

    ghost function State(): It3
      requires Valid()
      reads this, s, pulseBuf
    {
      It3(s[..bitPos], pulseBuf[..pulseCnt], syncFound)
    }

    constructor ()
      ensures Valid() && fresh(s) && fresh(pulseBuf) && State() == RESET_IT3
    {
      s := new char[33](_ => '\0');
      pulseBuf := new nat[4](_ => 0);
      bitPos, pulseCnt, syncFound := 0, 0, false;
    }

    method Reset()
      requires s.Length == 33 && pulseBuf.Length == 4
      modifies this, s
      ensures Valid() && State() == RESET_IT3
    {
      bitPos, pulseCnt, syncFound := 0, 0, false;
      forall i | 0 <= i < s.Length { s[i] := '\0'; }
    }

    /** A gap of the right length announces a frame. */
    method Arm()
      requires Valid() && State() == RESET_IT3
      modifies this`syncFound
      ensures Valid() && State() == RESET_IT3.(syncFound := true)
    {
      syncFound := true;
    }

    method Pulse(pulse: nat)
      requires Valid()
      modifies this, s, pulseBuf
      ensures Valid() && State() == It3Pulse(old(State()), pulse)
    {
      if syncFound {
        pulseBuf[pulseCnt] := pulse;
        pulseCnt := pulseCnt + 1;
        if pulseCnt == 4 {
          var p1, p2, p3, p4 := pulseBuf[0], pulseBuf[1], pulseBuf[2], pulseBuf[3];
          assert pulseBuf[..4] == [p1, p2, p3, p4];
          pulseCnt := 0;
          if Short3(p1) && Long3(p2) && Short3(p3) && Long3(p4) { s[bitPos] := '0'; bitPos := bitPos + 1; }
          else if Short3(p1) && Long3(p2) && Long3(p3) && Short3(p4) { s[bitPos] := '1'; bitPos := bitPos + 1; }
          else { syncFound := false; }
          if bitPos == 32 { syncFound := false; }
        }
      }
    }
  }

  /** The receiving loop with its decoders; `state` is their state, `output` are the reports made so far. */
  class Receiver {
    const fs: Fs20Decoder
    const it1: It1Decoder
    const it3: It3Decoder
    var reporting: bool
    var output: seq<Report>
    ghost var state: Task

    ghost predicate Parts()
      reads fs, fs.data, it1, it1.s, it1.pulseBuf, it3, it3.s, it3.pulseBuf
    {
      && fs.Valid() && it1.Valid() && it3.Valid()
      && it1.s != it3.s && it1.pulseBuf != it3.pulseBuf
    }

    ghost predicate Valid()
      reads this, fs, fs.data, it1, it1.s, it1.pulseBuf, it3, it3.s, it3.pulseBuf
    {
      Parts() && state == Task(fs.State(), it1.State(), it3.State())
    }

    constructor ()
      ensures Valid() && output == [] && reporting
      ensures state == Task(RESET_FS20, RESET_IT1, RESET_IT3)
    {
      var f := new Fs20Decoder();
      var i1 := new It1Decoder();
      var i3 := new It3Decoder();
      fs, it1, it3 := f, i1, i3;
      reporting, output := true, [];
      state := Task(RESET_FS20, RESET_IT1, RESET_IT3);
    }

    /** What a gap reports. */
    method ReportAll()
      requires Valid()
      modifies this`output
      ensures output == old(output) + ReportsOf(state)
    {
      if fs.byteCnt >= 4 { output := output + [FS20(fs.data[..fs.byteCnt])]; }
      if it1.pos == 12 { output := output + [ITV1(it1.s[..12])]; }
      if it3.bitPos == 32 { output := output + [ITV3(it3.s[..32])]; }
    }

    method ResetAll()
      requires Parts()
      modifies fs, fs.data, it1, it1.s, it3, it3.s
      ensures Parts() && fs.State() == RESET_FS20 && it1.State() == RESET_IT1 && it3.State() == RESET_IT3
    {
      fs.Reset();
      it1.Reset();
      it3.Reset();
    }

    method OnGap(pulse: nat)
      requires Valid() && Gap(pulse)
      modifies this`output, this`state, fs, fs.data, it1, it1.s, it3, it3.s
      ensures Valid() && state == AfterGap(pulse)
      ensures output == old(output) + if reporting then ReportsOf(old(state)) else []
    {
      if reporting { ReportAll(); }
      ResetAll();
      if 8000 < pulse < 11000 { it3.Arm(); }
      state := AfterGap(pulse);
    }

    /** The two Intertechno decoders. */
    method DecodeIt(pulse: nat)
      requires Parts()
      modifies it1, it1.s, it1.pulseBuf, it3, it3.s, it3.pulseBuf
      ensures Parts() && fs.State() == old(fs.State())
      ensures it1.State() == It1Pulse(old(it1.State()), pulse) && it3.State() == It3Pulse(old(it3.State()), pulse)
    {
      it3.Pulse(pulse);
      it1.Pulse(pulse);
    }

    method Decode(pulse: nat)
      requires Valid() && !Gap(pulse)
      modifies this`state, fs, fs.data, it1, it1.s, it1.pulseBuf, it3, it3.s, it3.pulseBuf
      ensures Valid()
      ensures state == Task(Fs20Pulse(old(state.fs), pulse), It1Pulse(old(state.it1), pulse),
                            It3Pulse(old(state.it3), pulse))
    {
      DecodeIt(pulse);
      fs.Pulse(pulse);
      state := Task(Fs20Pulse(state.fs, pulse), It1Pulse(state.it1, pulse), It3Pulse(state.it3, pulse));
    }

    /** One turn of the loop. */
    method Pulse(pulse: nat)
      requires Valid()
      modifies this`output, this`state, fs, fs.data, it1, it1.s, it1.pulseBuf, it3, it3.s, it3.pulseBuf
      ensures Valid() && state == TaskPulse(old(state), pulse).task
      ensures output == old(output) + if reporting then TaskPulse(old(state), pulse).reports else []
    {
      if pulse > SYNC_MIN { OnGap(pulse); } else { Decode(pulse); }
    }

    /** The `i` first pulses have been heard since the state `t`, with `base` reported before. */
    ghost predicate Heard(t: Task, base: seq<Report>, pulses: seq<nat>, i: nat)
      reads this, fs, fs.data, it1, it1.s, it1.pulseBuf, it3, it3.s, it3.pulseBuf
    {
      && Valid() && i <= |pulses|
      && var r := Run(t, pulses[..i]);
         state == r.task && output == base + if reporting then r.reports else []
    }

    method Next(pulses: seq<nat>, i: nat, ghost t: Task, ghost base: seq<Report>)
      requires Heard(t, base, pulses, i) && i < |pulses|
      modifies this`output, this`state, fs, fs.data, it1, it1.s, it1.pulseBuf, it3, it3.s, it3.pulseBuf
      ensures Heard(t, base, pulses, i + 1)
    {
      RunSnoc(t, pulses, i);
      Pulse(pulses[i]);
    }

    /** The loop over a stream of pulses. */
    method Listen(pulses: seq<nat>)
      requires Valid()
      modifies this`output, this`state, fs, fs.data, it1, it1.s, it1.pulseBuf, it3, it3.s, it3.pulseBuf
      ensures Valid() && state == Run(old(state), pulses).task
      ensures output == old(output) + if reporting then Run(old(state), pulses).reports else []
    {
      ghost var t, base := state, output;
      for i := 0 to |pulses|
        invariant Heard(t, base, pulses, i)
      {
        Next(pulses, i, t, base);
      }
      assert pulses[..|pulses|] == pulses;
    }
  }
}
