/**
 The FS20 and Intertechno senders of cc1101.c.  They drive the data line of the
 transmitter; what a receiver sees of it are the times between two edges.
 */
module RfSender {
  import opened Common
  import S = SlowRf

  /** The data line: the pulses that are over, and the level since the last edge. */
  class Line {
    var over: seq<nat>
    var high: bool
    var held: nat

    /** The lengths of all pulses, the current one included. */
    ghost function Pulses(): (p: seq<nat>)
      reads this
      ensures p != []
    {
      over + [held]
    }

    constructor ()
      ensures !high && Pulses() == [0]
    {
      over, high, held := [], false, 0;
    }

    method SetLevel(level: bool)
      modifies this
      ensures high == level
      ensures Pulses() == if level == old(high) then old(Pulses()) else old(Pulses()) + [0]
    {
      if level != high { over, high, held := over + [held], level, 0; }
    }

    method Delay(us: nat)
      modifies this
      ensures high == old(high) && Pulses() == Longer(old(Pulses()), us)
    {
      held := held + us;
    }
  }

  /** The pulses once the last has been held for another `us`. */
  function Longer(pulses: seq<nat>, us: nat): seq<nat>
    requires pulses != []
  {
    pulses[..|pulses| - 1] + [pulses[|pulses| - 1] + us]
  }

  /** The line goes high for `up` and then low for `down`. */
  method Beat(line: Line, up: nat, down: nat)
    requires !line.high
    modifies line
    ensures !line.high && line.Pulses() == old(line.Pulses()) + [up, down]
  {
    line.SetLevel(true);
    line.Delay(up);
    line.SetLevel(false);
    line.Delay(down);
  }

  // ----- FS20

  const ZERO20: nat := 400
  const ONE20: nat := 600

  function BitPulses(bit: bool): seq<nat> {
    if bit then [ONE20, ONE20] else [ZERO20, ZERO20]
  }

  function BitsPulses(bits: seq<bool>): (p: seq<nat>)
    ensures |p| == 2 * |bits|
  {
    if bits == [] then [] else BitsPulses(bits[..|bits| - 1]) + BitPulses(bits[|bits| - 1])
  }

  method SendBit20(line: Line, bit: bool)
    requires !line.high
    modifies line
    ensures !line.high && line.Pulses() == old(line.Pulses()) + BitPulses(bit)
  {
    if bit { Beat(line, 600, 600); } else { Beat(line, 400, 400); }
  }

  function Group(b: byte): (g: seq<bool>)
    ensures |g| == 9
  {
    S.BitsOf(b, 8) + [S.Odd(S.BitsOf(b, 8))]
  }

  function Groups(bytes: seq<byte>): (g: seq<bool>)
    ensures |g| == 9 * |bytes|
  {
    if bytes == [] then [] else Groups(bytes[..|bytes| - 1]) + Group(bytes[|bytes| - 1])
  }

  function Zeros(n: nat): (z: seq<bool>)
    ensures |z| == n
  {
    seq(n, _ => false)
  }

  /** The bits of a transmission: preamble, sync bit, the bytes with their parities, a closing zero. */
  function FrameBits(bytes: seq<byte>): seq<bool> {
    Zeros(24) + [true] + Groups(bytes) + [false]
  }

  /** The last low pulse runs on into the pause. */
  function Frame20(bytes: seq<byte>): seq<nat> {
    Longer(BitsPulses(FrameBits(bytes)), 10000)
  }

  lemma {:induction false} BitsPulsesConcat(a: seq<bool>, b: seq<bool>)
    ensures BitsPulses(a + b) == BitsPulses(a) + BitsPulses(b)
    decreases |b|
  {
    if b == [] {
      assert a + b == a;
    } else {
      BitsPulsesConcat(a, b[..|b| - 1]);
      FrontOfConcat(a, b);
    }
  }

  /** `v >> j`. */
  function Shr(v: nat, j: nat): nat {
    if j == 0 then v else Shr(v / 2, j - 1)
  }

  lemma {:induction false} ShrHalf(v: nat, j: nat)
    ensures Shr(v, j + 1) == Shr(v, j) / 2
    decreases j
  {
    if j > 0 { ShrHalf(v / 2, j - 1); }
  }

  lemma BitsSnoc(bits: seq<bool>, bit: bool)
    ensures BitsPulses(bits + [bit]) == BitsPulses(bits) + BitPulses(bit)
    ensures S.Odd(bits + [bit]) == (S.Odd(bits) != bit)
  {
    FrontOfSnoc(bits, bit);
  }

  predicate BitOf(b: byte, j: nat) { Shr(b, j) % 2 == 1 }

  /** The pulses of the bits of `b` from the highest down to the `j`th, and how many of them are ones. */
  function TopPulses(b: byte, j: nat): seq<nat>
    requires j <= 8
    decreases 8 - j
  {
    if j == 8 then [] else TopPulses(b, j + 1) + BitPulses(BitOf(b, j))
  }

  function TopOnes(b: byte, j: nat): nat
    requires j <= 8
    decreases 8 - j
  {
    if j == 8 then 0 else TopOnes(b, j + 1) + if BitOf(b, j) then 1 else 0
  }

  /** Those bits themselves. */
  function TopBits(b: byte, j: nat): (bits: seq<bool>)
    requires j <= 8
    ensures |bits| == 8 - j
    decreases 8 - j
  {
    if j == 8 then [] else TopBits(b, j + 1) + [BitOf(b, j)]
  }

  lemma {:induction false} TopBitsAre(b: byte, j: nat)
    requires j <= 8
    ensures TopBits(b, j) == S.BitsOf(Shr(b, j), 8 - j)
    decreases 8 - j
  {
    if j < 8 {
      TopBitsAre(b, j + 1);
      ShrHalf(b, j);
    }
  }

  lemma {:induction false} TopPulsesAre(b: byte, j: nat)
    requires j <= 8
    ensures TopPulses(b, j) == BitsPulses(TopBits(b, j))
    decreases 8 - j
  {
    if j < 8 {
      TopPulsesAre(b, j + 1);
      BitsSnoc(TopBits(b, j + 1), BitOf(b, j));
    }
  }

  lemma OneMore(ones: nat, bit: bool, odd: bool)
    requires ones % 2 == 1 <==> odd
    ensures (ones + if bit then 1 else 0) % 2 == 1 <==> odd != bit
  {
  }

  lemma TopStep(b: byte, j: nat, front: seq<bool>)
    requires j < 8 && front == TopBits(b, j + 1)
    requires TopOnes(b, j + 1) % 2 == 1 <==> S.Odd(front)
    ensures TopOnes(b, j) % 2 == 1 <==> S.Odd(front + [BitOf(b, j)])
  {
    OneMore(TopOnes(b, j + 1), BitOf(b, j), S.Odd(front));
    BitsSnoc(front, BitOf(b, j));
  }

  lemma {:induction false} TopOnesAre(b: byte, j: nat)
    requires j <= 8
    ensures TopOnes(b, j) % 2 == 1 <==> S.Odd(TopBits(b, j))
    decreases 8 - j
  {
    if j < 8 {
      TopOnesAre(b, j + 1);
      TopStep(b, j, TopBits(b, j + 1));
    }
  }

  method SendBits20(line: Line, b: byte) returns (parity: nat)
    requires !line.high
    modifies line
    ensures !line.high && line.Pulses() == old(line.Pulses()) + BitsPulses(S.BitsOf(b, 8))
    ensures parity % 2 == 1 <==> S.Odd(S.BitsOf(b, 8))
  {
    parity := 0;
    for j := 8 downto 0
      invariant !line.high && line.Pulses() == old(line.Pulses()) + TopPulses(b, j)
      invariant parity == TopOnes(b, j)
    {
      var bit := Shr(b, j) % 2 == 1;
      SendBit20(line, bit);
      if bit { parity := parity + 1; }
    }
    TopBitsAre(b, 0);
    TopPulsesAre(b, 0);
    TopOnesAre(b, 0);
  }

  method SendByte20(line: Line, b: byte)
    requires !line.high
    modifies line
    ensures !line.high && line.Pulses() == old(line.Pulses()) + BitsPulses(Group(b))
  {
    var parity := SendBits20(line, b);
    SendBit20(line, parity % 2 == 1);
    BitsSnoc(S.BitsOf(b, 8), parity % 2 == 1);
  }

  method SendPreamble20(line: Line)
    requires !line.high
    modifies line
    ensures !line.high && line.Pulses() == old(line.Pulses()) + BitsPulses(Zeros(24))
  {
    for i := 0 to 24
      invariant !line.high && line.Pulses() == old(line.Pulses()) + BitsPulses(Zeros(i))
    {
      assert Zeros(i + 1) == Zeros(i) + [false];
      BitsSnoc(Zeros(i), false);
      SendBit20(line, false);
    }
  }

  lemma NextByte(bytes: seq<byte>, i: nat)
    requires i < |bytes|
    ensures BitsPulses(Groups(bytes[..i + 1])) == BitsPulses(Groups(bytes[..i])) + BitsPulses(Group(bytes[i]))
  {
    assert bytes[..i + 1][..i] == bytes[..i];
    BitsPulsesConcat(Groups(bytes[..i]), Group(bytes[i]));
  }

  method SendBytes20(line: Line, bytes: seq<byte>)
    requires !line.high
    modifies line
    ensures !line.high && line.Pulses() == old(line.Pulses()) + BitsPulses(Groups(bytes))
  {
    ghost var start, sent := line.Pulses(), [];
    for i := 0 to |bytes|
      invariant !line.high && line.Pulses() == start + sent
      invariant sent == BitsPulses(Groups(bytes[..i]))
    {
      NextByte(bytes, i);
      SendByte20(line, bytes[i]);
      sent := sent + BitsPulses(Group(bytes[i]));
    }
    assert bytes[..|bytes|] == bytes;
  }

  lemma FramePulses(bytes: seq<byte>)
    ensures BitsPulses(FrameBits(bytes))
         == BitsPulses(Zeros(24)) + BitPulses(true) + BitsPulses(Groups(bytes)) + BitPulses(false)
  {
    var front := Zeros(24) + [true];
    assert (front + Groups(bytes) + [false])[..|front + Groups(bytes)|] == front + Groups(bytes);
    assert front[..24] == Zeros(24);
    BitsPulsesConcat(front, Groups(bytes));
  }

  lemma InFrontOf(start: seq<nat>, a: seq<nat>, b: seq<nat>, c: seq<nat>, d: seq<nat>)
    ensures start + a + b + c + d == start + (a + b + c + d)
  {
  }

  lemma LongerTail(start: seq<nat>, pulses: seq<nat>, us: nat)
    requires pulses != []
    ensures Longer(start + pulses, us) == start + Longer(pulses, us)
  {
  }

  method SendFrameBits20(line: Line, bytes: seq<byte>)
    requires !line.high
    modifies line
    ensures !line.high && line.Pulses() == old(line.Pulses()) + BitsPulses(FrameBits(bytes))
  {
    ghost var start := line.Pulses();
    SendPreamble20(line);
    SendBit20(line, true);
    SendBytes20(line, bytes);
    SendBit20(line, false);
    InFrontOf(start, BitsPulses(Zeros(24)), BitPulses(true), BitsPulses(Groups(bytes)), BitPulses(false));
    FramePulses(bytes);
  }

  /** One of the repetitions. */
  method SendFrame20(line: Line, bytes: seq<byte>)
    requires !line.high
    modifies line
    ensures !line.high && line.Pulses() == old(line.Pulses()) + Frame20(bytes)
  {
    LongerTail(line.Pulses(), BitsPulses(FrameBits(bytes)), 10000);
    SendFrameBits20(line, bytes);
    line.Delay(10000);
  }

  /** `n` copies of `s` one after the other. */
  function Repeat<T>(s: seq<T>, n: nat): (r: seq<T>)
    ensures n > 0 && s != [] ==> r != []
  {
    if n == 0 then [] else Repeat(s, n - 1) + s
  }

  /** `granted` is the answer of the duty-cycle budget. */
  method SendRawSlowRf(line: Line, bytes: seq<byte>, granted: bool)
    requires !line.high
    modifies line
    ensures !line.high
    ensures line.Pulses() == old(line.Pulses()) + if granted then Repeat(Frame20(bytes), 10) else []
  {
    if !granted { return; }
    for i := 0 to 10
      invariant !line.high && line.Pulses() == old(line.Pulses()) + Repeat(Frame20(bytes), i)
    {
      SendFrame20(line, bytes);
    }
  }

  /** Housecode, address and command, closed by a checksum. */
  function Fs20Bytes(hc1: byte, hc2: byte, address: byte, command: byte): seq<byte> {
    [hc1, hc2, address, command, (hc1 as int + hc2 as int + address as int + command as int + 6) % 0x100]
  }

  method SendFs20(line: Line, hc1: byte, hc2: byte, address: byte, command: byte, granted: bool)
    requires !line.high
    modifies line
    ensures !line.high
    ensures line.Pulses() == old(line.Pulses())
                           + if granted then Repeat(Frame20(Fs20Bytes(hc1, hc2, address, command)), 10) else []
  {
    var checksum: byte := (hc1 as int + hc2 as int + address as int + command as int + 6) % 0x100;
    SendRawSlowRf(line, [hc1, hc2, address, command, checksum], granted);
  }

  // ----- Intertechno V1

  function Symbol1(c: char): (p: seq<nat>)
    ensures |p| == 4
  {
    if c == '0' then [420, 1260, 420, 1260]
    else if c == '1' then [1260, 420, 1260, 420]
    else [420, 1260, 1260, 420]
  }

  function Symbols1(word: string): (p: seq<nat>)
    ensures |p| == 4 * |word|
  {
    if word == "" then [] else Symbols1(word[..|word| - 1]) + Symbol1(word[|word| - 1])
  }

  function Frame1(word: string): seq<nat> { Symbols1(word) + [420, 13020] }

  method SendBit1(line: Line, c: char)
    requires !line.high
    modifies line
    ensures !line.high && line.Pulses() == old(line.Pulses()) + Symbol1(c)
  {
    var T := 420;
    if c == '0' { Beat(line, T, T * 3); Beat(line, T, T * 3); }
    else if c == '1' { Beat(line, T * 3, T); Beat(line, T * 3, T); }
    else { Beat(line, T, T * 3); Beat(line, T * 3, T); }
  }

  method SendFrame1(line: Line, data: string)
    requires !line.high
    modifies line
    ensures !line.high && line.Pulses() == old(line.Pulses()) + Frame1(data)
  {
    for i := 0 to |data|
      invariant !line.high && line.Pulses() == old(line.Pulses()) + Symbols1(data[..i])
    {
      assert data[..i + 1][..i] == data[..i];
      SendBit1(line, data[i]);
    }
    assert data[..|data|] == data;
    Beat(line, 420, 420 * 31);
  }

  method SendItV1(line: Line, data: string)
    requires !line.high
    modifies line
    ensures !line.high && line.Pulses() == old(line.Pulses()) + Repeat(Frame1(data), 10)
  {
    for i := 0 to 10
      invariant !line.high && line.Pulses() == old(line.Pulses()) + Repeat(Frame1(data), i)
    {
      SendFrame1(line, data);
    }
  }

  // ----- Intertechno V3

  function Symbol3(c: char): (p: seq<nat>)
    ensures |p| == 4
  {
    if c == '0' then [300, 900, 300, 900] else [300, 900, 900, 300]
  }

  function Symbols3(word: string): (p: seq<nat>)
    ensures |p| == 4 * |word|
  {
    if word == "" then [] else Symbols3(word[..|word| - 1]) + Symbol3(word[|word| - 1])
  }

  function Frame3(word: string): seq<nat> { [300, 9300] + Symbols3(word) + [300, 9300] }

  method SendBit3(line: Line, c: char)
    requires !line.high
    modifies line
    ensures !line.high && line.Pulses() == old(line.Pulses()) + Symbol3(c)
  {
    var T := 300;
    if c == '0' { Beat(line, T, T * 3); Beat(line, T, T * 3); }
    else { Beat(line, T, T * 3); Beat(line, T * 3, T); }
  }

  method SendFrame3(line: Line, data: string)
    requires !line.high
    modifies line
    ensures !line.high && line.Pulses() == old(line.Pulses()) + Frame3(data)
  {
    Beat(line, 300, 300 * 31);
    for i := 0 to |data|
      invariant !line.high && line.Pulses() == old(line.Pulses()) + [300, 9300] + Symbols3(data[..i])
    {
      assert data[..i + 1][..i] == data[..i];
      SendBit3(line, data[i]);
    }
    assert data[..|data|] == data;
    Beat(line, 300, 300 * 31);
  }

  method SendItV3(line: Line, data: string, granted: bool)
    requires !line.high
    modifies line
    ensures !line.high
    ensures line.Pulses() == old(line.Pulses()) + if granted then Repeat(Frame3(data), 6) else []
  {
    if !granted { return; }
    for i := 0 to 6
      invariant !line.high && line.Pulses() == old(line.Pulses()) + Repeat(Frame3(data), i)
    {
      SendFrame3(line, data);
    }
  }
}
