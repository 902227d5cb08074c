/**
 Which Intertechno V3 signals the FS20 decoder can take for its own, for all
 short and long pulses that the V3 decoder accepts.
 */
module RfV3AsFs20 {
  import opened Common
  import opened SlowRf
  import opened RfSender
  import opened RfRoundTrip
  import opened RfIntertechno
  import opened RfMistaken

  // ----- short pulses that are half zeros

  /** `n` bits that alternate. */
  function Alternating(first: bool, n: nat): seq<bool> {
    seq(n, i => (i % 2 == 0) == first)
  }

  lemma OddPair(bits: seq<bool>, pair: seq<bool>, first: bool)
    requires pair == [!first] + [first]
    ensures Odd(bits + pair) == !Odd(bits)
  {
    OddConcat(bits, pair);
    OddConcat([!first], [first]);
    OddOne(first);
    OddOne(!first);
  }

  /** Nine alternating bits have five of the kind they begin with. */
  lemma OddAlternating(first: bool)
    ensures Odd(Alternating(first, 9)) == first
  {
    var pair := [!first] + [first];
    var three := [first] + pair;
    var five := three + pair;
    var seven := five + pair;
    assert Alternating(first, 9) == seven + pair;
    OddOne(first);
    OddPair([first], pair, first);
    OddPair(three, pair, first);
    OddPair(five, pair, first);
    OddPair(seven, pair, first);
  }

  /** A decoder that hears alternating bits and expects `next`: it never holds more than one byte. */
  predicate InTurn(d: Fs20, next: bool) {
    if d.syncFound then
      && |d.data| <= 1 && |d.bits| <= 8
      && d.bits == Alternating(|d.data| == 1, |d.bits|)
      && next == ((|d.bits| % 2 == 0) == (|d.data| == 1))
    else d.data == [] && d.bits == []
  }

  lemma NextInTurn(d: Fs20, next: bool)
    requires InTurn(d, next)
    ensures InTurn(Fs20Bit(d, next), !next)
  {
    if d.syncFound {
      var first, n := |d.data| == 1, |d.bits|;
      assert d.bits + [next] == Alternating(first, n + 1);
      if n == 8 { OddAlternating(first); }
    }
  }

  /** The bit the decoder will complete next: a 0 behind a short pulse, else a 1. */
  predicate BetweenSymbols(d: Fs20) {
    InTurn(d, d.pending != Some(false))
  }

  lemma ShortInTurn(d: Fs20, next: bool, pulse: nat)
    requires InTurn(d, next) && HalfZero(pulse) && (d.pending == Some(false) ==> !next)
    ensures var e := Fs20Pulse(d, pulse);
      if d.pending == Some(false) then InTurn(e, !next) && e.pending == None
      else InTurn(e, next) && e.pending == Some(false)
  {
    NextInTurn(d.(pending := None), next);
  }

  lemma LongInTurn(d: Fs20, next: bool, pulse: nat)
    requires InTurn(d, next) && HalfOne(pulse) && (d.pending == Some(true) ==> next)
    ensures var e := Fs20Pulse(d, pulse);
      if d.pending == Some(true) then InTurn(e, !next) && e.pending == None
      else InTurn(e, next) && e.pending == Some(true)
  {
    NextInTurn(d.(pending := None), next);
  }

  lemma FourPulses20(d: Fs20, p: seq<nat>)
    requires |p| == 4
    ensures Fs20Pulses(d, p) == Fs20Pulse(Fs20Pulse(Fs20Pulse(Fs20Pulse(d, p[0]), p[1]), p[2]), p[3])
  {
    PulseSnoc(d, [], p[0]);
    PulseSnoc(d, [p[0]], p[1]);
    PulseSnoc(d, [p[0], p[1]], p[2]);
    PulseSnoc(d, [p[0], p[1], p[2]], p[3]);
    assert [] + [p[0]] == [p[0]] && [p[0]] + [p[1]] == [p[0], p[1]];
    assert [p[0], p[1]] + [p[2]] == [p[0], p[1], p[2]] && p == [p[0], p[1], p[2]] + [p[3]];
  }

  /** A symbol 1 completes a one, and a short pulse that follows a short one completes a zero. */
  lemma SymbolInTurn(d: Fs20, c: char, p: seq<nat>)
    requires BetweenSymbols(d) && JitterFs(0, 900, Symbol3(c), p)
    ensures BetweenSymbols(Fs20Pulses(d, p))
  {
    var s := Symbol3(c);
    assert NearFs(0, 900, s[0], p[0]) && NearFs(0, 900, s[1], p[1]);
    assert NearFs(0, 900, s[2], p[2]) && NearFs(0, 900, s[3], p[3]);
    FourPulses20(d, p);
    ghost var next := d.pending != Some(false);
    ShortInTurn(d, next, p[0]);
    var e := Fs20Pulse(d, p[0]);
    LongInTurn(e, true, p[1]);
    var f := Fs20Pulse(e, p[1]);
    if c == '0' {
      ShortInTurn(f, true, p[2]);
      LongInTurn(Fs20Pulse(f, p[2]), true, p[3]);
    } else {
      LongInTurn(f, true, p[2]);
      ShortInTurn(Fs20Pulse(f, p[2]), false, p[3]);
    }
  }

  lemma SplitJitterFs(hi: nat, a: seq<nat>, b: seq<nat>, got: seq<nat>)
    requires JitterFs(0, hi, a + b, got)
    ensures JitterFs(0, hi, a, got[..|a|]) && JitterFs(0, hi, b, got[|a|..]) && got == got[..|a|] + got[|a|..]
  {
    forall i | 0 <= i < |a| ensures NearFs(0, hi, a[i], got[..|a|][i]) { assert NearFs(0, hi, (a + b)[i], got[i]); }
    forall i | 0 <= i < |b| ensures NearFs(0, hi, b[i], got[|a|..][i]) {
      assert NearFs(0, hi, (a + b)[|a| + i], got[|a| + i]);
    }
  }

  lemma {:induction false} SymbolsInTurn(word: string, got: seq<nat>)
    requires JitterFs(0, 900, Symbols3(word), got)
    ensures BetweenSymbols(Fs20Pulses(RESET_FS20, got))
    decreases |word|
  {
    if word != "" {
      var n := |word| - 1;
      var front := Symbols3(word[..n]);
      SplitJitterFs(900, front, Symbol3(word[n]), got);
      var a, b := got[..|front|], got[|front|..];
      SymbolsInTurn(word[..n], a);
      SymbolInTurn(Fs20Pulses(RESET_FS20, a), word[n], b);
      Fs20Concat(RESET_FS20, a, b);
    }
  }

  lemma LastInTurn(word: string, symbols: seq<nat>, last: nat)
    requires JitterFs(0, 900, Symbols3(word), symbols) && HalfZero(last)
    ensures |Fs20Pulses(RESET_FS20, symbols + [last]).data| <= 1
  {
    SymbolsInTurn(word, symbols);
    var d := Fs20Pulses(RESET_FS20, symbols);
    PulseSnoc(RESET_FS20, symbols, last);
    ShortInTurn(d, d.pending != Some(false), last);
  }

  lemma JitterAt(sent: seq<nat>, got: seq<nat>, i: nat, x: nat)
    requires JitterFs(0, 900, sent, got) && i < |sent| && sent[i] == x
    ensures NearFs(0, 900, x, got[i])
  {
  }

  lemma SymbolsOfFrame(frame: seq<nat>, sent: seq<nat>, got: seq<nat>, symbols: seq<nat>)
    requires JitterFs(0, 900, frame, got) && |frame| == |sent| + 4 && |symbols| == |sent|
    requires forall i :: 0 <= i < |sent| ==> frame[i + 2] == sent[i]
    requires forall i :: 0 <= i < |symbols| ==> symbols[i] == got[i + 2]
    ensures JitterFs(0, 900, sent, symbols)
  {
    forall i | 0 <= i < |symbols| ensures NearFs(0, 900, sent[i], symbols[i]) {
      JitterAt(frame, got, i + 2, sent[i]);
    }
  }

  lemma PartsOfFrame(word: string)
    ensures |Frame3(word)| == 4 * |word| + 4 && Frame3(word)[4 * |word| + 2] == 300
    ensures forall i :: 0 <= i < 4 * |word| ==> Frame3(word)[i + 2] == Symbols3(word)[i]
  {
  }

  lemma LastOfFrame(frame: seq<nat>, got: seq<nat>)
    requires JitterFs(0, 900, frame, got) && |frame| >= 4 && frame[|frame| - 2] == 300
    ensures |got| == |frame| && HalfZero(got[|got| - 2])
  {
    JitterAt(frame, got, |frame| - 2, 300);
  }

  /** The body of a frame, of which the FS20 decoder never holds more than a byte. */
  lemma BodyInTurn(word: string, got: seq<nat>) returns (body: seq<nat>)
    requires JitterFs(0, 900, Frame3(word), got)
    ensures IsFrame(got, body) && |Fs20Pulses(RESET_FS20, body).data| <= 1
  {
    FsIsV3(0, 900, Frame3(word), got);
    var symbols := CutFrame3(word, got);
    BodyHeard3(word, symbols, got[|got| - 2]);
    PartsOfFrame(word);
    LastOfFrame(Frame3(word), got);
    SymbolsOfFrame(Frame3(word), Symbols3(word), got, symbols);
    LastInTurn(word, symbols, got[|got| - 2]);
    body := symbols + [got[|got| - 2]];
  }

  lemma V3IsNotFs20(t: Task, word: string, got: seq<nat>)
    requires Idle(t) && JitterFs(0, 900, Frame3(word), got)
    ensures Only20(Run(t, got).reports) == []
  {
    var body := BodyInTurn(word, got);
    FrameRun(t, got[0], got[1], body, got[|got| - 1]);
  }

  // ----- short pulses that are nothing to the FS20 decoder, or half ones as the long ones are

  /** No half zero, and nothing longer than a half one. */
  predicate NoZeroIn(p: seq<nat>) { forall i :: 0 <= i < |p| ==> p[i] <= 900 && !HalfZero(p[i]) }

  /** Only ones have been heard. */
  predicate OnesHeard(d: Fs20) {
    d.data == [] && |d.bits| <= 8 && d.pending != Some(false) && forall i :: 0 <= i < |d.bits| ==> d.bits[i]
  }

  lemma OddOnesOnly(bits: seq<bool>)
    requires |bits| == 9 && forall i :: 0 <= i < 9 ==> bits[i]
    ensures Odd(bits)
  {
    var pair, one := [true] + [true], [true];
    assert bits == (((one + pair) + pair) + pair) + pair;
    OddOne(true);
    OddTwoMore(one);
    OddTwoMore(one + pair);
    OddTwoMore((one + pair) + pair);
    OddTwoMore(((one + pair) + pair) + pair);
  }

  lemma OddTwoMore(bits: seq<bool>)
    ensures Odd(bits + ([true] + [true])) == Odd(bits)
  {
    OddConcat(bits, [true] + [true]);
    OddConcat([true], [true]);
    OddOne(true);
  }

  lemma OneHeard(d: Fs20, pulse: nat)
    requires OnesHeard(d) && pulse <= 900 && !HalfZero(pulse)
    ensures OnesHeard(Fs20Pulse(d, pulse))
  {
    if d.syncFound && d.pending == Some(true) && |d.bits| == 8 { OddOnesOnly(d.bits + [true]); }
  }

  /** Nine ones have the wrong parity: no byte is ever taken. */
  lemma {:induction false} OnesOnly(p: seq<nat>)
    requires NoZeroIn(p)
    ensures OnesHeard(Fs20Pulses(RESET_FS20, p))
    decreases |p|
  {
    if p != [] {
      OnesOnly(p[..|p| - 1]);
      OneHeard(Fs20Pulses(RESET_FS20, p[..|p| - 1]), p[|p| - 1]);
    }
  }

  // ----- ranges of the pulses

  /** The shortest and the longest short pulse, and the longest long one. */
  datatype Range = Range(lo: nat, top: nat, hi: nat)

  /** Ranges of pulses that the V3 decoder accepts. */
  predicate Proper(w: Range) { 100 < w.lo <= w.top < 600 <= w.hi }

  predicate NearIn(w: Range, sent: nat, got: nat) {
    Near3(sent, got) && (sent == 300 ==> w.lo <= got <= w.top) && (sent == 900 ==> got <= w.hi)
  }

  predicate JitterIn(w: Range, sent: seq<nat>, got: seq<nat>) {
    |sent| == |got|
    && forall i {:trigger NearIn(w, sent[i], got[i])} :: 0 <= i < |sent| ==> NearIn(w, sent[i], got[i])
  }

  /** No V3 word with pulses in these ranges is reported as FS20. */
  ghost predicate NeverFs20(w: Range) {
    forall t, word, got | Idle(t) && |word| == 32 && JitterIn(w, Frame3(word), got) ::
      Only20(Run(t, got).reports) == []
  }

  /** The long pulses are half ones, and the short ones all half zeros, all half ones or all nothing. */
  predicate Safe(w: Range) {
    w.hi <= 900 && (w.top < 250 || w.lo > 550 || (250 <= w.lo && w.top <= 550))
  }

  lemma InIsV3(w: Range, sent: seq<nat>, got: seq<nat>)
    requires JitterIn(w, sent, got)
    ensures Jitter3(sent, got)
  {
    forall i | 0 <= i < |sent| ensures Near3(sent[i], got[i]) { assert NearIn(w, sent[i], got[i]); }
  }

  lemma InIsFs(w: Range, sent: seq<nat>, got: seq<nat>)
    requires JitterIn(w, sent, got) && w.hi <= 900 && 250 <= w.lo && w.top <= 550
    ensures JitterFs(0, 900, sent, got)
  {
    forall i | 0 <= i < |sent| ensures NearFs(0, 900, sent[i], got[i]) { assert NearIn(w, sent[i], got[i]); }
  }

  lemma {:induction false} ShortOrLong(word: string, i: nat)
    requires i < 4 * |word|
    ensures Symbols3(word)[i] == 300 || Symbols3(word)[i] == 900
    decreases |word|
  {
    if i < 4 * (|word| - 1) { ShortOrLong(word[..|word| - 1], i); }
  }

  lemma JitterInAt(w: Range, sent: seq<nat>, got: seq<nat>, i: nat)
    requires JitterIn(w, sent, got) && i < |sent|
    ensures NearIn(w, sent[i], got[i])
  {
  }

  lemma NoZerosInBody(w: Range, word: string, got: seq<nat>, body: seq<nat>)
    requires JitterIn(w, Frame3(word), got) && w.hi <= 900 && (w.top < 250 || w.lo > 550) && w.top < 600
    requires |body| == 4 * |word| + 1 && forall i :: 0 <= i < |body| ==> body[i] == got[i + 2]
    ensures NoZeroIn(body)
  {
    PartsOfFrame(word);
    forall i | 0 <= i < |body| ensures body[i] <= 900 && !HalfZero(body[i]) {
      JitterInAt(w, Frame3(word), got, i + 2);
      if i < 4 * |word| { ShortOrLong(word, i); }
    }
  }

  lemma AllOnesIsNotFs20(t: Task, w: Range, word: string, got: seq<nat>)
    requires Idle(t) && JitterIn(w, Frame3(word), got)
    requires w.hi <= 900 && (w.top < 250 || w.lo > 550) && w.top < 600
    ensures Only20(Run(t, got).reports) == []
  {
    InIsV3(w, Frame3(word), got);
    var symbols := CutFrame3(word, got);
    var body := symbols + [got[|got| - 2]];
    BodyHeard3(word, symbols, got[|got| - 2]);
    NoZerosInBody(w, word, got, body);
    OnesOnly(body);
    FrameRun(t, got[0], got[1], body, got[|got| - 1]);
  }

  lemma SafeIsNotFs20(t: Task, w: Range, word: string, got: seq<nat>)
    requires Idle(t) && Proper(w) && Safe(w) && JitterIn(w, Frame3(word), got)
    ensures Only20(Run(t, got).reports) == []
  {
    if 250 <= w.lo && w.top <= 550 {
      InIsFs(w, Frame3(word), got);
      V3IsNotFs20(t, word, got);
    } else {
      AllOnesIsNotFs20(t, w, word, got);
    }
  }

  // ----- words that the FS20 decoder takes for its own

  lemma JoinJitterIn(w: Range, a: seq<nat>, b: seq<nat>, x: seq<nat>, y: seq<nat>)
    requires JitterIn(w, a, x) && JitterIn(w, b, y)
    ensures JitterIn(w, a + b, x + y)
  {
    forall i | 0 <= i < |a + b| ensures NearIn(w, (a + b)[i], (x + y)[i]) {
      if i < |a| { assert NearIn(w, a[i], x[i]); } else { assert NearIn(w, b[i - |a|], y[i - |a|]); }
    }
  }

  /** A frame with these pulses between its gaps. */
  function Around(w: Range, body: seq<nat>): seq<nat> { ([w.lo] + [9300]) + (body + [9300]) }

  lemma NearAround(w: Range, word: string, body: seq<nat>)
    requires Proper(w) && JitterIn(w, Symbols3(word) + [300], body)
    ensures JitterIn(w, Frame3(word), Around(w, body))
  {
    var opening, closing := [300, 9300], [9300];
    assert JitterIn(w, opening, [w.lo] + [9300]) by {
      assert NearIn(w, 300, w.lo) && NearIn(w, 9300, 9300);
    }
    assert JitterIn(w, closing, [9300]) by { assert NearIn(w, 9300, 9300); }
    JoinJitterIn(w, Symbols3(word) + [300], closing, body, [9300]);
    JoinJitterIn(w, opening, (Symbols3(word) + [300]) + closing, [w.lo] + [9300], body + [9300]);
    assert Frame3(word) == opening + ((Symbols3(word) + [300]) + closing);
  }

  lemma NearInBody(w: Range, word: string, body: seq<nat>)
    requires Proper(w) && JitterIn(w, Symbols3(word) + [300], body)
    ensures NoGap(body)
  {
    var sent := Symbols3(word) + [300];
    forall i | 0 <= i < |body| ensures !Gap(body[i]) {
      JitterInAt(w, sent, body, i);
      if i < 4 * |word| { ShortOrLong(word, i); }
    }
  }

  lemma AroundIsFs20(t: Task, w: Range, word: string, body: seq<nat>)
    requires Idle(t) && Proper(w) && JitterIn(w, Symbols3(word) + [300], body)
    requires |Fs20Pulses(RESET_FS20, body).data| >= 4
    ensures JitterIn(w, Frame3(word), Around(w, body))
    ensures Only20(Run(t, Around(w, body)).reports) == [Fs20Pulses(RESET_FS20, body).data]
  {
    NearAround(w, word, body);
    NearInBody(w, word, body);
    FrameRun(t, w.lo, 9300, body, 9300);
  }

  // Long pulses of 901 are zeros of their own.

  /** A symbol 1 and `n` symbols 0. */
  function LongZeros(s: nat, f: nat, n: nat): (p: seq<nat>)
    ensures |p| == 4 * n + 4
  {
    if n == 0 then [s, f, f, s] else LongZeros(s, f, n - 1) + [s, 901, s, 901]
  }

  lemma {:induction false} LongZerosNear(w: Range, s: nat, f: nat, n: nat)
    requires Proper(w) && w.lo <= s <= w.top && w.hi > 900 && 900 <= f <= 901
    ensures JitterIn(w, Symbols3(ZerosAfter('1', n + 1)), LongZeros(s, f, n))
    decreases n
  {
    var front := ZerosAfter('1', n);
    assert ZerosAfter('1', n + 1)[..n] == front;
    if n == 0 {
      assert JitterIn(w, Symbol3('1'), [s, f, f, s]) by { assert NearIn(w, 300, s) && NearIn(w, 900, f); }
      assert Symbols3(ZerosAfter('1', 1)) == [] + Symbol3('1');
      assert [] + Symbol3('1') == Symbol3('1');
    } else {
      LongZerosNear(w, s, f, n - 1);
      assert JitterIn(w, Symbol3('0'), [s, 901, s, 901]) by { assert NearIn(w, 300, s) && NearIn(w, 900, 901); }
      JoinJitterIn(w, Symbols3(front), Symbol3('0'), LongZeros(s, f, n - 1), [s, 901, s, 901]);
    }
  }

  /** How many zeros the first two symbols are. */
  function Early(s: nat): nat { if HalfZero(s) then 3 else 2 }

  lemma FirstZeros(s: nat, f: nat)
    requires 100 < s < 600 && f == if s > 550 then 901 else 900
    ensures Fs20Pulses(RESET_FS20, LongZeros(s, f, 1)) == SYNCED.(bits := Zeros(Early(s)))
  {
    var a, b := [s, f, f, s], [s, 901, s, 901];
    assert LongZeros(s, f, 1) == a + b by { assert LongZeros(s, f, 0) == a; }
    Fs20Concat(RESET_FS20, a, b);
    FourPulses20(RESET_FS20, a);
    FourPulses20(Fs20Pulses(RESET_FS20, a), b);
    if HalfZero(s) {
      assert [false] + [false] + [false] == Zeros(3);
    } else {
      assert [false] + [false] == Zeros(2);
    }
  }

  lemma TwoZeros(d: Fs20, s: nat)
    requires d.pending == None && 100 < s < 600
    ensures Fs20Pulses(d, [s, 901, s, 901]) == Fs20Bit(Fs20Bit(d, false), false)
    ensures Fs20Bit(Fs20Bit(d, false), false).pending == None
  {
    FourPulses20(d, [s, 901, s, 901]);
    var e, x := Fs20Bit(d, false), Fs20Half(None, s).1;
    assert d.(pending := x).(pending := None) == d && e.(pending := x).(pending := None) == e;
  }

  lemma ZerosSnoc(m: nat)
    ensures Fs20Bits(SYNCED, Zeros(m + 2)) == Fs20Bit(Fs20Bit(Fs20Bits(SYNCED, Zeros(m)), false), false)
  {
    FrontOfZeros(m + 2);
    FrontOfZeros(m + 1);
  }

  lemma {:induction false} LongZerosHeard(s: nat, f: nat, n: nat)
    requires 100 < s < 600 && f == (if s > 550 then 901 else 900) && n >= 1
    ensures Fs20Pulses(RESET_FS20, LongZeros(s, f, n)) == Fs20Bits(SYNCED, Zeros(Early(s) + 2 * (n - 1)))
    ensures Fs20Bits(SYNCED, Zeros(Early(s) + 2 * (n - 1))).pending == None
    decreases n
  {
    if n == 1 {
      FirstZeros(s, f);
      Collect(SYNCED, Zeros(Early(s)));
      assert [] + Zeros(Early(s)) == Zeros(Early(s));
    } else {
      var m := Early(s) + 2 * (n - 2);
      LongZerosHeard(s, f, n - 1);
      Fs20Concat(RESET_FS20, LongZeros(s, f, n - 1), [s, 901, s, 901]);
      TwoZeros(Fs20Bits(SYNCED, Zeros(m)), s);
      ZerosSnoc(m);
    }
  }

  /** Thirty symbols behind the first two are enough for six bytes. */
  lemma LongZerosAreBytes(s: nat, f: nat)
    requires 100 < s < 600 && f == if s > 550 then 901 else 900
    ensures |Fs20Pulses(RESET_FS20, LongZeros(s, f, 31) + [s]).data| >= 6
  {
    LongZerosHeard(s, f, 31);
    var d := Fs20Bits(SYNCED, Zeros(Early(s) + 60));
    if HalfZero(s) { ZerosTaken(7, 0); } else { ZerosTaken(6, 8); }
    PulseSnoc(RESET_FS20, LongZeros(s, f, 31), s);
    assert Fs20Pulse(d, s).data == d.data;
  }

  // Short pulses of two kinds: each `true` is a one and a zero, each `false` a one, or two of them.

  /** The two long pulses of a symbol 1 and the two short ones around the end of it. */
  function Unit(zero: bool, z: nat, o: nat): seq<nat> {
    if zero then [600, 600, z, z] else [600, 600, o, o]
  }

  function Units(zeros: seq<bool>, z: nat, o: nat): (p: seq<nat>)
    ensures |p| == 4 * |zeros| + 1
  {
    if zeros == [] then [z] else Units(zeros[..|zeros| - 1], z, o) + Unit(zeros[|zeros| - 1], z, o)
  }

  function Ones1(n: nat): (w: string)
    ensures |w| == n
  {
    if n == 0 then "" else Ones1(n - 1) + ['1']
  }

  /** The two kinds are on both sides of the lower or of the upper limit of a half zero. */
  predicate Kinds(z: nat, o: nat) { (z == 250 && o == 249) || (z == 550 && o == 551) }

  lemma OnesSnoc(n: nat)
    ensures Symbols3(Ones1(n + 1)) + [300] == (Symbols3(Ones1(n)) + [300]) + [900, 900, 300, 300]
  {
    assert Ones1(n + 1)[..n] == Ones1(n);
    assert [300, 900, 900, 300] + [300] == [300] + [900, 900, 300, 300];
    Reassociate(Symbols3(Ones1(n)), [300, 900, 900, 300], [300], [300], [900, 900, 300, 300]);
  }

  lemma Reassociate(x: seq<nat>, a: seq<nat>, b: seq<nat>, c: seq<nat>, d: seq<nat>)
    requires a + b == c + d
    ensures (x + a) + b == (x + c) + d
  {
    assert (x + a) + b == x + (a + b) && (x + c) + d == x + (c + d);
  }

  lemma UnitNear(w: Range, zero: bool, z: nat, o: nat)
    requires Proper(w) && w.lo <= z <= w.top && w.lo <= o <= w.top
    ensures JitterIn(w, [900, 900, 300, 300], Unit(zero, z, o)) && JitterIn(w, [300], [z])
  {
    assert NearIn(w, 900, 600) && NearIn(w, 300, z) && NearIn(w, 300, o);
  }

  lemma {:induction false} UnitsNear(w: Range, zeros: seq<bool>, z: nat, o: nat)
    requires Proper(w) && w.lo <= z <= w.top && w.lo <= o <= w.top
    ensures JitterIn(w, Symbols3(Ones1(|zeros|)) + [300], Units(zeros, z, o))
    decreases |zeros|
  {
    if zeros == [] {
      UnitNear(w, true, z, o);
      assert Symbols3(Ones1(0)) + [300] == [300];
    } else {
      var n := |zeros| - 1;
      var front, unit := Units(zeros[..n], z, o), Unit(zeros[n], z, o);
      UnitsNear(w, zeros[..n], z, o);
      UnitNear(w, zeros[n], z, o);
      JoinJitterIn(w, Symbols3(Ones1(n)) + [300], [900, 900, 300, 300], front, unit);
      OnesSnoc(n);
    }
  }

  function UnitBits(zero: bool, o: nat): seq<bool> {
    if zero then [true] + [false] else if o < 250 then [true] else [true] + [true]
  }

  function Spelled(zeros: seq<bool>, o: nat): seq<bool> {
    if zeros == [] then [] else Spelled(zeros[..|zeros| - 1], o) + UnitBits(zeros[|zeros| - 1], o)
  }

  lemma OneBit(d: Fs20, bit: bool)
    ensures Fs20Bits(d, [bit]) == Fs20Bit(d, bit)
  {
    assert [bit][..0] == [];
  }

  /** Two equal halves behind anything but a half of the other kind. */
  lemma PairHeard(d: Fs20, bit: bool, x: nat)
    requires (if bit then HalfOne(x) else HalfZero(x)) && d.pending != Some(bit)
    ensures Fs20Pulse(Fs20Pulse(d, x), x) == Fs20Bit(d.(pending := None), bit)
    ensures Fs20Bit(d.(pending := None), bit).pending == None
  {
    assert d.(pending := Some(bit)).(pending := None) == d.(pending := None);
  }

  lemma UnitHeard(d: Fs20, zero: bool, z: nat, o: nat)
    requires d.pending != Some(true) && Kinds(z, o)
    ensures Fs20Pulses(d, Unit(zero, z, o)) == Fs20Bits(d.(pending := None), UnitBits(zero, o))
    ensures Fs20Pulses(d, Unit(zero, z, o)).pending == None
  {
    var c := d.(pending := None);
    var e := Fs20Bit(c, true);
    FourPulses20(d, Unit(zero, z, o));
    PairHeard(d, true, 600);
    OneBit(c, true);
    assert e.(pending := None) == e;
    if zero {
      PairHeard(e, false, z);
      BitsConcat(c, [true], [false]);
      OneBit(e, false);
    } else if o == 551 {
      PairHeard(e, true, o);
      BitsConcat(c, [true], [true]);
      OneBit(e, true);
    }
  }

  lemma {:induction false} UnitsHeard(zeros: seq<bool>, z: nat, o: nat)
    requires Kinds(z, o)
    ensures var d := Fs20Pulses(RESET_FS20, Units(zeros, z, o));
      d.pending != Some(true) && d.(pending := None) == Fs20Bits(RESET_FS20, Spelled(zeros, o))
    decreases |zeros|
  {
    if zeros == [] {
      assert [z][..0] == [];
    } else {
      var n := |zeros| - 1;
      var front, unit := Units(zeros[..n], z, o), Unit(zeros[n], z, o);
      UnitsHeard(zeros[..n], z, o);
      Fs20Concat(RESET_FS20, front, unit);
      var d := Fs20Pulses(RESET_FS20, front);
      UnitHeard(d, zeros[n], z, o);
      BitsConcat(RESET_FS20, Spelled(zeros[..n], o), UnitBits(zeros[n], o));
    }
  }

  // The bits of the two words.

  lemma {:induction false} SpelledConcat(a: seq<bool>, b: seq<bool>, o: nat)
    ensures Spelled(a + b, o) == Spelled(a, o) + Spelled(b, o)
    decreases |b|
  {
    if b == [] {
      assert a + b == a;
    } else {
      SpelledConcat(a, b[..|b| - 1], o);
      FrontOfConcat(a, b);
    }
  }

  /** Eight times a one and a zero, and two ones. */
  const TURN: seq<bool> :=
    [true, false, true, false, true, false, true, false, true]
    + [false, true, false, true, false, true, false, true, true]

  const FOUR: seq<bool> := [true, true, true, true]

  lemma SpelledOne(zero: bool, o: nat)
    ensures Spelled([zero], o) == UnitBits(zero, o)
  {
    assert [zero][..0] == [];
  }

  lemma SpelledFour(o: nat)
    ensures Spelled(FOUR, o) == [true, false, true, false, true, false, true, false]
  {
    var two := [true] + [true];
    SpelledOne(true, o);
    SpelledConcat([true], [true], o);
    SpelledConcat(two, two, o);
    assert two + two == FOUR;
    Doubled([true], [false]);
  }

  lemma Doubled(a: seq<bool>, b: seq<bool>)
    requires a == [true] && b == [false]
    ensures ((a + b) + (a + b)) + ((a + b) + (a + b)) == [true, false, true, false, true, false, true, false]
  {
  }

  /** The pattern of units that spells a turn. */
  function Pattern(o: nat): seq<bool> { (FOUR + FOUR) + if o == 249 then [false] + [false] else [false] }

  lemma SpelledTurn(o: nat)
    requires o == 249 || o == 551
    ensures Spelled(Pattern(o), o) == TURN
  {
    SpelledFour(o);
    SpelledOne(false, o);
    SpelledConcat([false], [false], o);
    SpelledConcat(FOUR, FOUR, o);
    SpelledConcat(FOUR + FOUR, if o == 249 then [false] + [false] else [false], o);
  }

  lemma NextBit(v: nat, k: nat, bit: bool)
    ensures var w := v * 2 + if bit then 1 else 0;
      BitsOf(w, k + 1) == BitsOf(v, k) + [bit] && Odd(BitsOf(w, k + 1)) == (Odd(BitsOf(v, k)) != bit)
  {
    PushBit(v, k, bit);
    assert (BitsOf(v, k) + [bit])[..k] == BitsOf(v, k);
  }

  lemma BitsOf55()
    ensures BitsOf(0x55, 8) == [false, true, false, true, false, true, false, true] && Odd(BitsOf(0x55, 8)) == false
  {
    NextBit(0, 0, false);
    NextBit(0, 1, true);
    NextBit(1, 2, false);
    NextBit(2, 3, true);
    NextBit(5, 4, false);
    NextBit(10, 5, true);
    NextBit(21, 6, false);
    NextBit(42, 7, true);
  }

  lemma Group55()
    ensures Group(0x55) == [false, true, false, true, false, true, false, true, false]
  {
    BitsOf55();
  }

  lemma BitsOfAB()
    ensures BitsOf(0xAB, 8) == [true, false, true, false, true, false, true, true] && Odd(BitsOf(0xAB, 8)) == true
  {
    NextBit(0, 0, true);
    NextBit(1, 1, false);
    NextBit(2, 2, true);
    NextBit(5, 3, false);
    NextBit(10, 4, true);
    NextBit(21, 5, false);
    NextBit(42, 6, true);
    NextBit(85, 7, true);
  }

  lemma GroupAB()
    ensures Group(0xAB) == [true, false, true, false, true, false, true, true, true]
  {
    BitsOfAB();
  }

  lemma GroupsSnoc(bytes: seq<byte>, b: byte)
    ensures Groups(bytes + [b]) == Groups(bytes) + Group(b)
  {
    assert (bytes + [b])[..|bytes|] == bytes;
  }

  const PAIR: seq<byte> := [0x55] + [0xAB]

  lemma GroupsOfPair()
    ensures Groups(PAIR) == Group(0x55) + Group(0xAB)
  {
    var one: seq<byte> := [0x55];
    GroupsSnoc(one, 0xAB);
    GroupsSnoc([], 0x55);
    assert [] + one == one;
  }

  lemma TurnShifted(g: seq<bool>, h: seq<bool>)
    requires g == [false, true, false, true, false, true, false, true, false]
    requires h == [true, false, true, false, true, false, true, true, true]
    ensures TURN + [true] == [true] + (g + h)
  {
    var a: seq<bool> := [true, false, true, false, true, false, true, false, true];
    var b: seq<bool> := [false, true, false, true, false, true, false, true, true];
    assert [true] + g == a + [false] && [false] + h == b + [true];
    ShiftTwo(a, b, [false], [true], g, h);
  }

  /** Behind its first one a turn spells two groups, the last bit of which is the first one of the next turn. */
  lemma TurnIsPair()
    ensures TURN + [true] == [true] + Groups(PAIR)
  {
    GroupsOfPair();
    Group55();
    GroupAB();
    TurnShifted(Group(0x55), Group(0xAB));
  }

  lemma ShiftTwo(a: seq<bool>, b: seq<bool>, f: seq<bool>, t: seq<bool>, g: seq<bool>, h: seq<bool>)
    requires t + g == a + f && f + h == b + t
    ensures (a + b) + t == t + (g + h)
  {
    assert (a + b) + t == a + (b + t) && a + (f + h) == (a + f) + h && (t + g) + h == t + (g + h);
  }

  lemma ShiftThrice(t: seq<bool>, x: seq<bool>, g: seq<bool>, rest: seq<bool>)
    requires t + x == x + g
    ensures ((t + t) + t) + (x + rest) == x + (((g + g) + g) + rest)
  {
    var a, b, c := t + x, (t + t) + x, ((t + t) + t) + x;
    assert b == t + a && b == a + g && b == (x + g) + g;
    assert c == t + b && c == (t + x) + (g + g) && c == (x + g) + (g + g);
    assert ((t + t) + t) + (x + rest) == c + rest;
  }

  const SIX: seq<byte> := (PAIR + PAIR) + PAIR

  lemma GroupsOfSix()
    ensures Groups(SIX) == (Groups(PAIR) + Groups(PAIR)) + Groups(PAIR)
  {
    GroupsConcat(PAIR, PAIR);
    GroupsConcat(PAIR + PAIR, PAIR);
  }

  lemma TurnsHeard(rest: seq<bool>)
    ensures Fs20Bits(RESET_FS20, ((TURN + TURN) + TURN) + ([true] + rest)) == Fs20Bits(SYNCED.(data := SIX), rest)
  {
    TurnIsPair();
    ShiftThrice(TURN, [true], Groups(PAIR), rest);
    GroupsOfSix();
    BitsConcat(RESET_FS20, [true], Groups(SIX) + rest);
    OneBit(RESET_FS20, true);
    BitsConcat(SYNCED, Groups(SIX), rest);
    GroupsHeard(SYNCED, SIX);
    assert Kept(SIX) == SIX;
  }

  /** Three turns and a few symbols more, 32 in all. */
  function Mixed(o: nat): (zeros: seq<bool>)
    requires o == 249 || o == 551
    ensures |zeros| == 32
  {
    ((Pattern(o) + Pattern(o)) + Pattern(o)) + Rest(o)
  }

  function Rest(o: nat): seq<bool> { if o == 249 then [false] + [false] else [true] + FOUR }

  lemma SpelledMixed(o: nat)
    requires o == 249 || o == 551
    ensures Spelled(Mixed(o), o) == ((TURN + TURN) + TURN) + Spelled(Rest(o), o)
  {
    var p := Pattern(o);
    SpelledTurn(o);
    SpelledConcat(p, p, o);
    SpelledConcat(p + p, p, o);
    SpelledConcat((p + p) + p, Rest(o), o);
  }

  lemma TailShifted(g: seq<bool>)
    requires g == [false, true, false, true, false, true, false, true, false]
    ensures ([true] + [false]) + [true, false, true, false, true, false, true, false] == [true] + g
  {
  }

  lemma SpelledRest(o: nat)
    requires o == 249 || o == 551
    ensures Spelled(Rest(o), o) == [true] + if o == 249 then [true] else Group(0x55)
  {
    if o == 249 {
      SpelledOne(false, o);
      SpelledConcat([false], [false], o);
    } else {
      SpelledOne(true, o);
      SpelledFour(o);
      SpelledConcat([true], FOUR, o);
      Group55();
      TailShifted(Group(0x55));
    }
  }

  /** Words of symbols 1 with short pulses of both kinds spell six or seven bytes. */
  lemma MixedAreBytes(z: nat, o: nat)
    requires Kinds(z, o)
    ensures |Fs20Pulses(RESET_FS20, Units(Mixed(o), z, o)).data| >= 6
  {
    UnitsHeard(Mixed(o), z, o);
    SpelledMixed(o);
    SpelledRest(o);
    var d := SYNCED.(data := SIX);
    if o == 249 {
      TurnsHeard([true]);
      OneBit(d, true);
    } else {
      TurnsHeard(Group(0x55));
      GroupHeard(d, Group(0x55));
      GroupIsEven(0x55);
    }
  }

  // ----- exactly when

  /** Ranges that are not safe: a word, and what may be received of it and is reported as FS20. */
  lemma V3TakenForFs20(t: Task, w: Range) returns (word: string, got: seq<nat>)
    requires Idle(t) && Proper(w) && !Safe(w)
    ensures |word| == 32 && JitterIn(w, Frame3(word), got)
    ensures |Only20(Run(t, got).reports)| == 1 && |Only20(Run(t, got).reports)[0]| >= 6
  {
    var body;
    if w.hi > 900 {
      var s, f := w.lo, if w.lo > 550 then 901 else 900;
      word, body := ZerosAfter('1', 32), LongZeros(s, f, 31) + [s];
      LongZerosNear(w, s, f, 31);
      JoinJitterIn(w, Symbols3(word), [300], LongZeros(s, f, 31), [s]) by {
        UnitNear(w, true, s, s);
      }
      LongZerosAreBytes(s, f);
    } else {
      var z, o := if w.lo < 250 then 250 else 550, if w.lo < 250 then 249 else 551;
      word, body := Ones1(32), Units(Mixed(o), z, o);
      UnitsNear(w, Mixed(o), z, o);
      MixedAreBytes(z, o);
    }
    got := Around(w, body);
    AroundIsFs20(t, w, word, body);
  }

  /**
   V3 words are safe from being reported as FS20 exactly if their long pulses are at most 900,
   and the short ones all below 250, all from 250 to 550, or all above 550.
   */
  lemma NeverFs20Iff(w: Range)
    requires Proper(w)
    ensures NeverFs20(w) <==> Safe(w)
  {
    if Safe(w) {
      forall t, word, got | Idle(t) && |word| == 32 && JitterIn(w, Frame3(word), got)
        ensures Only20(Run(t, got).reports) == []
      {
        SafeIsNotFs20(t, w, word, got);
      }
    } else {
      var word, got := V3TakenForFs20(QUIET, w);
      assert Only20(Run(QUIET, got).reports) != [];
    }
  }

  /** In safe ranges, and with long pulses of more than 800, a V3 word makes one report, the right one. */
  lemma V3Alone(t: Task, w: Range, word: string, got: seq<nat>)
    requires Idle(t) && |word| == 32 && Proper(w) && Safe(w)
    requires JitterIn(w, Frame3(word), got) && LongFrom(801, Frame3(word), got)
    ensures Run(t, got).reports == [ITV3(Word3(word))]
  {
    InIsV3(w, Frame3(word), got);
    LongIsBoth(801, Frame3(word), got);
    V3IsNeverV1(t, word, got);
    SafeIsNotFs20(t, w, word, got);
    OnlyThese(Run(t, got).reports, Word3(word));
  }

  /** A report is of one of the three kinds. */
  lemma {:induction false} OnlyThese(r: seq<Report>, word: string)
    requires Only20(r) == [] && Only1(r) == []
    ensures Only3(r) == [word] ==> r == [ITV3(word)]
    ensures Only3(r) == [] ==> r == []
    decreases |r|
  {
    if r != [] {
      assert !r[0].FS20? && !r[0].ITV1?;
      assert Only3(r) == [r[0].word] + Only3(r[1..]);
      assert Only3(r)[0] == r[0].word && Only3(r)[1..] == Only3(r[1..]);
      OnlyThese(r[1..], word);
    }
  }
}
