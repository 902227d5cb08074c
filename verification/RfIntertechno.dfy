/**
 Intertechno signals: what the V1 and V3 decoders make of the words sent by
 cc1101.c, and that neither signal passes for one of another kind.
 */
module RfIntertechno {
  import opened Common
  import opened SlowRf
  import opened RfSender
  import opened RfRoundTrip

  // ----- V1

  predicate Near1(sent: nat, got: nat) {
    if sent == 420 then 100 <= got <= 800 else if sent == 1260 then 800 < got <= 2200 else got > 4000
  }

  predicate Jitter1(sent: seq<nat>, got: seq<nat>) {
    |sent| == |got| && forall i :: 0 <= i < |sent| ==> Near1(sent[i], got[i])
  }

  /** The character that stands for a symbol: everything but 0 and 1 is sent as F. */
  function Norm1(c: char): char { if c == '0' || c == '1' then c else 'F' }

  function Word1(word: string): (w: string)
    ensures |w| == |word|
  {
    if word == "" then "" else Word1(word[..|word| - 1]) + [Norm1(word[|word| - 1])]
  }

  /** What the decoder holds: a thirteenth symbol throws everything away. */
  function Held1(word: string): (w: string)
    ensures |w| <= 12
  {
    if word == "" then ""
    else
      var held := Held1(word[..|word| - 1]);
      if |held| < 12 then held + [Norm1(word[|word| - 1])] else ""
  }

  lemma CountOn13(n: nat)
    ensures (n + 1) % 13 == if n % 13 == 12 then 0 else n % 13 + 1
  {
  }

  lemma HeldStep(word: string, n: nat)
    requires |word| == n + 1
    requires |Held1(word[..n])| == n % 13 && Held1(word[..n]) == Word1(word[..n])[n - n % 13..]
    ensures |Held1(word)| == (n + 1) % 13 && Held1(word) == Word1(word)[n + 1 - (n + 1) % 13..]
  {
    CountOn13(n);
    assert Word1(word) == Word1(word[..n]) + [Norm1(word[n])];
  }

  lemma {:induction false} HeldIsTheRest(word: string)
    ensures |Held1(word)| == |word| % 13
    ensures Held1(word) == Word1(word)[|word| - |word| % 13..]
    decreases |word|
  {
    if word != "" {
      HeldIsTheRest(word[..|word| - 1]);
      HeldStep(word, |word| - 1);
    }
  }

  lemma PulseSnoc1(d: It1, front: seq<nat>, x: nat)
    ensures It1Pulses(d, front + [x]) == It1Pulse(It1Pulses(d, front), x)
  {
    FrontOfSnoc(front, x);
  }

  lemma ThreePulses1(d: It1, a: nat, b: nat, c: nat)
    ensures It1Pulses(d, [a, b, c]) == It1Pulse(It1Pulse(It1Pulse(d, a), b), c)
  {
    PulseSnoc1(d, [], a);
    PulseSnoc1(d, [a], b);
    PulseSnoc1(d, [a, b], c);
    assert [] + [a] == [a] && [a] + [b] == [a, b] && [a, b] + [c] == [a, b, c];
  }

  lemma StartPulse1(s: string, r: seq<nat>, x: nat)
    requires |r| < 3
    ensures It1Pulse(It1(s, r), x) == It1(s, r + [x])
  {
  }

  lemma LastPulse1(s: string, r: seq<nat>, x: nat, p: seq<nat>)
    requires |r| == 3 && p == r + [x]
    ensures It1Pulse(It1(s, r), x)
         == match It1Symbol(p)
            case Some(c) => if |s| < 12 then It1(s + [c], []) else RESET_IT1
            case None => if s == "" then It1("", p) else RESET_IT1
  {
  }

  lemma FourPulses1(s: string, p: seq<nat>)
    requires |p| == 4
    ensures It1Pulses(It1(s, []), p)
         == match It1Symbol(p)
            case Some(c) => if |s| < 12 then It1(s + [c], []) else RESET_IT1
            case None => if s == "" then It1("", p) else RESET_IT1
  {
    var d, a, b, c, x := It1(s, []), p[0], p[1], p[2], p[3];
    assert [] + [a] == [a] && [a] + [b] == [a, b] && [a, b] + [c] == [a, b, c] && p == [a, b, c] + [x];
    ThreePulses1(d, a, b, c);
    StartPulse1(s, [], a);
    StartPulse1(s, [a], b);
    StartPulse1(s, [a, b], c);
    PulseSnoc1(d, [a, b, c], x);
    LastPulse1(s, [a, b, c], x, p);
  }

  lemma SymbolHeard1(c: char, p: seq<nat>)
    requires Jitter1(Symbol1(c), p)
    ensures It1Symbol(p) == Some(Norm1(c)) && NoGap(p)
  {
    var s := Symbol1(c);
    assert Near1(s[0], p[0]) && Near1(s[1], p[1]) && Near1(s[2], p[2]) && Near1(s[3], p[3]);
  }

  lemma {:induction false} It1Concat(d: It1, a: seq<nat>, b: seq<nat>)
    ensures It1Pulses(d, a + b) == It1Pulses(It1Pulses(d, a), b)
    decreases |b|
  {
    if b == [] {
      assert a + b == a;
    } else {
      It1Concat(d, a, b[..|b| - 1]);
      FrontOfConcat(a, b);
    }
  }

  lemma SplitJitter1(a: seq<nat>, b: seq<nat>, got: seq<nat>)
    requires Jitter1(a + b, got)
    ensures Jitter1(a, got[..|a|]) && Jitter1(b, got[|a|..]) && got == got[..|a|] + got[|a|..]
  {
    forall i | 0 <= i < |a| ensures Near1(a[i], got[..|a|][i]) { assert (a + b)[i] == a[i]; }
    forall i | 0 <= i < |b| ensures Near1(b[i], got[|a|..][i]) { assert (a + b)[|a| + i] == b[i]; }
  }

  lemma NoGapConcat(a: seq<nat>, b: seq<nat>)
    requires NoGap(a) && NoGap(b)
    ensures NoGap(a + b)
  {
  }

  lemma {:induction false} SymbolsHeard1(word: string, got: seq<nat>)
    requires Jitter1(Symbols1(word), got)
    ensures It1Pulses(RESET_IT1, got) == It1(Held1(word), []) && NoGap(got)
    decreases |word|
  {
    if word != "" {
      var n := |word| - 1;
      var front := Symbols1(word[..n]);
      SplitJitter1(front, Symbol1(word[n]), got);
      var a, b := got[..|front|], got[|front|..];
      SymbolsHeard1(word[..n], a);
      SymbolHeard1(word[n], b);
      It1Concat(RESET_IT1, a, b);
      FourPulses1(Held1(word[..n]), b);
      NoGapConcat(a, b);
    }
  }

  lemma CutFrame1(symbols: seq<nat>, got: seq<nat>, n: nat)
    requires |symbols| == n && Jitter1(symbols + [420, 13020], got)
    ensures got == got[..n + 1] + [got[n + 1]] && Gap(got[n + 1])
    ensures got[..n + 1][..n] == got[..n] && Jitter1(symbols, got[..n]) && Short1(got[n])
  {
    var all := symbols + [420, 13020];
    assert all[n] == 420 && all[n + 1] == 13020;
    assert Near1(all[n], got[n]) && Near1(all[n + 1], got[n + 1]);
    SplitJitter1(symbols, [420, 13020], got);
  }

  /** The pulses of a frame before its gap: the symbols and the high pulse of the gap. */
  lemma BodyHeard1(word: string, body: seq<nat>)
    requires |body| == 4 * |word| + 1
    requires Jitter1(Symbols1(word), body[..4 * |word|]) && Short1(body[4 * |word|])
    ensures NoGap(body) && It1Pulses(RESET_IT1, body).s == Held1(word)
  {
    SymbolsHeard1(word, body[..4 * |word|]);
    NoGapSnoc(body, 4 * |word|);
  }

  /** Which words are complete, and what is then held. */
  lemma HeldTwelve(word: string)
    ensures |Held1(word)| == 12 <==> |word| % 13 == 12
    ensures |word| % 13 == 12 ==> Held1(word) == Word1(word)[|word| - 12..]
  {
    HeldIsTheRest(word);
  }

  /**
   The V1 decoder reports a word exactly when its length is 12 modulo 13, and
   then its last twelve symbols; in particular every word of twelve symbols.
   */
  lemma V1Reports(t: Task, word: string, got: seq<nat>)
    requires t.it1 == RESET_IT1 && Jitter1(Frame1(word), got)
    ensures Run(t, got).task == AfterGap(got[|got| - 1])
    ensures Only1(Run(t, got).reports)
         == if |word| % 13 == 12 then [Word1(word)[|word| - 12..]] else []
  {
    var n := 4 * |word|;
    CutFrame1(Symbols1(word), got, n);
    BodyHeard1(word, got[..n + 1]);
    OnlyToGap(t, got[..n + 1], got[n + 1]);
    HeldTwelve(word);
  }

  /** How much the FS20 decoder can have collected: a half bit counts one, a bit two. */
  function HalfWeight(d: Fs20): nat { 2 * Weight(d) + if d.pending.Some? then 1 else 0 }

  /** A long pulse may be a whole bit, a short one at most half of one. */
  function Worth(pulse: nat): nat { if pulse > 800 then 2 else 1 }

  function TotalWorth(p: seq<nat>): nat {
    if p == [] then 0 else TotalWorth(p[..|p| - 1]) + Worth(p[|p| - 1])
  }

  lemma {:induction false} WeightOfPulses(p: seq<nat>)
    ensures Tidy(Fs20Pulses(RESET_FS20, p)) && HalfWeight(Fs20Pulses(RESET_FS20, p)) <= TotalWorth(p)
    decreases |p|
  {
    if p != [] {
      var n := |p| - 1;
      var d := Fs20Pulses(RESET_FS20, p[..n]);
      WeightOfPulses(p[..n]);
      var (bit, pending) := Fs20Half(d.pending, p[n]);
      if bit.Some? { OneBitWeighsOne(d.(pending := None), bit.value); }
    }
  }

  lemma {:induction false} WorthConcat(a: seq<nat>, b: seq<nat>)
    ensures TotalWorth(a + b) == TotalWorth(a) + TotalWorth(b)
    decreases |b|
  {
    if b == [] {
      assert a + b == a;
    } else {
      WorthConcat(a, b[..|b| - 1]);
      FrontOfConcat(a, b);
    }
  }

  lemma WorthOfOne(pulse: nat)
    ensures TotalWorth([pulse]) == Worth(pulse)
  {
    assert [pulse][..0] == [];
  }

  lemma WorthOfFour(p: seq<nat>)
    requires |p| == 4
    ensures TotalWorth(p) == Worth(p[0]) + Worth(p[1]) + Worth(p[2]) + Worth(p[3])
  {
    WorthConcat([p[0], p[1], p[2]], [p[3]]);
    WorthConcat([p[0], p[1]], [p[2]]);
    WorthConcat([p[0]], [p[1]]);
    WorthOfOne(p[0]);
    WorthOfOne(p[1]);
    WorthOfOne(p[2]);
    WorthOfOne(p[3]);
    assert [p[0], p[1], p[2]] == [p[0], p[1]] + [p[2]] && [p[0], p[1]] == [p[0]] + [p[1]];
    assert p == [p[0], p[1], p[2]] + [p[3]];
  }

  lemma {:induction false} WorthOfSymbols1(word: string, got: seq<nat>)
    requires Jitter1(Symbols1(word), got)
    ensures TotalWorth(got) == 6 * |word|
    decreases |word|
  {
    if word != "" {
      var n := |word| - 1;
      var front, s := Symbols1(word[..n]), Symbol1(word[n]);
      SplitJitter1(front, s, got);
      var a, b := got[..|front|], got[|front|..];
      WorthOfSymbols1(word[..n], a);
      WorthConcat(a, b);
      assert Near1(s[0], b[0]) && Near1(s[1], b[1]) && Near1(s[2], b[2]) && Near1(s[3], b[3]);
      WorthOfFour(b);
    }
  }

  /** The V3 decoder needs four pulses for a symbol. */
  lemma {:induction false} FourForOne(d: It3, p: seq<nat>)
    requires |d.pulses| < 4
    ensures |It3Pulses(d, p).pulses| < 4
    ensures 4 * |It3Pulses(d, p).s| + |It3Pulses(d, p).pulses| <= 4 * |d.s| + |d.pulses| + |p|
    decreases |p|
  {
    if p != [] { FourForOne(d, p[..|p| - 1]); }
  }

  /** Nothing has been collected since the last gap. */
  predicate Idle(t: Task) {
    t.fs == RESET_FS20 && t.it1 == RESET_IT1 && t.it3.s == "" && t.it3.pulses == []
  }

  /** A frame of twelve symbols is too short for the other decoders. */
  lemma TooShortForOthers(word: string, d: It3, body: seq<nat>)
    requires |word| == 12 && |body| == 49 && d.s == "" && d.pulses == []
    requires Jitter1(Symbols1(word), body[..48]) && Short1(body[48])
    ensures |Fs20Pulses(RESET_FS20, body).data| < 4 && |It3Pulses(d, body).s| < 32
  {
    WorthOfSymbols1(word, body[..48]);
    WorthConcat(body[..48], [body[48]]);
    WorthOfOne(body[48]);
    assert body == body[..48] + [body[48]];
    WeightOfPulses(body);
    FourForOne(d, body);
  }

  lemma OneReport1(t: Task, p: seq<nat>, gap: nat)
    requires NoGap(p) && Gap(gap)
    requires |Fs20Pulses(t.fs, p).data| < 4 && |It1Pulses(t.it1, p).s| == 12 && |It3Pulses(t.it3, p).s| < 32
    ensures Run(t, p + [gap]) == Stepped(AfterGap(gap), [ITV1(It1Pulses(t.it1, p).s)])
  {
    RunToGap(t, p, gap);
  }

  lemma HeldWord(word: string)
    requires |word| == 12
    ensures Held1(word) == Word1(word)
  {
    HeldIsTheRest(word);
    assert Word1(word)[0..] == Word1(word);
  }

  /** A word of twelve symbols makes exactly one report, and no FS20 or V3 report beside it. */
  lemma V1Alone(t: Task, word: string, got: seq<nat>)
    requires Idle(t) && |word| == 12 && Jitter1(Frame1(word), got)
    ensures Run(t, got).reports == [ITV1(Word1(word))]
    ensures Idle(Run(t, got).task)
  {
    CutFrame1(Symbols1(word), got, 48);
    var body, gap := got[..49], got[49];
    assert got == body + [gap];
    BodyHeard1(word, body);
    TooShortForOthers(word, t.it3, body);
    HeldWord(word);
    OneReport1(t, body, gap);
  }

  lemma {:induction false} V1Repetitions(t: Task, word: string, n: nat, got: seq<nat>)
    requires Idle(t) && |word| == 12 && Jitter1(Repeat(Frame1(word), n), got)
    ensures Idle(Run(t, got).task)
    ensures Run(t, got).reports == Repeat([ITV1(Word1(word))], n)
    decreases n
  {
    if n > 0 {
      var front := Repeat(Frame1(word), n - 1);
      SplitJitter1(front, Frame1(word), got);
      var a, b := got[..|front|], got[|front|..];
      V1Repetitions(t, word, n - 1, a);
      V1Alone(Run(t, a).task, word, b);
      RunConcat(t, a, b);
    }
  }

  // ----- V3

  predicate Near3(sent: nat, got: nat) {
    if sent == 300 then 100 < got < 600 else if sent == 900 then 600 <= got < 1500 else 8000 < got < 11000
  }

  predicate Jitter3(sent: seq<nat>, got: seq<nat>) {
    |sent| == |got| && forall i :: 0 <= i < |sent| ==> Near3(sent[i], got[i])
  }

  /** Everything but 0 is sent as 1. */
  function Word3(word: string): (w: string)
    ensures |w| == |word|
  {
    if word == "" then "" else Word3(word[..|word| - 1]) + [if word[|word| - 1] == '0' then '0' else '1']
  }

  /** The decoder stops listening after 32 symbols. */
  function Held3(word: string): It3 {
    It3(Word3(word)[..Min(|word|, 32)], [], |word| < 32)
  }

  const READY3: It3 := It3("", [], true)

  lemma PulseSnoc3(d: It3, front: seq<nat>, x: nat)
    ensures It3Pulses(d, front + [x]) == It3Pulse(It3Pulses(d, front), x)
  {
    FrontOfSnoc(front, x);
  }

  lemma ThreePulses3(d: It3, a: nat, b: nat, c: nat)
    ensures It3Pulses(d, [a, b, c]) == It3Pulse(It3Pulse(It3Pulse(d, a), b), c)
  {
    PulseSnoc3(d, [], a);
    PulseSnoc3(d, [a], b);
    PulseSnoc3(d, [a, b], c);
    assert [] + [a] == [a] && [a] + [b] == [a, b] && [a, b] + [c] == [a, b, c];
  }

  lemma FourPulses3(s: string, p: seq<nat>)
    requires |p| == 4
    ensures It3Pulses(It3(s, [], true), p)
         == match It3Symbol(p)
            case Some(c) => It3(s + [c], [], |s| + 1 != 32)
            case None => It3(s, [], false)
  {
    ThreePulses3(It3(s, [], true), p[0], p[1], p[2]);
    PulseSnoc3(It3(s, [], true), [p[0], p[1], p[2]], p[3]);
    assert p == [p[0], p[1], p[2]] + [p[3]];
  }

  lemma {:induction false} DeafHears(d: It3, p: seq<nat>)
    requires !d.syncFound
    ensures It3Pulses(d, p) == d
    decreases |p|
  {
    if p != [] { DeafHears(d, p[..|p| - 1]); }
  }

  lemma SymbolHeard3(c: char, p: seq<nat>)
    requires Jitter3(Symbol3(c), p)
    ensures It3Symbol(p) == Some(if c == '0' then '0' else '1') && NoGap(p)
  {
    var s := Symbol3(c);
    assert Near3(s[0], p[0]) && Near3(s[1], p[1]) && Near3(s[2], p[2]) && Near3(s[3], p[3]);
  }

  lemma {:induction false} It3Concat(d: It3, a: seq<nat>, b: seq<nat>)
    ensures It3Pulses(d, a + b) == It3Pulses(It3Pulses(d, a), b)
    decreases |b|
  {
    if b == [] {
      assert a + b == a;
    } else {
      It3Concat(d, a, b[..|b| - 1]);
      FrontOfConcat(a, b);
    }
  }

  lemma SplitJitter3(a: seq<nat>, b: seq<nat>, got: seq<nat>)
    requires Jitter3(a + b, got)
    ensures Jitter3(a, got[..|a|]) && Jitter3(b, got[|a|..]) && got == got[..|a|] + got[|a|..]
  {
    forall i | 0 <= i < |a| ensures Near3(a[i], got[..|a|][i]) { assert (a + b)[i] == a[i]; }
    forall i | 0 <= i < |b| ensures Near3(b[i], got[|a|..][i]) { assert (a + b)[|a| + i] == b[i]; }
  }

  lemma HeldSnoc(word: string)
    requires word != ""
    ensures var n, c := |word| - 1, if word[|word| - 1] == '0' then '0' else '1';
      Held3(word) == if n < 32 then It3(Held3(word[..n]).s + [c], [], n + 1 != 32) else Held3(word[..n])
  {
    var n := |word| - 1;
    assert Word3(word)[..n] == Word3(word[..n]);
    if n >= 32 { assert Word3(word)[..32] == Word3(word[..n])[..32]; }
  }

  lemma {:induction false} SymbolsHeard3(word: string, got: seq<nat>)
    requires Jitter3(Symbols3(word), got)
    ensures It3Pulses(READY3, got) == Held3(word) && NoGap(got)
    decreases |word|
  {
    if word != "" {
      var n := |word| - 1;
      var front := Symbols3(word[..n]);
      SplitJitter3(front, Symbol3(word[n]), got);
      var a, b := got[..|front|], got[|front|..];
      SymbolsHeard3(word[..n], a);
      SymbolHeard3(word[n], b);
      It3Concat(READY3, a, b);
      HeldSnoc(word);
      if n < 32 {
        FourPulses3(Held3(word[..n]).s, b);
      } else {
        DeafHears(Held3(word[..n]), b);
      }
      NoGapConcat(a, b);
    }
  }

  // ----- V3 frames: a leading pulse and gap, the symbols, a closing pulse and gap

  /** The parts of what is received of a frame. */
  ghost predicate Parts3(word: string, got: seq<nat>, symbols: seq<nat>) {
    && |got| == 4 * |word| + 4
    && got == ([got[0]] + [got[1]]) + ((symbols + [got[|got| - 2]]) + [got[|got| - 1]])
    && |symbols| == 4 * |word| && Jitter3(Symbols3(word), symbols)
    && Short3(got[0]) && 8000 < got[1] < 11000 && Short3(got[|got| - 2]) && 8000 < got[|got| - 1] < 11000
  }

  lemma CutFrame3(word: string, got: seq<nat>) returns (symbols: seq<nat>)
    requires Jitter3(Frame3(word), got)
    ensures Parts3(word, got, symbols)
    ensures forall i :: 0 <= i < |symbols| ==> symbols[i] == got[i + 2]
  {
    var n := 4 * |word|;
    var s := Symbols3(word);
    var all := [300, 9300] + s + [300, 9300];
    assert all[0] == 300 && all[1] == 9300 && all[n + 2] == 300 && all[n + 3] == 9300;
    assert Near3(all[0], got[0]) && Near3(all[1], got[1]);
    assert Near3(all[n + 2], got[n + 2]) && Near3(all[n + 3], got[n + 3]);
    symbols := got[2..n + 2];
    forall i | 0 <= i < n ensures Near3(s[i], symbols[i]) { assert all[i + 2] == s[i]; }
  }

  /** The leading gap: nothing is reported, and the V3 decoder listens. */
  lemma Opening(t: Task, pulse: nat, gap: nat)
    requires Idle(t) && Short3(pulse) && 8000 < gap < 11000
    ensures Run(t, [pulse] + [gap]) == Stepped(Task(RESET_FS20, RESET_IT1, READY3), [])
  {
    assert [pulse][..0] == [];
    FourForOne(t.it3, [pulse]);
    assert |It1Pulses(t.it1, [pulse]).s| == 0;
    assert |Fs20Pulses(t.fs, [pulse]).data| == 0;
    RunToGap(t, [pulse], gap);
  }

  /** Only what is between the two gaps of a frame is reported. */
  lemma FrameRun(t: Task, pulse: nat, gap1: nat, body: seq<nat>, gap2: nat)
    requires Idle(t) && Short3(pulse) && 8000 < gap1 < 11000 && NoGap(body) && Gap(gap2)
    ensures var r := Run(t, ([pulse] + [gap1]) + (body + [gap2]));
      && r.task == AfterGap(gap2)
      && Only20(r.reports) == (var data := Fs20Pulses(RESET_FS20, body).data; if |data| >= 4 then [data] else [])
      && Only1(r.reports) == (if |It1Pulses(RESET_IT1, body).s| == 12 then [It1Pulses(RESET_IT1, body).s] else [])
      && Only3(r.reports) == (if |It3Pulses(READY3, body).s| == 32 then [It3Pulses(READY3, body).s] else [])
  {
    var ready, frame := Task(RESET_FS20, RESET_IT1, READY3), body + [gap2];
    Opening(t, pulse, gap1);
    RunConcat(t, [pulse] + [gap1], frame);
    assert Run(t, ([pulse] + [gap1]) + frame).reports == Run(ready, frame).reports;
    OnlyToGap(ready, body, gap2);
  }

  /** A frame that has been cut into its two gaps and the body between them. */
  predicate IsFrame(got: seq<nat>, body: seq<nat>) {
    && |got| >= 4 && got == ([got[0]] + [got[1]]) + (body + [got[|got| - 1]])
    && Short3(got[0]) && 8000 < got[1] < 11000 && NoGap(body) && Gap(got[|got| - 1])
  }

  lemma FrameReports(t: Task, got: seq<nat>, body: seq<nat>, s1: string, s3: string)
    requires Idle(t) && IsFrame(got, body)
    requires s1 == It1Pulses(RESET_IT1, body).s && s3 == It3Pulses(READY3, body).s
    ensures Idle(Run(t, got).task)
    ensures Only1(Run(t, got).reports) == if |s1| == 12 then [s1] else []
    ensures Only3(Run(t, got).reports) == if |s3| == 32 then [s3] else []
  {
    FrameRun(t, got[0], got[1], body, got[|got| - 1]);
  }

  lemma BodyHeard3(word: string, symbols: seq<nat>, pulse: nat)
    requires Jitter3(Symbols3(word), symbols) && Short3(pulse)
    ensures NoGap(symbols + [pulse])
    ensures It3Pulses(READY3, symbols + [pulse]).s == Held3(word).s
  {
    SymbolsHeard3(word, symbols);
    assert (symbols + [pulse])[..|symbols|] == symbols;
    NoGapSnoc(symbols + [pulse], |symbols|);
  }

  /** A frame of `n` symbols is reported exactly if `n` is at least 32, and then its first 32 symbols. */
  lemma V3Reports(t: Task, word: string, got: seq<nat>)
    requires Idle(t) && Jitter3(Frame3(word), got)
    ensures Idle(Run(t, got).task)
    ensures Only3(Run(t, got).reports) == if |word| >= 32 then [Word3(word)[..32]] else []
  {
    var symbols := CutFrame3(word, got);
    var body := symbols + [got[|got| - 2]];
    BodyHeard3(word, symbols, got[|got| - 2]);
    FrameReports(t, got, body, It1Pulses(RESET_IT1, body).s, Held3(word).s);
  }

  lemma WholeWord3(word: string)
    requires |word| == 32
    ensures Word3(word)[..32] == Word3(word)
  {
  }

  lemma {:induction false} V3Repetitions(t: Task, word: string, n: nat, got: seq<nat>)
    requires Idle(t) && |word| == 32 && Jitter3(Repeat(Frame3(word), n), got)
    ensures Idle(Run(t, got).task)
    ensures Only3(Run(t, got).reports) == Repeat([Word3(word)], n)
    decreases n
  {
    if n > 0 {
      var front := Repeat(Frame3(word), n - 1);
      SplitJitter3(front, Frame3(word), got);
      var a, b := got[..|front|], got[|front|..];
      V3Repetitions(t, word, n - 1, a);
      WholeWord3(word);
      var after := Run(t, a).task;
      V3Reports(after, word, b);
      RunConcat(t, a, b);
      Only3Concat(Run(t, a).reports, Run(after, b).reports);
    }
  }

  // ----- V3 frames and the V1 decoder

  /** A pulse that has the length the V3 signal means in the windows of both decoders. */
  predicate NearBoth(sent: nat, got: nat) {
    Near3(sent, got) && (sent == 300 ==> Short1(got)) && (sent == 900 ==> Long1(got))
  }

  predicate JitterBoth(sent: seq<nat>, got: seq<nat>) {
    |sent| == |got| && forall i :: 0 <= i < |sent| ==> NearBoth(sent[i], got[i])
  }

  /** A V3 word as the V1 decoder reads its symbols. */
  function As1(word: string): (w: string)
    ensures |w| == |word|
  {
    if word == "" then "" else As1(word[..|word| - 1]) + [if word[|word| - 1] == '0' then '0' else 'F']
  }

  lemma SplitJitterBoth(a: seq<nat>, b: seq<nat>, got: seq<nat>)
    requires JitterBoth(a + b, got)
    ensures JitterBoth(a, got[..|a|]) && JitterBoth(b, got[|a|..]) && got == got[..|a|] + got[|a|..]
  {
    forall i | 0 <= i < |a| ensures NearBoth(a[i], got[..|a|][i]) { assert (a + b)[i] == a[i]; }
    forall i | 0 <= i < |b| ensures NearBoth(b[i], got[|a|..][i]) { assert (a + b)[|a| + i] == b[i]; }
  }

  lemma SymbolHeardAs1(c: char, p: seq<nat>)
    requires JitterBoth(Symbol3(c), p)
    ensures It1Symbol(p) == Some(if c == '0' then '0' else 'F')
  {
    var s := Symbol3(c);
    assert NearBoth(s[0], p[0]) && NearBoth(s[1], p[1]) && NearBoth(s[2], p[2]) && NearBoth(s[3], p[3]);
  }

  lemma {:induction false} SymbolsHeardAs1(word: string, got: seq<nat>)
    requires JitterBoth(Symbols3(word), got)
    ensures It1Pulses(RESET_IT1, got) == It1(Held1(As1(word)), [])
    decreases |word|
  {
    if word != "" {
      var n := |word| - 1;
      var front := Symbols3(word[..n]);
      SplitJitterBoth(front, Symbol3(word[n]), got);
      var a, b := got[..|front|], got[|front|..];
      SymbolsHeardAs1(word[..n], a);
      SymbolHeardAs1(word[n], b);
      It1Concat(RESET_IT1, a, b);
      FourPulses1(Held1(As1(word[..n])), b);
      assert As1(word)[..n] == As1(word[..n]);
    }
  }

  /** The body of a V3 frame in both windows, as the V1 decoder hears it. */
  lemma BodyHeardAs1(word: string, got: seq<nat>, symbols: seq<nat>, pulse: nat)
    requires JitterBoth(Frame3(word), got) && |symbols| == 4 * |word|
    requires forall i :: 0 <= i < |symbols| ==> symbols[i] == got[i + 2]
    ensures It1Pulses(RESET_IT1, symbols + [pulse]).s == Held1(As1(word))
  {
    var s := Symbols3(word);
    var all := [300, 9300] + s + [300, 9300];
    forall i | 0 <= i < |s| ensures NearBoth(s[i], symbols[i]) {
      assert all[i + 2] == s[i];
      assert NearBoth(all[i + 2], got[i + 2]);
    }
    SymbolsHeardAs1(word, symbols);
    assert (symbols + [pulse])[..|symbols|] == symbols;
  }

  lemma BothIsV3(sent: seq<nat>, got: seq<nat>)
    requires JitterBoth(sent, got)
    ensures Jitter3(sent, got)
  {
    forall i | 0 <= i < |sent| ensures Near3(sent[i], got[i]) { assert NearBoth(sent[i], got[i]); }
  }

  /** The body of a frame in the windows of both decoders, and what the V1 decoder holds after it. */
  lemma BodyAs1(word: string, got: seq<nat>) returns (body: seq<nat>)
    requires JitterBoth(Frame3(word), got)
    ensures IsFrame(got, body)
    ensures It1Pulses(RESET_IT1, body).s == Held1(As1(word))
  {
    BothIsV3(Frame3(word), got);
    var symbols := CutFrame3(word, got);
    BodyHeard3(word, symbols, got[|got| - 2]);
    BodyHeardAs1(word, got, symbols, got[|got| - 2]);
    body := symbols + [got[|got| - 2]];
  }

  /**
   A V3 frame in the windows of both decoders is reported as a V1 word exactly
   when its length is 12 modulo 13.
   */
  lemma V3AsV1(t: Task, word: string, got: seq<nat>)
    requires Idle(t) && JitterBoth(Frame3(word), got)
    ensures Only1(Run(t, got).reports) == if |word| % 13 == 12 then [As1(word)[|word| - 12..]] else []
  {
    var body := BodyAs1(word, got);
    FrameReports(t, got, body, Held1(As1(word)), It3Pulses(READY3, body).s);
    HeldTwelve(As1(word));
    As1IsWord1(word);
  }

  lemma V3NotV1(t: Task, word: string, got: seq<nat>)
    requires Idle(t) && |word| % 13 != 12 && JitterBoth(Frame3(word), got)
    ensures Only1(Run(t, got).reports) == []
  {
    V3AsV1(t, word, got);
  }

  lemma V3ReportsWhole(t: Task, word: string, got: seq<nat>)
    requires Idle(t) && |word| == 32 && Jitter3(Frame3(word), got)
    ensures Only3(Run(t, got).reports) == [Word3(word)]
  {
    V3Reports(t, word, got);
    WholeWord3(word);
  }

  /** So a frame of 32 symbols, as V3 words are, is reported by the V3 decoder and not by the V1 decoder. */
  lemma V3IsNeverV1(t: Task, word: string, got: seq<nat>)
    requires Idle(t) && |word| == 32 && JitterBoth(Frame3(word), got)
    ensures Only1(Run(t, got).reports) == []
    ensures Only3(Run(t, got).reports) == [Word3(word)]
  {
    V3NotV1(t, word, got);
    BothIsV3(Frame3(word), got);
    V3ReportsWhole(t, word, got);
  }

  lemma {:induction false} As1IsWord1(word: string)
    ensures Word1(As1(word)) == As1(word)
    decreases |word|
  {
    if word != "" {
      As1IsWord1(word[..|word| - 1]);
      assert As1(word)[..|word| - 1] == As1(word[..|word| - 1]);
    }
  }
}
