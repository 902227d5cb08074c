/**
 Where the windows of the decoders overlap: which Intertechno V3 signals the V1
 decoder can take for its own.
 */
module RfMistaken {
  import opened Common
  import opened SlowRf
  import opened RfSender
  import opened RfRoundTrip
  import opened RfIntertechno

  // ----- V3 signals taken for V1 words

  /** Long pulses are at least `lo`. */
  predicate LongFrom(lo: nat, sent: seq<nat>, got: seq<nat>) {
    |sent| == |got| && forall i :: 0 <= i < |sent| ==> sent[i] == 900 ==> got[i] >= lo
  }

  /** No V3 word whose long pulses are at least `lo` is reported as a V1 word. */
  ghost predicate NeverV1(lo: nat) {
    forall t, word, got |
        Idle(t) && |word| == 32 && Jitter3(Frame3(word), got) && LongFrom(lo, Frame3(word), got) ::
      Only1(Run(t, got).reports) == []
  }

  /** Long pulses of more than 800 are in the windows of both decoders. */
  lemma LongIsBoth(lo: nat, sent: seq<nat>, got: seq<nat>)
    requires lo > 800 && Jitter3(sent, got) && LongFrom(lo, sent, got)
    ensures JitterBoth(sent, got)
  {
    forall i | 0 <= i < |sent| ensures NearBoth(sent[i], got[i]) { assert Near3(sent[i], got[i]); }
  }

  /** The `i`th symbol of a word as it may be received: the first `k` symbols 0 have long pulses of their own. */
  function Quad(c: char, i: nat, k: nat, long: nat): (q: seq<nat>)
    ensures |q| == 4
  {
    if c != '0' then [300, 900, 900, 300] else if i < k then [300, long, 300, long] else [300, 900, 300, 900]
  }

  function Played(word: string, k: nat, long: nat): (p: seq<nat>)
    ensures |p| == 4 * |word|
    decreases |word|
  {
    if word == "" then []
    else Played(word[..|word| - 1], k, long) + Quad(word[|word| - 1], |word| - 1, k, long)
  }

  /** Short pulses are half zeros of FS20, and long ones are from `lo` to `hi`. */
  predicate NearFs(lo: nat, hi: nat, sent: nat, got: nat) {
    Near3(sent, got) && (sent == 300 ==> HalfZero(got)) && (sent == 900 ==> lo <= got <= hi)
  }

  predicate JitterFs(lo: nat, hi: nat, sent: seq<nat>, got: seq<nat>) {
    |sent| == |got|
    && forall i {:trigger NearFs(lo, hi, sent[i], got[i])} :: 0 <= i < |sent| ==> NearFs(lo, hi, sent[i], got[i])
  }

  lemma JoinJitterFs(lo: nat, hi: nat, a: seq<nat>, b: seq<nat>, x: seq<nat>, y: seq<nat>)
    requires JitterFs(lo, hi, a, x) && JitterFs(lo, hi, b, y)
    ensures JitterFs(lo, hi, a + b, x + y)
  {
    forall i | 0 <= i < |a + b| ensures NearFs(lo, hi, (a + b)[i], (x + y)[i]) {
      if i < |a| { assert NearFs(lo, hi, a[i], x[i]); } else { assert NearFs(lo, hi, b[i - |a|], y[i - |a|]); }
    }
  }

  lemma {:induction false} PlayedNear(lo: nat, hi: nat, word: string, k: nat, long: nat)
    requires 600 <= long < 1500 && lo <= long <= hi && lo <= 900 <= hi
    ensures JitterFs(lo, hi, Symbols3(word), Played(word, k, long))
    decreases |word|
  {
    if word != "" {
      var n := |word| - 1;
      PlayedNear(lo, hi, word[..n], k, long);
      QuadNear(lo, hi, word[n], n, k, long);
      JoinJitterFs(lo, hi, Symbols3(word[..n]), Symbol3(word[n]),
                   Played(word[..n], k, long), Quad(word[n], n, k, long));
    }
  }

  lemma QuadNear(lo: nat, hi: nat, c: char, i: nat, k: nat, long: nat)
    requires 600 <= long < 1500 && lo <= long <= hi && lo <= 900 <= hi
    ensures JitterFs(lo, hi, Symbol3(c), Quad(c, i, k, long))
  {
  }

  /** A word of symbols 0 behind one that may be another. */
  function ZerosAfter(first: char, n: nat): (w: string)
    ensures |w| == n
  {
    seq(n, i => if i == 0 then first else '0')
  }

  lemma FrontOfZerosAfter(first: char, n: nat, k: nat, long: nat)
    ensures Played(ZerosAfter(first, n + 1), k, long)
         == Played(ZerosAfter(first, n), k, long) + Quad(if n == 0 then first else '0', n, k, long)
  {
    assert ZerosAfter(first, n + 1)[..n] == ZerosAfter(first, n);
  }

  predicate AllShort1(p: seq<nat>) { forall i :: 0 <= i < |p| ==> Short1(p[i]) }

  lemma {:induction false} ShortPulsesAreNoSymbols(p: seq<nat>)
    requires AllShort1(p)
    ensures var d := It1Pulses(RESET_IT1, p); d.s == "" && AllShort1(d.recent) && |d.recent| == Min(|p|, 4)
    decreases |p|
  {
    if p != [] { ShortPulsesAreNoSymbols(p[..|p| - 1]); }
  }

  lemma {:induction false} PlayedShort(n: nat, long: nat)
    requires Short1(long) && n <= 20
    ensures AllShort1(Played(ZerosAfter('0', n), 20, long))
  {
    if n > 0 {
      PlayedShort(n - 1, long);
      FrontOfZerosAfter('0', n - 1, 20, long);
    }
  }

  lemma FirstSymbolAfterShort(w: seq<nat>, p: seq<nat>)
    requires AllShort1(w) && |w| == 4 && p == [300, 900, 300, 900]
    ensures It1Pulses(It1("", w), p) == It1("0", [])
  {
    var d := It1("", w);
    assert It1Pulse(d, 300) == It1("", [w[1], w[2], w[3], 300]);
    assert It1Pulse(It1Pulse(d, 300), 900) == It1("", [w[2], w[3], 300, 900]);
    ThreePulses1(d, 300, 900, 300);
    PulseSnoc1(d, [300, 900, 300], 900);
    assert p == [300, 900, 300] + [900];
    assert It1Pulses(d, [300, 900, 300]) == It1("", [w[3], 300, 900, 300]);
    assert Slide([w[3], 300, 900, 300], 900) == p;
  }

  /** Twenty symbols 0 whose long pulses are short to the V1 decoder, and twelve that it understands. */
  function ConfusedSymbols(long: nat): seq<nat> { Played(ZerosAfter('0', 32), 20, long) }

  lemma FirstUnderstood(long: nat)
    requires Short1(long)
    ensures It1Pulses(RESET_IT1, Played(ZerosAfter('0', 20), 20, long) + [300, 900, 300, 900]) == It1("0", [])
  {
    var front, quad := Played(ZerosAfter('0', 20), 20, long), [300, 900, 300, 900];
    PlayedShort(20, long);
    ShortPulsesAreNoSymbols(front);
    It1Concat(RESET_IT1, front, quad);
    FirstSymbolAfterShort(It1Pulses(RESET_IT1, front).recent, quad);
  }

  lemma NextUnderstood(front: seq<nat>, n: nat)
    requires n < 12 && It1Pulses(RESET_IT1, front) == It1(ZerosAfter('0', n), [])
    ensures It1Pulses(RESET_IT1, front + [300, 900, 300, 900]) == It1(ZerosAfter('0', n + 1), [])
  {
    It1Concat(RESET_IT1, front, [300, 900, 300, 900]);
    FourPulses1(ZerosAfter('0', n), [300, 900, 300, 900]);
    assert ZerosAfter('0', n) + ['0'] == ZerosAfter('0', n + 1);
  }

  /** Of the symbols behind the first twenty the V1 decoder understands every one. */
  lemma {:induction false} ConfusedHeard(n: nat, long: nat)
    requires Short1(long) && 1 <= n <= 12
    ensures It1Pulses(RESET_IT1, Played(ZerosAfter('0', 20 + n), 20, long)) == It1(ZerosAfter('0', n), [])
    decreases n
  {
    FrontOfZerosAfter('0', 20 + (n - 1), 20, long);
    if n == 1 {
      FirstUnderstood(long);
      assert ZerosAfter('0', 1) == "0";
    } else {
      ConfusedHeard(n - 1, long);
      NextUnderstood(Played(ZerosAfter('0', 20 + (n - 1)), 20, long), n - 1);
    }
  }

  /** A frame around the pulses of its symbols, with exact times. */
  function FrameAround(p: seq<nat>): seq<nat> { ([300] + [9300]) + ((p + [300]) + [9300]) }

  lemma NearOfFrame(lo: nat, hi: nat, word: string, p: seq<nat>)
    requires JitterFs(lo, hi, Symbols3(word), p)
    ensures JitterFs(lo, hi, Frame3(word), FrameAround(p))
  {
    var s := Symbols3(word);
    var sent, got := [300, 9300] + s + [300, 9300], ([300] + [9300]) + ((p + [300]) + [9300]);
    forall i | 0 <= i < |sent| ensures NearFs(lo, hi, sent[i], got[i]) {
      if 2 <= i < |s| + 2 { assert sent[i] == s[i - 2] && got[i] == p[i - 2]; }
    }
  }

  lemma FsIsV3(lo: nat, hi: nat, sent: seq<nat>, got: seq<nat>)
    requires JitterFs(lo, hi, sent, got)
    ensures Jitter3(sent, got) && LongFrom(lo, sent, got)
  {
    forall i | 0 <= i < |sent| ensures Near3(sent[i], got[i]) && (sent[i] == 900 ==> got[i] >= lo) {
      assert NearFs(lo, hi, sent[i], got[i]);
    }
  }

  lemma AroundRun(t: Task, word: string, p: seq<nat>)
    requires Idle(t) && Jitter3(Symbols3(word), p)
    ensures var body := p + [300]; var r := Run(t, FrameAround(p));
      && Only20(r.reports) == (var data := Fs20Pulses(RESET_FS20, body).data; if |data| >= 4 then [data] else [])
      && Only1(r.reports) == (var s := It1Pulses(RESET_IT1, body).s; if |s| == 12 then [s] else [])
  {
    BodyHeard3(word, p, 300);
    FrameRun(t, 300, 9300, p + [300], 9300);
  }

  /**
   Long pulses from 600 to 800 are long to the V3 decoder and short to the V1
   decoder, which may then find its first symbol only among the last twelve.
   */
  lemma V3TakenForV1(t: Task, long: nat)
    requires Idle(t) && 600 <= long <= 800
    ensures var word, got := ZerosAfter('0', 32), FrameAround(ConfusedSymbols(long));
      && Jitter3(Frame3(word), got) && LongFrom(long, Frame3(word), got)
      && Only1(Run(t, got).reports) == [ZerosAfter('0', 12)]
  {
    var p := ConfusedSymbols(long);
    PlayedNear(long, 900, ZerosAfter('0', 32), 20, long);
    NearOfFrame(long, 900, ZerosAfter('0', 32), p);
    FsIsV3(long, 900, Frame3(ZerosAfter('0', 32)), FrameAround(p));
    FsIsV3(long, 900, Symbols3(ZerosAfter('0', 32)), p);
    AroundRun(t, ZerosAfter('0', 32), p);
    ConfusedHeard(12, long);
    PulseSnoc1(RESET_IT1, p, 300);
  }

  lemma LongFromLess(lo: nat, hi: nat, sent: seq<nat>, got: seq<nat>)
    requires LongFrom(hi, sent, got) && lo <= hi
    ensures LongFrom(lo, sent, got)
  {
  }

  /** V3 words are safe from being reported as V1 words exactly if their long pulses are longer than 800. */
  lemma NeverV1Iff(lo: nat)
    ensures NeverV1(lo) <==> lo > 800
  {
    if lo > 800 {
      forall t, word, got |
          Idle(t) && |word| == 32 && Jitter3(Frame3(word), got) && LongFrom(lo, Frame3(word), got)
        ensures Only1(Run(t, got).reports) == []
      {
        LongIsBoth(lo, Frame3(word), got);
        V3IsNeverV1(t, word, got);
      }
    } else {
      var word, got := ZerosAfter('0', 32), FrameAround(ConfusedSymbols(800));
      V3TakenForV1(QUIET, 800);
      LongFromLess(lo, 800, Frame3(word), got);
      assert Only1(Run(QUIET, got).reports) != [];
    }
  }
}
