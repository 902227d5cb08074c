/** The transmission time budget of culfw_duty_cycle.c. */
module DutyCycle {

  const WORD32: nat := 0x1_0000_0000
  const WORD64: nat := 0x1_0000_0000_0000_0000

  /** An hour, in microseconds. */
  const HOUR: nat := 3600 * 1000 * 1000

  type uint32 = x: int | 0 <= x < 0x1_0000_0000

  /** Ten percent of an hour on the 433 MHz band and one percent on the 868 MHz band, in milliseconds. */
  function Limit(is433: bool): uint32 { if is433 then 360000 else 36000 }

  datatype State = State(airtime: uint32, lastReset: int)

  /** The comparison is made on unsigned numbers. */
  predicate Expired(s: State, now: int) { (now - s.lastReset) % WORD64 > HOUR }

  function Renewed(s: State, now: int): State { if Expired(s, now) then State(0, now) else s }

  /** A request for some milliseconds, and the state it leaves. */
  function Request(s: State, now: int, duration: uint32, is433: bool): (State, bool) {
    var r := Renewed(s, now);
    var total: uint32 := (r.airtime + duration) % WORD32;
    if total > Limit(is433) then (r, false) else (r.(airtime := total), true)
  }

  class Budget {
    var airtime: uint32
    var lastReset: int

    ghost function Value(): State
      reads this
    {
      State(airtime, lastReset)
    }

    constructor (now: int)
      ensures Value() == State(0, now)
    {
      airtime, lastReset := 0, now;
    }

    method AddTx(now: int, duration: uint32, is433: bool) returns (granted: bool)
      modifies this
      ensures (Value(), granted) == Request(old(Value()), now, duration, is433)
    {
      var limit := if is433 then 360000 else 36000;
      if (now - lastReset) % WORD64 > HOUR {
        airtime := 0;
        lastReset := now;
      }
      if (airtime + duration) % WORD32 > limit { return false; }
      airtime := (airtime + duration) % WORD32;
      granted := true;
    }

    /** Before the next reset exactly the requests for no more than the result are granted. */
    method Remaining(is433: bool) returns (ms: uint32)
      ensures ms <= Limit(is433) && (airtime > Limit(is433) ==> ms == 0)
      ensures forall now: int, duration: uint32 |
                !Expired(Value(), now) && 0 < duration < WORD32 - airtime ::
                Request(Value(), now, duration, is433).1 <==> duration <= ms
    {
      var limit := if is433 then 360000 else 36000;
      ms := if airtime > limit then 0 else limit - airtime;
    }
  }

  /** A request is refused exactly if it asks for more than remains, unless its sum overflows. */
  lemma GrantedIff(s: State, now: int, duration: uint32, is433: bool)
    requires s.airtime <= Limit(is433)
    ensures var r := Renewed(s, now);
      Request(s, now, duration, is433).1
      <==> duration <= Limit(is433) - r.airtime || r.airtime + duration >= WORD32
  {
  }

  /** A tenth of the time may be used on the 433 MHz band, a hundredth on the 868 MHz band. */
  lemma LimitIsShare()
    ensures Limit(true) * 1000 * 10 == 60 * 60 * 1_000_000 == Limit(false) * 1000 * 100
  {
  }

  /**
   What a request leaves behind: more than an hour after the last reset a new window begins
   with it, granted or not, and nothing but what is granted is counted.
   */
  lemma AfterRequest(s: State, now: int, duration: uint32, is433: bool)
    requires s.lastReset <= now < s.lastReset + WORD64
    ensures var (next, granted) := Request(s, now, duration, is433);
      var anew := now - s.lastReset > 60 * 60 * 1_000_000;
      var used := if anew then 0 else s.airtime;
      && next.lastReset == (if anew then now else s.lastReset)
      && (!granted ==> next.airtime == used)
      && (granted && used + duration < 0x1_0000_0000 ==> next.airtime == used + duration)
      && (granted && used + duration >= 0x1_0000_0000 ==> next.airtime == used + duration - 0x1_0000_0000)
  {
    var d := now - s.lastReset;
    assert d % WORD64 == d;
  }

  // ----- runs of requests on one band

  datatype Ask = Ask(now: int, duration: uint32)

  predicate Ordered(asks: seq<Ask>) {
    forall i, j :: 0 <= i < j < |asks| ==> asks[i].now <= asks[j].now
  }

  /** The clock runs forward, and less than 2^64 microseconds. */
  predicate Clock(s: State, asks: seq<Ask>) {
    Ordered(asks) && forall i :: 0 <= i < |asks| ==> s.lastReset <= asks[i].now < s.lastReset + WORD64
  }

  /** The time granted to the requests made from `from` to `to`. */
  function GrantedIn(s: State, asks: seq<Ask>, is433: bool, from: int, to: int): nat
    decreases |asks|
  {
    if asks == [] then 0
    else
      var (next, ok) := Request(s, asks[0].now, asks[0].duration, is433);
      (if ok && from <= asks[0].now <= to then asks[0].duration else 0)
      + GrantedIn(next, asks[1..], is433, from, to)
  }

  /** No request made up to `to` overflows the counter it finds. */
  predicate NoOverflow(s: State, asks: seq<Ask>, is433: bool, to: int)
    decreases |asks|
  {
    asks == []
    || (&& (asks[0].now <= to ==> Renewed(s, asks[0].now).airtime + asks[0].duration < WORD32)
        && NoOverflow(Request(s, asks[0].now, asks[0].duration, is433).0, asks[1..], is433, to))
  }

  lemma OverflowWithin(s: State, asks: seq<Ask>, is433: bool, to: int, later: int)
    requires NoOverflow(s, asks, is433, later) && to <= later
    ensures NoOverflow(s, asks, is433, to)
    decreases |asks|
  {
    if asks != [] {
      OverflowWithin(Request(s, asks[0].now, asks[0].duration, is433).0, asks[1..], is433, to, later);
    }
  }

  /** What a request keeps for those after it. */
  lemma RequestKeeps(s: State, asks: seq<Ask>, is433: bool)
    requires asks != [] && Clock(s, asks) && s.airtime <= Limit(is433)
    ensures var next := Request(s, asks[0].now, asks[0].duration, is433).0;
      Clock(next, asks[1..]) && next.airtime <= Limit(is433)
  {
    assert forall i :: 0 <= i < |asks[1..]| ==> asks[1..][i] == asks[i + 1];
  }

  /** A request that overflows is granted, however long it is. */
  lemma OverflowIsGranted(s: State, now: int, duration: uint32, is433: bool)
    requires s.airtime <= Limit(is433) && Renewed(s, now).airtime + duration >= WORD32
    ensures Request(s, now, duration, is433).1 && duration > 2 * Limit(is433)
  {
  }

  lemma NotExpired(s: State, now: int)
    requires 0 <= now - s.lastReset <= HOUR
    ensures !Expired(s, now)
  {
  }

  lemma {:induction false} NothingLater(s: State, asks: seq<Ask>, is433: bool, from: int, to: int)
    requires forall i :: 0 <= i < |asks| ==> asks[i].now > to
    ensures GrantedIn(s, asks, is433, from, to) == 0 && NoOverflow(s, asks, is433, to)
    decreases |asks|
  {
    if asks != [] { NothingLater(Request(s, asks[0].now, asks[0].duration, is433).0, asks[1..], is433, from, to); }
  }

  /** Requests from `from` on: within an hour of a reset no more is granted than was left of the
      budget exactly if none of them overflows. */
  lemma {:induction false} OneWindow(s: State, asks: seq<Ask>, is433: bool, from: int, to: int)
    requires Clock(s, asks) && s.airtime <= Limit(is433) && to <= s.lastReset + HOUR
    requires forall i :: 0 <= i < |asks| ==> from <= asks[i].now
    ensures GrantedIn(s, asks, is433, from, to) <= Limit(is433) - s.airtime <==> NoOverflow(s, asks, is433, to)
    decreases |asks|
  {
    if asks != [] {
      var ask := asks[0];
      if ask.now > to {
        NothingLater(s, asks, is433, from, to);
      } else {
        NotExpired(s, ask.now);
        RequestKeeps(s, asks, is433);
        OneWindow(Request(s, ask.now, ask.duration, is433).0, asks[1..], is433, from, to);
        if s.airtime + ask.duration >= WORD32 { OverflowIsGranted(s, ask.now, ask.duration, is433); }
      }
    }
  }

  /** From inside an interval of an hour at most one reset lies ahead. */
  lemma {:induction false} FromInside(s: State, asks: seq<Ask>, is433: bool, from: int, to: int)
    requires Clock(s, asks) && s.airtime <= Limit(is433) && NoOverflow(s, asks, is433, to)
    requires to <= from + HOUR && forall i :: 0 <= i < |asks| ==> from <= asks[i].now
    ensures GrantedIn(s, asks, is433, from, to) <= 2 * Limit(is433) - s.airtime
    decreases |asks|
  {
    if asks != [] {
      var (next, ok) := Request(s, asks[0].now, asks[0].duration, is433);
      if asks[0].now > to {
        NothingLater(s, asks, is433, from, to);
      } else {
        RequestKeeps(s, asks, is433);
        if Expired(s, asks[0].now) {
          OneWindow(next, asks[1..], is433, from, to);
        } else {
          FromInside(next, asks[1..], is433, from, to);
        }
      }
    }
  }

  /** In no hour is more granted than twice the budget of an hour, if no request in it or before it overflows. */
  lemma {:induction false} AnyHour(s: State, asks: seq<Ask>, is433: bool, from: int, to: int)
    requires Clock(s, asks) && s.airtime <= Limit(is433) && NoOverflow(s, asks, is433, to)
    requires to <= from + HOUR
    ensures GrantedIn(s, asks, is433, from, to) <= 2 * Limit(is433)
    decreases |asks|
  {
    if asks != [] {
      if asks[0].now >= from {
        FromInside(s, asks, is433, from, to);
      } else {
        RequestKeeps(s, asks, is433);
        AnyHour(Request(s, asks[0].now, asks[0].duration, is433).0, asks[1..], is433, from, to);
      }
    }
  }

  /** The time of a request that overflows; by then more than twice the budget is granted at once. */
  lemma {:induction false} OverflowShows(s: State, asks: seq<Ask>, is433: bool, to: int) returns (at: int)
    requires Clock(s, asks) && s.airtime <= Limit(is433) && !NoOverflow(s, asks, is433, to)
    ensures at <= to && GrantedIn(s, asks, is433, at, at) > 2 * Limit(is433)
    decreases |asks|
  {
    var ask := asks[0];
    if ask.now <= to && Renewed(s, ask.now).airtime + ask.duration >= WORD32 {
      at := ask.now;
      OverflowIsGranted(s, ask.now, ask.duration, is433);
    } else {
      RequestKeeps(s, asks, is433);
      at := OverflowShows(Request(s, ask.now, ask.duration, is433).0, asks[1..], is433, to);
    }
  }

  /** No hour that ends by `end` sees more than twice the budget. */
  ghost predicate Bounded(s: State, asks: seq<Ask>, is433: bool, end: int) {
    forall from, to | to <= from + HOUR && to <= end :: GrantedIn(s, asks, is433, from, to) <= 2 * Limit(is433)
  }

  /** Every hour stays within twice the budget exactly if no request overflows when it is made. */
  lemma EveryHourIff(s: State, asks: seq<Ask>, is433: bool, end: int)
    requires Clock(s, asks) && s.airtime <= Limit(is433)
    ensures Bounded(s, asks, is433, end) <==> NoOverflow(s, asks, is433, end)
  {
    if NoOverflow(s, asks, is433, end) {
      forall from, to | to <= from + HOUR && to <= end
        ensures GrantedIn(s, asks, is433, from, to) <= 2 * Limit(is433)
      {
        OverflowWithin(s, asks, is433, to, end);
        AnyHour(s, asks, is433, from, to);
      }
    } else {
      var at := OverflowShows(s, asks, is433, end);
      assert GrantedIn(s, asks, is433, at, at) > 2 * Limit(is433);
    }
  }

  /** Twice the budget can indeed be granted within a microsecond. */
  lemma TwiceIsReached(is433: bool, start: int)
    ensures var asks := [Ask(start + HOUR, Limit(is433)), Ask(start + HOUR + 1, Limit(is433))];
      && Clock(State(0, start), asks) && NoOverflow(State(0, start), asks, is433, start + HOUR + 1)
      && GrantedIn(State(0, start), asks, is433, start + HOUR, start + HOUR + 1) == 2 * Limit(is433)
  {
    var limit := Limit(is433);
    var a, b := Ask(start + HOUR, limit), Ask(start + HOUR + 1, limit);
    var s, t := State(0, start), State(limit, start);
    NotExpired(s, a.now);
    assert Request(s, a.now, limit, is433) == (t, true);
    assert Expired(t, b.now);
    assert Request(t, b.now, limit, is433) == (State(limit, b.now), true);
    assert [a, b][1..] == [b] && [b][1..] == [];
    assert NoOverflow(t, [b], is433, b.now);
    assert GrantedIn(t, [b], is433, a.now, b.now) == limit;
  }
}
