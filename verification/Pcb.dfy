/**
 Probing and announcing on the network interfaces (mdns_pcb.c).  Every pair of an
 interface and an IP protocol has a state, the list of the services it probes for,
 and a few flags.
 */
module Pcb {
  import opened Common

  datatype State =
    OFF | DUP | INIT | PROBE_1 | PROBE_2 | PROBE_3 | ANNOUNCE_1 | ANNOUNCE_2 | ANNOUNCE_3 | RUNNING

  /** The states are ordered as in the enumeration; every state between OFF and ANNOUNCE_1 counts as probing. */
  predicate Probing(s: State) {
    s.DUP? || s.INIT? || s.PROBE_1? || s.PROBE_2? || s.PROBE_3?
  }

  predicate Announcing(s: State) {
    s.ANNOUNCE_1? || s.ANNOUNCE_2? || s.ANNOUNCE_3?
  }

  function Next(s: State): State {
    match s
    case PROBE_1 => PROBE_2
    case PROBE_2 => PROBE_3
    case PROBE_3 => ANNOUNCE_1
    case ANNOUNCE_1 => ANNOUNCE_2
    case ANNOUNCE_2 => ANNOUNCE_3
    case _ => RUNNING
  }

  /** An item of the list of services, and the service it is for. */
  datatype Item = Item(id: nat, service: nat)

  /** `services` is the allocated list as far as its length field reaches. */
  datatype Pcb = Pcb(
    state: State, services: Option<seq<Item>>, probeIp: bool, probeRunning: bool, failedProbes: nat)

  const RESET: Pcb := Pcb(OFF, None, false, false, 0)

  function Active(p: Pcb): seq<Item> {
    match p.services case None => [] case Some(list) => list
  }

  /** What the surroundings contribute to the start of a probe. */
  datatype Setup = Setup(hostname: bool, alloc: bool, packet: bool)

  // ----- one interface and protocol

  /** The new list is only allocated to hold the old one as well while probing; an empty one is not filled at all. */
  predicate Fits(p: Pcb, services: seq<Item>) {
    Probing(p.state) || Active(p) == [] || services == []
  }

  /** The new services and, while probing, the old ones behind them. */
  function Merged(p: Pcb, services: seq<Item>): seq<Item> {
    if Probing(p.state) then services + Active(p) else services
  }

  /** The services that are not being probed for yet. */
  function Unprobed(services: seq<Item>, probed: seq<Item>): seq<Item> {
    if services == [] then []
    else
      var n := |services| - 1;
      Unprobed(services[..n], probed) + if services[n] in probed then [] else [services[n]]
  }

  /** The length is kept in a byte. */
  function Cut(list: seq<Item>): seq<Item> { list[..|list| % 0x100] }

  function InitNew(p: Pcb, services: seq<Item>, probeIp: bool, s: Setup): Pcb {
    var merged := Merged(p, services);
    if merged != [] && !s.alloc then p
    else if !s.packet then p.(probeIp := false, services := None, probeRunning := false)
    else p.(state := PROBE_1, probeIp := p.probeIp || probeIp, probeRunning := true,
            services := if merged == [] then None else Some(Cut(merged)))
  }

  function InitProbe(p: Pcb, services: seq<Item>, probeIp: bool, s: Setup): Pcb {
    if !s.hostname then p.(state := RUNNING)
    else InitNew(p, if Probing(p.state) then Unprobed(services, Active(p)) else services, probeIp, s)
  }

  /** `scheduled` tells whether a packet of this interface is in the transmit queue. */
  function Announce(p: Pcb, services: seq<Item>, includeIp: bool, scheduled: bool, s: Setup): Pcb {
    if Probing(p.state) then InitProbe(p, services, includeIp, s)
    else if Announcing(p.state) then if scheduled then p.(state := ANNOUNCE_1) else p
    else if p.state == RUNNING && s.hostname then p.(state := ANNOUNCE_1)
    else p
  }

  /** What becomes of a packet that has been sent. */
  datatype Fate = Resend(after: nat) | ResendAsAnnounce(after: nat) | Drop

  /** `alloc`: the announcement could be made from the probe. */
  function Sent(p: Pcb, alloc: bool): (Pcb, Fate) {
    match p.state
    case PROBE_1 => (p.(state := PROBE_2), Resend(250))
    case PROBE_2 => (p.(state := PROBE_3), Resend(250))
    case PROBE_3 =>
      if alloc then (RESET.(state := ANNOUNCE_1), ResendAsAnnounce(250)) else (p, Resend(250))
    case ANNOUNCE_1 => (p.(state := ANNOUNCE_2), Resend(1000))
    case ANNOUNCE_2 => (p.(state := ANNOUNCE_3), Resend(1000))
    case ANNOUNCE_3 => (p.(state := RUNNING), Drop)
    case _ => (p, Drop)
  }

  /** Where a service is in a list; the length of the list if it is not there. */
  function Position(list: seq<Item>, service: nat): (i: nat)
    ensures i <= |list|
    ensures i < |list| ==> list[i].service == service
    ensures forall k :: 0 <= k < i ==> list[k].service != service
  {
    if list == [] || list[0].service == service then 0 else 1 + Position(list[1..], service)
  }

  lemma {:induction false} FirstIsPosition(list: seq<Item>, service: nat, i: nat)
    requires i <= |list| && (forall k :: 0 <= k < i ==> list[k].service != service)
    requires i < |list| ==> list[i].service == service
    ensures Position(list, service) == i
    decreases i
  {
    if i > 0 { FirstIsPosition(list[1..], service, i - 1); }
  }

  /** A service is being removed; the result tells whether it was being probed for. */
  function Forget(p: Pcb, service: nat, removedAnswers: bool): (Pcb, bool) {
    var list, i := Active(p), Position(Active(p), service);
    if Probing(p.state) then
      if i == |list| then (p, false)
      else if |list| > 1 then (p.(services := Some(list[..i] + list[i + 1..])), true)
      else if p.probeIp then (p.(services := None), true)
      else (p.(services := None, probeRunning := false, state := RUNNING), true)
    else (if Announcing(p.state) && removedAnswers then p.(state := RUNNING) else p, false)
  }

  lemma {:induction false} PositionFinds(list: seq<Item>, service: nat)
    ensures Position(list, service) < |list| <==> exists x :: x in list && x.service == service
    decreases |list|
  {
    var i := Position(list, service);
    if i < |list| {
      assert list[i] in list;
    } else {
      forall x | x in list ensures x.service != service {
        var k :| 0 <= k < |list| && list[k] == x;
      }
    }
  }

  predicate DistinctServices(list: seq<Item>) {
    forall i, j :: 0 <= i < j < |list| ==> list[i].service != list[j].service
  }

  /** The items of all other services, in their order. */
  function Others(list: seq<Item>, service: nat): seq<Item> {
    if list == [] then []
    else if list[0].service == service then Others(list[1..], service)
    else [list[0]] + Others(list[1..], service)
  }

  lemma {:induction false} OthersIn(list: seq<Item>, service: nat, x: Item)
    ensures x in Others(list, service) <==> x in list && x.service != service
    decreases |list|
  {
    if list != [] {
      OthersIn(list[1..], service, x);
      assert list == [list[0]] + list[1..];
    }
  }

  lemma {:induction false} NoneOfIt(list: seq<Item>, service: nat)
    requires forall i :: 0 <= i < |list| ==> list[i].service != service
    ensures Others(list, service) == list
    decreases |list|
  {
    if list != [] { NoneOfIt(list[1..], service); }
  }

  lemma {:induction false} OnlyOne(list: seq<Item>, i: nat)
    requires DistinctServices(list) && i < |list|
    ensures list[..i] + list[i + 1..] == Others(list, list[i].service)
    decreases i
  {
    if i == 0 {
      NoneOfIt(list[1..], list[0].service);
      assert list[..0] + list[1..] == list[1..];
    } else {
      OnlyOne(list[1..], i - 1);
      assert list[..i] + list[i + 1..] == [list[0]] + (list[1..][..i - 1] + list[1..][i..]);
    }
  }

  /**
   What removing a service does to an interface that is probing: the first item of the
   service is missing from the list, and no other; the questions are to be removed exactly
   if there was one; and nothing else changes, unless it was the only item.
   */
  lemma ForgetsOnlyIt(p: Pcb, service: nat, removedAnswers: bool) returns (i: nat)
    requires Probing(p.state)
    ensures var list, (q, found) := Active(p), Forget(p, service, removedAnswers);
      && (found <==> exists x :: x in list && x.service == service)
      && (!found ==> q == p)
      && (found && |list| > 1 ==>
            q == p.(services := q.services) && q.services.Some?
            && i < |list| && list[i].service == service
            && (forall k :: 0 <= k < i ==> list[k].service != service)
            && Active(q) == list[..i] + list[i + 1..])
      && (found && |list| == 1 ==>
            && q.services.None? && q.probeIp == p.probeIp && q.failedProbes == p.failedProbes
            && (p.probeIp ==> q.state == p.state && q.probeRunning == p.probeRunning)
            && (!p.probeIp ==> q.state == RUNNING && !q.probeRunning))
  {
    i := Position(Active(p), service);
    PositionFinds(Active(p), service);
  }

  lemma ListWithout(p: Pcb, service: nat, removedAnswers: bool)
    requires Probing(p.state) && DistinctServices(Active(p))
    ensures Active(Forget(p, service, removedAnswers).0) == Others(Active(p), service)
  {
    var list, i := Active(p), Position(Active(p), service);
    if i < |list| {
      OnlyOne(list, i);
      if |list| == 1 { assert list[..i] + list[i + 1..] == []; }
    } else {
      NoneOfIt(list, service);
    }
  }

  /** Where every service has one item, the items left are those of the other services, in their order. */
  lemma OthersAreLeft(p: Pcb, service: nat, removedAnswers: bool, x: Item)
    requires Probing(p.state) && DistinctServices(Active(p))
    ensures var q := Forget(p, service, removedAnswers).0;
      && Active(q) == Others(Active(p), service)
      && (x in Active(q) <==> x in Active(p) && x.service != service)
  {
    ListWithout(p, service, removedAnswers);
    OthersIn(Active(p), service, x);
  }

  /** While announcing nothing changes, but that the announcements end when their last answers are gone. */
  lemma ForgetWhileAnnouncing(p: Pcb, service: nat, removedAnswers: bool)
    requires !Probing(p.state)
    ensures var (q, found) := Forget(p, service, removedAnswers);
      !found && q == (if Announcing(p.state) && removedAnswers then p.(state := RUNNING) else p)
  {
  }

  // ----- the invariant

  /** Only an interface that is ready and has a probe under way has a list of services. */
  predicate Ok(p: Pcb, ready: bool) {
    && |Active(p)| < 0x100
    && (p.services.Some? ==> ready && (p.state.PROBE_1? || p.state.PROBE_2? || p.state.PROBE_3?))
  }

  datatype Cell = Cell(pcb: Pcb, ready: bool)

  /** Everything that can happen to an interface and protocol. */
  datatype Op =
    | Enable(all: seq<Item>, initOk: bool, setup: Setup)
    | Disable
    | SetDuplicate
    | DoAnnounce(services: seq<Item>, includeIp: bool, scheduled: bool, setup: Setup)
    | Probe(services: seq<Item>, probeIp: bool, clearOld: bool, setup: Setup)
    | PacketSent(alloc: bool)
    | Remove(service: nat, removedAnswers: bool)
    | NoDuplicate
    | ProbeFailed
    | Stop

  function Deinit(c: Cell): Cell { Cell(RESET, false) }

  function ClearOld(p: Pcb): Pcb { p.(services := None, probeRunning := false) }

  /** None: the copy of the old list would not fit behind the new one. */
  function Merge(c: Cell, services: seq<Item>, probeIp: bool, s: Setup): Option<Cell> {
    if s.hostname && !Fits(c.pcb, services) then None else Some(c.(pcb := InitProbe(c.pcb, services, probeIp, s)))
  }

  function Step(c: Cell, op: Op): Option<Cell> {
    match op
    case Enable(all, initOk, s) =>
      if !c.ready && !initOk then Some(c.(pcb := c.pcb.(failedProbes := 0)))
      else Merge(c.(ready := true), all, true, s)
    case Disable => Some(if c.ready then Deinit(c) else c.(pcb := c.pcb.(state := OFF)))
    case SetDuplicate =>
      Some(var d := if c.ready then Deinit(c) else c; d.(pcb := d.pcb.(state := DUP)))
    case DoAnnounce(services, ip, scheduled, s) =>
      if c.ready then
        if Probing(c.pcb.state) then Merge(c, services, ip, s)
        else Some(c.(pcb := Announce(c.pcb, services, ip, scheduled, s)))
      else Some(c)
    case Probe(services, ip, clearOld, s) =>
      if c.ready then Merge(if clearOld then c.(pcb := ClearOld(c.pcb)) else c, services, ip, s) else Some(c)
    case PacketSent(alloc) => Some(if c.pcb.state.OFF? then c else c.(pcb := Sent(c.pcb, alloc).0))
    case Remove(service, removed) => Some(if c.ready then c.(pcb := Forget(c.pcb, service, removed).0) else c)
    case NoDuplicate => Some(if c.pcb.state.DUP? then c.(pcb := c.pcb.(state := OFF)) else c)
    case ProbeFailed => Some(c.(pcb := c.pcb.(failedProbes := (c.pcb.failedProbes + 1) % 0x1_0000)))
    case Stop => Some(Deinit(c))
  }

  /** An interface that is set aside is off but for its state, and off when the duplicate is gone;
      nothing else takes notice of that. */
  lemma SetAsideAndBack(c: Cell)
    requires Ok(c.pcb, c.ready)
    ensures var d := Step(c, SetDuplicate).value;
      && d.pcb.state == DUP && !d.ready && d.pcb.services == None
      && Step(d, NoDuplicate) == Some(Cell(d.pcb.(state := OFF), false))
      && Step(d, Disable) == Some(Cell(d.pcb.(state := OFF), false))
    ensures c.pcb.state != DUP ==> Step(c, NoDuplicate) == Some(c)
    ensures Step(c, Stop) == Some(Cell(Pcb(OFF, None, false, false, 0), false))
    ensures c.ready ==>
              && Step(c, Disable) == Step(c, Stop)
              && Step(c, SetDuplicate) == Some(Cell(Pcb(DUP, None, false, false, 0), false))
  {
  }

  function SetupOf(op: Op): Option<Setup> {
    match op
    case Enable(_, _, s) => Some(s)
    case DoAnnounce(_, _, _, s) => Some(s)
    case Probe(_, _, _, s) => Some(s)
    case _ => None
  }

  /** The operation starts a probe while there is no hostname, and leaves a list of services behind. */
  predicate LosesList(c: Cell, op: Op) {
    && c.pcb.services.Some?
    && match op
       case Enable(_, _, s) => !s.hostname
       case DoAnnounce(_, _, _, s) => !s.hostname
       case Probe(_, _, clearOld, s) => !s.hostname && !clearOld
       case _ => false
  }

  lemma InitProbeKeepsOkIff(p: Pcb, services: seq<Item>, probeIp: bool, s: Setup)
    requires Ok(p, true)
    ensures Fits(p, services)
    ensures Ok(InitProbe(p, services, probeIp, s), true) <==> s.hostname || p.services.None?
  {
  }

  /** Nothing else breaks the invariant, and under the invariant the lists always fit. */
  lemma StepKeepsOkIff(c: Cell, op: Op)
    requires Ok(c.pcb, c.ready)
    ensures Step(c, op).Some?
    ensures Ok(Step(c, op).value.pcb, Step(c, op).value.ready) <==> !LosesList(c, op)
  {
    match op {
      case Enable(all, _, s) =>
        InitProbeKeepsOkIff(c.pcb, all, true, s);
      case DoAnnounce(services, ip, _, s) =>
        if c.ready { InitProbeKeepsOkIff(c.pcb, services, ip, s); }
      case Probe(services, ip, clearOld, s) =>
        if c.ready { InitProbeKeepsOkIff(if clearOld then ClearOld(c.pcb) else c.pcb, services, ip, s); }
      case Remove(service, removed) =>
        assert |Active(Forget(c.pcb, service, removed).0)| <= |Active(c.pcb)|;
      case _ =>
    }
  }

  /** A run; it ends with None when a list did not fit. */
  function Steps(c: Cell, ops: seq<Op>): Option<Cell>
    decreases |ops|
  {
    if ops == [] then Some(c)
    else match Step(c, ops[0])
      case None => None
      case Some(d) => Steps(d, ops[1..])
  }

  lemma TwoSteps(c: Cell, first: Op, second: Op)
    requires Step(c, first).Some?
    ensures Steps(c, [first, second]) == Step(Step(c, first).value, second)
  {
    var d := Step(c, first).value;
    assert [first, second][1..] == [second] && [second][1..] == [];
    assert Steps(d, [second]) == Step(d, second);
  }

  const UNUSED: Cell := Cell(RESET, false)

  /**
   The runs the responder makes: it starts without a hostname, and once there is one it
   stays, until the responder is stopped.  `named` tells whether there is one already.
   */
  predicate Stays(ops: seq<Op>, named: bool)
    decreases |ops|
  {
    ops == []
    || match SetupOf(ops[0])
       case Some(s) => (named ==> s.hostname) && Stays(ops[1..], s.hostname)
       case None => Stays(ops[1..], named && !ops[0].Stop?)
  }

  /** As long as there has been no hostname there has been no probe, and so there is no list. */
  ghost predicate Safe(c: Cell, named: bool) {
    Ok(c.pcb, c.ready) && (!named ==> c.pcb.services.None?)
  }

  lemma StepStaysSafe(c: Cell, op: Op, named: bool)
    requires Safe(c, named) && Stays([op], named)
    ensures Step(c, op).Some?
    ensures Safe(Step(c, op).value, if SetupOf(op).Some? then SetupOf(op).value.hostname else named && !op.Stop?)
  {
    StepKeepsOkIff(c, op);
  }

  /**
   In none of these runs are there ever services left over outside the probing states,
   whatever the order of the operations, and merging the lists never overflows.
   */
  lemma {:induction false} RunsAreSafe(c: Cell, ops: seq<Op>, named: bool)
    requires Safe(c, named) && Stays(ops, named)
    ensures Steps(c, ops).Some? && Ok(Steps(c, ops).value.pcb, Steps(c, ops).value.ready)
    decreases |ops|
  {
    if ops != [] {
      var op := ops[0];
      assert [op][1..] == [] && Stays([], named);
      StepStaysSafe(c, op, named);
      RunsAreSafe(Step(c, op).value, ops[1..], if SetupOf(op).Some? then SetupOf(op).value.hostname
                                              else named && !op.Stop?);
    }
  }

  const READY: Setup := Setup(true, true, true)

  /**
   Why the hostname has to stay: if it could go away and come back, the third of these
   operations would write behind its list.
   */
  lemma HostnameMatters(x: Item)
    ensures var enable := Enable([x], true, READY);
            var ops := [enable, Enable([x], true, READY.(hostname := false)), enable];
      Steps(UNUSED, ops) == None && !Stays(ops, false)
  {
    var enable, unnamed := Enable([x], true, READY), Enable([x], true, READY.(hostname := false));
    var c := Step(UNUSED, enable).value;
    assert c == Cell(Pcb(PROBE_1, Some([x]), true, true, 0), true) by {
      assert Cut([x]) == [x];
    }
    var d := Step(c, unnamed).value;
    assert d.pcb.state == RUNNING && Active(d.pcb) == [x];
    assert Steps(d, [enable]) == None;
    assert [enable, unnamed, enable][1..] == [unnamed, enable] && [unnamed, enable][1..] == [enable];
    assert Steps(c, [unnamed, enable]) == Steps(d, [enable]);
    assert !Stays([unnamed, enable], true);
  }

  // ----- probing again

  predicate NoDuplicates(list: seq<Item>) {
    forall i, j :: 0 <= i < j < |list| ==> list[i] != list[j]
  }

  lemma {:induction false} UnprobedOf(services: seq<Item>, probed: seq<Item>)
    requires NoDuplicates(services)
    ensures NoDuplicates(Unprobed(services, probed))
    ensures forall x :: x in Unprobed(services, probed) <==> x in services && x !in probed
    decreases |services|
  {
    if services != [] {
      var n := |services| - 1;
      UnprobedOf(services[..n], probed);
      assert services == services[..n] + [services[n]];
    }
  }

  lemma JoinDistinct(a: seq<Item>, b: seq<Item>)
    requires NoDuplicates(a) && NoDuplicates(b) && forall x :: x in a ==> x !in b
    ensures NoDuplicates(a + b)
  {
    forall i, j | 0 <= i < j < |a + b| ensures (a + b)[i] != (a + b)[j] {
      if i < |a| <= j { assert a[i] in a && b[j - |a|] in b; }
    }
  }

  /** A list that is too long for its length field loses something. */
  lemma CutKeepsAllIff(list: seq<Item>)
    requires NoDuplicates(list)
    ensures NoDuplicates(Cut(list))
    ensures (forall x :: x in list ==> x in Cut(list)) <==> |list| < 0x100
  {
    assert forall i :: 0 <= i < |Cut(list)| ==> Cut(list)[i] == list[i];
    if |list| >= 0x100 {
      var last := list[|list| - 1];
      assert last in list && last !in Cut(list);
    }
  }

  /** Probing again while probing: everything old and new, and nothing twice. */
  lemma ReprobeIsUnion(p: Pcb, services: seq<Item>, probeIp: bool)
    requires Probing(p.state) && NoDuplicates(services) && NoDuplicates(Active(p))
    ensures var q, merged := InitProbe(p, services, probeIp, READY), Unprobed(services, Active(p)) + Active(p);
      && q.state == PROBE_1 && NoDuplicates(Active(q))
      && (forall x :: x in merged <==> x in services || x in Active(p))
      && ((forall x :: x in merged ==> x in Active(q)) <==> |merged| < 0x100)
  {
    UnprobedOf(services, Active(p));
    JoinDistinct(Unprobed(services, Active(p)), Active(p));
    CutKeepsAllIff(Unprobed(services, Active(p)) + Active(p));
  }

  lemma {:induction false} UnprobedConcat(a: seq<Item>, b: seq<Item>, probed: seq<Item>)
    ensures Unprobed(a + b, probed) == Unprobed(a, probed) + Unprobed(b, probed)
    decreases |b|
  {
    if b == [] {
      assert a + b == a;
    } else {
      UnprobedConcat(a, b[..|b| - 1], probed);
      FrontOfConcat(a, b);
    }
  }

  lemma {:induction false} UnprobedAllOrNone(services: seq<Item>, probed: seq<Item>)
    ensures (forall x :: x in services ==> x !in probed) ==> Unprobed(services, probed) == services
    ensures (forall x :: x in services ==> x in probed) ==> Unprobed(services, probed) == []
    decreases |services|
  {
    if services != [] {
      UnprobedAllOrNone(services[..|services| - 1], probed);
      Unsnoc(services);
    }
  }

  lemma CutWhole(list: seq<Item>)
    requires |list| < 0x100
    ensures Cut(list) == list
  {
  }

  /** The new services come first, in their order, then the old ones. */
  lemma NewInFront(p: Pcb, fresh1: seq<Item>, known: seq<Item>, fresh2: seq<Item>, probeIp: bool)
    requires Probing(p.state) && |fresh1| + |fresh2| + |Active(p)| < 0x100
    requires forall x :: x in fresh1 || x in fresh2 ==> x !in Active(p)
    requires forall x :: x in known ==> x in Active(p)
    ensures Active(InitProbe(p, fresh1 + known + fresh2, probeIp, READY)) == fresh1 + fresh2 + Active(p)
  {
    UnprobedConcat(fresh1 + known, fresh2, Active(p));
    UnprobedConcat(fresh1, known, Active(p));
    UnprobedAllOrNone(fresh1, Active(p));
    UnprobedAllOrNone(known, Active(p));
    UnprobedAllOrNone(fresh2, Active(p));
    assert fresh1 + [] == fresh1;
    CutWhole(fresh1 + fresh2 + Active(p));
  }

  // ----- the life of a probe packet

  datatype Sending = Sending(probe: bool, at: nat)

  function Rank(s: State): nat {
    match s
    case PROBE_1 => 6
    case PROBE_2 => 5
    case PROBE_3 => 4
    case ANNOUNCE_1 => 3
    case ANNOUNCE_2 => 2
    case ANNOUNCE_3 => 1
    case _ => 0
  }

  /**
   A packet from one sending to the next, until it is dropped: its `i`th sending is
   `late(i)` milliseconds behind time, and the announcement cannot be made from the
   probe `failures` times.
   */
  function Life(p: Pcb, probe: bool, due: nat, failures: nat, i: nat, late: nat -> nat): (seq<Sending>, Pcb)
    decreases Rank(p.state), failures
  {
    var at := due + late(i);
    var (q, fate) := Sent(p, failures == 0);
    match fate
    case Drop => ([Sending(probe, at)], q)
    case Resend(after) =>
      var rest := Life(q, probe, at + after, if p.state.PROBE_3? then failures - 1 else failures, i + 1, late);
      ([Sending(probe, at)] + rest.0, rest.1)
    case ResendAsAnnounce(after) =>
      var rest := Life(q, false, at + after, failures, i + 1, late);
      ([Sending(probe, at)] + rest.0, rest.1)
  }

  /** `n` probes and then `m` announcements, every one of them so late. */
  function Timeline(due: nat, n: nat, m: nat, i: nat, late: nat -> nat): (t: seq<Sending>)
    ensures |t| == n + m
    decreases n, m
  {
    var at := due + late(i);
    if n > 0 then [Sending(true, at)] + Timeline(at + 250, n - 1, m, i + 1, late)
    else if m > 0 then [Sending(false, at)] + Timeline(at + 1000, 0, m - 1, i + 1, late)
    else []
  }

  function AnnouncementsLeft(s: State): nat {
    match s
    case ANNOUNCE_2 => 2
    case ANNOUNCE_3 => 1
    case _ => 3
  }

  lemma {:induction false} AnnouncingLife(p: Pcb, due: nat, i: nat, late: nat -> nat)
    requires Announcing(p.state)
    ensures Life(p, false, due, 0, i, late)
         == (Timeline(due, 0, AnnouncementsLeft(p.state), i, late), p.(state := RUNNING))
    decreases Rank(p.state)
  {
    var at := due + late(i);
    if p.state == ANNOUNCE_3 {
      assert Sent(p, true) == (p.(state := RUNNING), Drop);
      assert [Sending(false, at)] + Timeline(at + 1000, 0, 0, i + 1, late) == [Sending(false, at)];
    } else {
      var q := p.(state := Next(p.state));
      assert Sent(p, true) == (q, Resend(1000));
      AnnouncingLife(q, at + 1000, i + 1, late);
    }
  }

  lemma {:induction false} LastProbeLife(p: Pcb, due: nat, failures: nat, i: nat, late: nat -> nat)
    requires p.state.PROBE_3?
    ensures Life(p, true, due, failures, i, late)
         == (Timeline(due, failures + 1, 3, i, late), RESET.(state := RUNNING))
    decreases failures
  {
    var at := due + late(i);
    if failures == 0 {
      var q := RESET.(state := ANNOUNCE_1);
      assert Sent(p, true) == (q, ResendAsAnnounce(250));
      AnnouncingLife(q, at + 250, i + 1, late);
    } else {
      assert Sent(p, false) == (p, Resend(250));
      LastProbeLife(p, at + 250, failures - 1, i + 1, late);
    }
  }

  lemma ProbeLife(p: Pcb, due: nat, failures: nat, i: nat, late: nat -> nat, q: Pcb, n: nat)
    requires (p.state.PROBE_1? || p.state.PROBE_2?) && q == p.(state := Next(p.state))
    requires Life(q, true, due + late(i) + 250, failures, i + 1, late)
          == (Timeline(due + late(i) + 250, n, 3, i + 1, late), RESET.(state := RUNNING))
    ensures Life(p, true, due, failures, i, late) == (Timeline(due, n + 1, 3, i, late), RESET.(state := RUNNING))
  {
    assert Sent(p, failures == 0) == (q, Resend(250));
  }

  lemma LifeIsTimeline(p: Pcb, due: nat, failures: nat, late: nat -> nat)
    requires p.state.PROBE_1?
    ensures Life(p, true, due, failures, 0, late) == (Timeline(due, failures + 3, 3, 0, late), RESET.(state := RUNNING))
  {
    var q, r := p.(state := PROBE_2), p.(state := PROBE_3);
    var second := due + late(0) + 250;
    var third := second + late(1) + 250;
    LastProbeLife(r, third, failures, 2, late);
    ProbeLife(q, second, failures, 1, late, r, failures + 1);
    ProbeLife(p, due, failures, 0, late, q, failures + 2);
  }

  /** When the `k`th of the sendings is due: after the one before it, by what kind that is. */
  function DueAfter(t: seq<Sending>, due: nat, k: nat): nat
    requires k <= |t|
  {
    if k == 0 then due else t[k - 1].at + if t[k - 1].probe then 250 else 1000
  }

  lemma {:induction false} TimelineAt(due: nat, n: nat, m: nat, i: nat, late: nat -> nat, k: nat)
    requires k < n + m
    ensures var t := Timeline(due, n, m, i, late);
      (t[k].probe <==> k < n) && t[k].at == DueAfter(t, due, k) + late(i + k)
    decreases k
  {
    if k > 0 {
      var at := due + late(i);
      if n > 0 {
        TimelineAt(at + 250, n - 1, m, i + 1, late, k - 1);
      } else {
        TimelineAt(at + 1000, 0, m - 1, i + 1, late, k - 1);
      }
    }
  }

  /** `n` probes and then announcements, the `k`th of them `late(k)` behind its time. */
  predicate Keeps(t: seq<Sending>, due: nat, n: nat, late: nat -> nat) {
    forall k {:trigger DueAfter(t, due, k)} :: 0 <= k < |t| ==>
      (t[k].probe <==> k < n) && t[k].at == DueAfter(t, due, k) + late(k)
  }

  /**
   A probe that nothing disturbs is sent three times, and once more for every
   announcement that could not be made; then three announcements follow.  Each is
   due 250 milliseconds after a probe and a second after an announcement, so none
   comes earlier than that, however late the ones before it were.
   */
  lemma LifeOfProbe(p: Pcb, due: nat, failures: nat, late: nat -> nat)
    requires p.state.PROBE_1?
    ensures var (sent, q) := Life(p, true, due, failures, 0, late);
      |sent| == failures + 6 && q == RESET.(state := RUNNING) && Keeps(sent, due, failures + 3, late)
  {
    LifeIsTimeline(p, due, failures, late);
    var t := Timeline(due, failures + 3, 3, 0, late);
    forall k | 0 <= k < |t|
      ensures (t[k].probe <==> k < failures + 3) && t[k].at == DueAfter(t, due, k) + late(k)
    {
      TimelineAt(due, failures + 3, 3, 0, late, k);
    }
  }

  /**
   An announcement that is asked for: while announcing it begins again if a packet is waiting,
   and when running it begins if there is a hostname.
   */
  lemma AnnouncesAgain(p: Pcb, services: seq<Item>, includeIp: bool, scheduled: bool, s: Setup)
    requires !Probing(p.state)
    ensures var q := Announce(p, services, includeIp, scheduled, s);
      && q == p.(state := q.state)
      && (Announcing(p.state) ==> q.state == if scheduled then ANNOUNCE_1 else p.state)
      && (p.state == RUNNING ==> q.state == if s.hostname then ANNOUNCE_1 else RUNNING)
      && (p.state == OFF ==> q.state == OFF)
  {
  }

  /** Three announcements follow, a second apart from when they are sent. */
  lemma LifeOfAnnouncement(p: Pcb, due: nat, late: nat -> nat)
    requires p.state.ANNOUNCE_1?
    ensures var (sent, q) := Life(p, false, due, 0, 0, late);
      |sent| == 3 && q == p.(state := RUNNING) && Keeps(sent, due, 0, late)
  {
    AnnouncingLife(p, due, 0, late);
    var t := Timeline(due, 0, 3, 0, late);
    forall k | 0 <= k < |t|
      ensures (t[k].probe <==> k < 0) && t[k].at == DueAfter(t, due, k) + late(k)
    {
      TimelineAt(due, 0, 3, 0, late, k);
    }
  }

  /** Where the `k`th sending would be if none were late. */
  function Slot(due: nat, n: nat, k: nat): nat {
    due + if k <= n then 250 * k else 250 * n + 1000 * (k - n)
  }

  lemma {:induction false} Grid(t: seq<Sending>, due: nat, n: nat, late: nat -> nat, most: nat, k: nat)
    requires Keeps(t, due, n, late) && k < |t|
    requires forall i :: 0 <= i < |t| ==> 1 <= late(i) <= most
    ensures Slot(due, n, k) + (k + 1) <= t[k].at <= Slot(due, n, k) + most * (k + 1)
    decreases k
  {
    assert t[k].at == DueAfter(t, due, k) + late(k);
    if k > 0 {
      Grid(t, due, n, late, most, k - 1);
      assert t[k - 1].at == DueAfter(t, due, k - 1) + late(k - 1);
    }
  }

  /**
   A packet is only handed over when its time is past.  With every sending from one to
   `most` milliseconds late, the `k`th comes behind its slot, and no more than `k + 1`
   times as late.
   */
  lemma LifeOnTime(p: Pcb, due: nat, failures: nat, late: nat -> nat, most: nat, k: nat)
    requires p.state.PROBE_1? && k < failures + 6
    requires forall i :: 0 <= i < failures + 6 ==> 1 <= late(i) <= most
    ensures var sent := Life(p, true, due, failures, 0, late).0;
      && |sent| == failures + 6
      && Slot(due, failures + 3, k) + (k + 1) <= sent[k].at <= Slot(due, failures + 3, k) + most * (k + 1)
  {
    LifeOfProbe(p, due, failures, late);
    Grid(Life(p, true, due, failures, 0, late).0, due, failures + 3, late, most, k);
  }

  // ----- the table of all interfaces and protocols

  /** What happens to the transmit queue. */
  datatype Event = ClearQueue(netif: nat, proto: nat) | Schedule(netif: nat, proto: nat, after: nat)

  /** The delay before a first probe: longer after many failures, and a little random. */
  function FirstDelay(p: Pcb, random: nat): (ms: nat)
    ensures p.failedProbes <= 5 ==> 120 <= ms < 250
    ensures p.failedProbes > 5 ==> 1000 <= ms < 1130
  {
    (if p.failedProbes > 5 then 1000 else 120) + random % 0x80
  }

  predicate Starts(p: Pcb, services: seq<Item>, s: Setup) {
    s.packet && (s.alloc || Merged(p, services) == [])
  }

  /** The events of a probe that is started on an interface in state `p`. */
  function ProbeEvents(i: nat, j: nat, p: Pcb, services: seq<Item>, s: Setup, random: nat): seq<Event> {
    var list := if Probing(p.state) then Unprobed(services, Active(p)) else services;
    [ClearQueue(i, j)]
    + if s.hostname && Starts(p, list, s) then [Schedule(i, j, FirstDelay(p, random))] else []
  }

  predicate NothingToAsk(p: Pcb, services: seq<Item>) {
    services == [] && (Probing(p.state) ==> Active(p) == [])
  }

  lemma MergedEmptyIff(p: Pcb, services: seq<Item>)
    ensures Merged(p, if Probing(p.state) then Unprobed(services, Active(p)) else services) == []
       <==> NothingToAsk(p, services)
  {
    if Probing(p.state) && services != [] && Active(p) == [] {
      assert Unprobed(services, []) != [];
    }
  }

  /**
   A new probe is scheduled exactly if there is a hostname, and a packet and a list can be
   made; then it is the interface's.  Otherwise the queue has been cleared all the same:
   without a list an interface that was probing goes on waiting for a probe that is gone.
   */
  lemma ProbeIsScheduledIff(i: nat, j: nat, p: Pcb, services: seq<Item>, probeIp: bool, s: Setup, random: nat)
    ensures var q, events := InitProbe(p, services, probeIp, s), ProbeEvents(i, j, p, services, s, random);
      && (events == [ClearQueue(i, j), Schedule(i, j, FirstDelay(p, random))]
          <==> s.hostname && s.packet && (s.alloc || NothingToAsk(p, services)))
      && (events == [ClearQueue(i, j), Schedule(i, j, FirstDelay(p, random))] || events == [ClearQueue(i, j)])
      && (|events| == 2 ==> q.state == PROBE_1 && q.probeRunning && q.probeIp == (p.probeIp || probeIp)
                            && q.failedProbes == p.failedProbes)
      && (!s.hostname ==> q == p.(state := RUNNING))
      && (s.hostname && !s.alloc && !NothingToAsk(p, services) ==> q == p)
      && (s.hostname && (s.alloc || NothingToAsk(p, services)) && !s.packet ==>
            q == p.(services := None, probeIp := false, probeRunning := false))
  {
    MergedEmptyIff(p, services);
  }

  /** What a new probe asks for on an interface that is not probing, or whose old list is given up. */
  lemma FreshProbe(p: Pcb, services: seq<Item>, probeIp: bool)
    requires !Probing(p.state) || p.services.None?
    ensures var q := InitProbe(p, services, probeIp, READY);
      && (Active(q) == services <==> |services| < 0x100)
      && q.state == PROBE_1
  {
    if Probing(p.state) {
      NoneProbed(services);
      assert services + [] == services;
    }
  }

  lemma {:induction false} NoneProbed(services: seq<Item>)
    ensures Unprobed(services, []) == services
    decreases |services|
  {
    if services != [] {
      NoneProbed(services[..|services| - 1]);
      assert services[..|services| - 1] + [services[|services| - 1]] == services;
    }
  }

  function Failures(n: nat): (ops: seq<Op>)
    ensures |ops| == n
  {
    if n == 0 then [] else [ProbeFailed] + Failures(n - 1)
  }

  lemma {:induction false} FailuresCount(c: Cell, n: nat)
    requires c.pcb.failedProbes + n < 0x1_0000
    ensures Steps(c, Failures(n)) == Some(c.(pcb := c.pcb.(failedProbes := c.pcb.failedProbes + n)))
    decreases n
  {
    if n > 0 {
      assert Failures(n)[1..] == Failures(n - 1);
      FailuresCount(Step(c, ProbeFailed).value, n - 1);
    }
  }

  /** After more than five conflicts a new probe waits for a second. */
  lemma BacksOffIff(c: Cell, n: nat, random: nat)
    requires c.pcb.failedProbes == 0 && n < 0x1_0000
    ensures Steps(c, Failures(n)).Some?
    ensures FirstDelay(Steps(c, Failures(n)).value.pcb, random) >= 1000 <==> n > 5
  {
    FailuresCount(c, n);
  }

  /** The events of enabling, announcing and probing one interface and protocol. */
  function EnableEvents(i: nat, j: nat, c: Cell, all: seq<Item>, initOk: bool, s: Setup, random: nat): seq<Event> {
    if c.ready || initOk then ProbeEvents(i, j, c.pcb, all, s, random) else []
  }

  function AnnounceEvents(i: nat, j: nat, c: Cell, services: seq<Item>, s: Setup, random: nat): seq<Event> {
    if !c.ready then []
    else if Probing(c.pcb.state) then ProbeEvents(i, j, c.pcb, services, s, random)
    else if c.pcb.state == RUNNING && s.hostname && s.packet then [Schedule(i, j, 0)]
    else []
  }

  function CellProbeEvents(i: nat, j: nat, c: Cell, services: seq<Item>, clearOld: bool, s: Setup, random: nat)
    : seq<Event>
  {
    if c.ready then ProbeEvents(i, j, if clearOld then ClearOld(c.pcb) else c.pcb, services, s, random) else []
  }

  function DuplicateEvents(i: nat, other: nat, j: nat, c: Cell, d: Cell, s: Setup, random: nat): seq<Event> {
    if d.ready then (if c.ready then [ClearQueue(i, j)] else []) + AnnounceEvents(other, j, d, [], s, random) else []
  }

  /** Probing on the first `n` interfaces, one protocol after the other. */
  function Sweep(cells: seq<(Cell, Cell)>, n: nat, services: seq<Item>, clearOld: bool,
                 setup: (nat, nat) -> Setup, random: (nat, nat) -> nat): seq<Event>
    requires n <= |cells|
  {
    if n == 0 then []
    else
      Sweep(cells, n - 1, services, clearOld, setup, random)
      + RowEvents(n - 1, cells[n - 1], services, clearOld, setup, random)
  }

  function RowEvents(i: nat, row: (Cell, Cell), services: seq<Item>, clearOld: bool,
                     setup: (nat, nat) -> Setup, random: (nat, nat) -> nat): seq<Event>
  {
    CellProbeEvents(i, 0, row.0, services, clearOld, setup(i, 0), random(i, 0))
    + CellProbeEvents(i, 1, row.1, services, clearOld, setup(i, 1), random(i, 1))
  }

  class Interfaces {
    const pcbs: array2<Pcb>
    const ready: array2<bool>
    var log: seq<Event>

    ghost predicate Sized() {
      pcbs.Length0 == ready.Length0 && pcbs.Length1 == ready.Length1 == 2
    }

    predicate In(i: int, j: int) {
      0 <= i < pcbs.Length0 && 0 <= j < pcbs.Length1
    }

    ghost function At(i: int, j: int): Cell
      requires Sized() && In(i, j)
      reads pcbs, ready
    {
      Cell(pcbs[i, j], ready[i, j])
    }

    ghost predicate Valid()
      reads pcbs, ready
    {
      Sized() && forall i, j :: In(i, j) ==> Ok(pcbs[i, j], ready[i, j])
    }

    constructor (interfaces: nat)
      ensures Valid() && pcbs.Length0 == interfaces && log == []
      ensures forall i, j :: In(i, j) ==> At(i, j) == UNUSED
    {
      pcbs := new Pcb[interfaces, 2]((_, _) => RESET);
      ready := new bool[interfaces, 2]((_, _) => false);
      log := [];
    }

    /** The loop that looks for services that are being probed for already. */
    static method FindUnprobed(services: seq<Item>, probed: seq<Item>) returns (r: seq<Item>)
      ensures r == Unprobed(services, probed)
    {
      r := [];
      for j := 0 to |services|
        invariant r == Unprobed(services[..j], probed)
      {
        var found := false;
        for i := 0 to |probed|
          invariant found == (services[j] in probed[..i])
        {
          if probed[i] == services[j] { found := true; break; }
        }
        assert probed[..|probed|] == probed && services[..j + 1][..j] == services[..j];
        if !found { r := r + [services[j]]; }
      }
      assert services[..|services|] == services;
    }

    /** The new services and behind them the old ones, in a list allocated for `size` of them. */
    static method CopyLists(services: seq<Item>, previous: seq<Item>, size: nat) returns (r: seq<Item>)
      requires |services| + |previous| == size
      ensures r == services + previous
    {
      var s := new Item[size](_ => Item(0, 0));
      for i := 0 to |services|
        invariant s[..i] == services[..i]
      {
        s[i] := services[i];
      }
      for i := 0 to |previous|
        invariant s[..|services|] == services && s[|services|..|services| + i] == previous[..i]
      {
        s[|services| + i] := previous[i];
      }
      r := s[..];
      assert r == s[..|services|] + s[|services|..|services| + |previous|];
    }

    /** Nothing changes for the other interfaces and protocols. */
    twostate predicate OnlyAt(i: int, j: int)
      requires Sized()
      reads pcbs, ready
    {
      forall a, b :: In(a, b) && (a != i || b != j) ==> pcbs[a, b] == old(pcbs[a, b]) && ready[a, b] == old(ready[a, b])
    }

    method InitNewService(i: nat, j: nat, services: seq<Item>, probeIp: bool, s: Setup, random: nat)
      requires Sized() && In(i, j) && Fits(pcbs[i, j], services)
      modifies pcbs, this`log
      ensures pcbs[i, j] == InitNew(old(pcbs[i, j]), services, probeIp, s) && OnlyAt(i, j)
      ensures log == old(log) + if Starts(old(pcbs[i, j]), services, s)
                                then [Schedule(i, j, FirstDelay(old(pcbs[i, j]), random))] else []
    {
      var p := pcbs[i, j];
      var size := |services|;
      if Probing(p.state) { size := size + |Active(p)|; }
      var list: Option<seq<Item>> := None;
      if size > 0 {
        if !s.alloc { return; }
        var merged := CopyLists(services, Active(p), size);
        assert merged == Merged(p, services) by {
          assert services + [] == services;
        }
        list := Some(Cut(merged));
      }
      var ip := p.probeIp || probeIp;
      pcbs[i, j] := p.(probeIp := false, services := None, probeRunning := false);
      if !s.packet { return; }
      pcbs[i, j] := p.(state := PROBE_1, probeIp := ip, services := list, probeRunning := true);
      log := log + [Schedule(i, j, FirstDelay(p, random))];
    }

    method InitPcbProbe(i: nat, j: nat, services: seq<Item>, probeIp: bool, s: Setup, random: nat)
      requires Sized() && In(i, j) && (s.hostname ==> Fits(pcbs[i, j], services))
      modifies pcbs, this`log
      ensures pcbs[i, j] == InitProbe(old(pcbs[i, j]), services, probeIp, s) && OnlyAt(i, j)
      ensures log == old(log) + ProbeEvents(i, j, old(pcbs[i, j]), services, s, random)
    {
      log := log + [ClearQueue(i, j)];
      var p := pcbs[i, j];
      if !s.hostname {
        pcbs[i, j] := p.(state := RUNNING);
        return;
      }
      if Probing(p.state) {
        var added := FindUnprobed(services, Active(p));
        InitNewService(i, j, added, probeIp, s, random);
      } else {
        InitNewService(i, j, services, probeIp, s, random);
      }
    }

    method DeinitPcb(i: nat, j: nat)
      requires Sized() && In(i, j)
      modifies pcbs, ready
      ensures At(i, j) == UNUSED && OnlyAt(i, j)
    {
      ready[i, j] := false;
      pcbs[i, j] := RESET;
    }

    /** Switches an interface on, if it can be initialised, and probes for everything. */
    method EnablePcb(i: nat, j: nat, all: seq<Item>, initOk: bool, s: Setup, random: nat)
      requires Valid() && In(i, j)
      modifies pcbs, ready, this`log
      ensures At(i, j) == Step(old(At(i, j)), Enable(all, initOk, s)).value && OnlyAt(i, j)
      ensures Valid() <==> !LosesList(old(At(i, j)), Enable(all, initOk, s))
      ensures log == old(log) + EnableEvents(i, j, old(At(i, j)), all, initOk, s, random)
    {
      StepKeepsOkIff(At(i, j), Enable(all, initOk, s));
      if !ready[i, j] {
        if !initOk {
          pcbs[i, j] := pcbs[i, j].(failedProbes := 0);
          return;
        }
        ready[i, j] := true;
      }
      InitPcbProbe(i, j, all, true, s, random);
    }

    method AnnouncePcb(i: nat, j: nat, services: seq<Item>, includeIp: bool, scheduled: bool, s: Setup, random: nat)
      requires Sized() && In(i, j) && Ok(pcbs[i, j], ready[i, j])
      modifies pcbs, this`log
      ensures At(i, j) == Step(old(At(i, j)), DoAnnounce(services, includeIp, scheduled, s)).value && OnlyAt(i, j)
      ensures Ok(pcbs[i, j], ready[i, j]) <==> !LosesList(old(At(i, j)), DoAnnounce(services, includeIp, scheduled, s))
      ensures log == old(log) + AnnounceEvents(i, j, old(At(i, j)), services, s, random)
    {
      StepKeepsOkIff(At(i, j), DoAnnounce(services, includeIp, scheduled, s));
      var p := pcbs[i, j];
      if ready[i, j] {
        if Probing(p.state) {
          InitPcbProbe(i, j, services, includeIp, s, random);
        } else if Announcing(p.state) {
          if scheduled { pcbs[i, j] := p.(state := ANNOUNCE_1); }
        } else if p.state == RUNNING {
          if !s.hostname { return; }
          pcbs[i, j] := p.(state := ANNOUNCE_1);
          if s.packet { log := log + [Schedule(i, j, 0)]; }
        }
      }
    }

    /** What happens to a packet once it has been sent. */
    method HandleSent(i: nat, j: nat, alloc: bool)
      requires Valid() && In(i, j)
      modifies pcbs, this`log
      ensures At(i, j) == Step(old(At(i, j)), PacketSent(alloc)).value && OnlyAt(i, j) && Valid()
      ensures log == old(log) + match Sent(old(pcbs[i, j]), alloc).1
                                case Resend(after) => [Schedule(i, j, after)]
                                case ResendAsAnnounce(after) => [Schedule(i, j, after)]
                                case Drop => []
    {
      StepKeepsOkIff(At(i, j), PacketSent(alloc));
      var p := pcbs[i, j];
      if p.state == OFF { return; }
      var after := 1000;
      match p.state {
        case PROBE_1 | PROBE_2 =>
          log := log + [Schedule(i, j, 250)];
          pcbs[i, j] := p.(state := Next(p.state));
        case PROBE_3 =>
          if !alloc {
            log := log + [Schedule(i, j, 250)];
            return;
          }
          log := log + [Schedule(i, j, 250)];
          pcbs[i, j] := Pcb(Next(p.state), None, false, false, 0);
        case ANNOUNCE_1 | ANNOUNCE_2 =>
          log := log + [Schedule(i, j, 1000)];
          pcbs[i, j] := p.(state := Next(p.state));
        case ANNOUNCE_3 =>
          pcbs[i, j] := p.(state := RUNNING);
        case _ =>
      }
    }

    /** The loop that looks for a service. */
    static method Find(list: seq<Item>, service: nat) returns (i: nat)
      ensures i == Position(list, service)
    {
      i := 0;
      while i < |list| && list[i].service != service
        invariant i <= |list| && forall k :: 0 <= k < i ==> list[k].service != service
      {
        i := i + 1;
      }
      FirstIsPosition(list, service, i);
    }

    /** The loop that closes the gap at `i`: the later items move down one after the other. */
    static method CloseGap(list: seq<Item>, i: nat) returns (r: seq<Item>)
      requires i < |list|
      ensures r == list[..i] + list[i + 1..]
    {
      r := list;
      var n := i + 1;
      while n < |list|
        invariant i < n <= |list| && |r| == |list|
        invariant forall k :: 0 <= k < i || n <= k < |list| ==> r[k] == list[k]
        invariant forall k :: i <= k < n - 1 ==> r[k] == list[k + 1]
      {
        r := r[n - 1 := r[n]];
        n := n + 1;
      }
      r := r[..|list| - 1];
      assert r == list[..i] + list[i + 1..];
    }

    static method TakeOut(list: seq<Item>, service: nat) returns (r: seq<Item>, found: bool)
      ensures var i := Position(list, service);
        found == (i < |list|) && r == if found then list[..i] + list[i + 1..] else list
    {
      r := list;
      var i := Find(list, service);
      found := i < |list|;
      if found { r := CloseGap(list, i); }
    }

    method CheckProbing(i: nat, j: nat, service: nat, removedAnswers: bool) returns (removeQuestions: bool)
      requires Valid() && In(i, j) && ready[i, j]
      modifies pcbs
      ensures At(i, j) == Step(old(At(i, j)), Remove(service, removedAnswers)).value && OnlyAt(i, j) && Valid()
      ensures removeQuestions == Forget(old(pcbs[i, j]), service, removedAnswers).1
    {
      StepKeepsOkIff(At(i, j), Remove(service, removedAnswers));
      var p := pcbs[i, j];
      if Probing(p.state) {
        var rest, found := TakeOut(Active(p), service);
        if found {
          if |Active(p)| > 1 {
            pcbs[i, j] := p.(services := Some(rest));
          } else {
            pcbs[i, j] := p.(services := None);
            if !p.probeIp { pcbs[i, j] := pcbs[i, j].(probeRunning := false, state := RUNNING); }
          }
          return true;
        }
      } else if Announcing(p.state) {
        if removedAnswers { pcbs[i, j] := p.(state := RUNNING); }
      }
      return false;
    }

    /** Switches an interface off; one that had been set aside as its duplicate takes its place. */
    method DisablePcb(i: nat, j: nat, other: Option<nat>, all: seq<Item>, initOk: bool, s: Setup, random: nat)
      requires Valid() && In(i, j) && (other.Some? ==> In(other.value, j) && other.value != i)
      modifies pcbs, ready, this`log
      ensures At(i, j) == Step(old(At(i, j)), Disable).value
      ensures other.None? || !old(ready[i, j]) || old(pcbs[other.value, j]).state != DUP ==> OnlyAt(i, j)
      ensures other.Some? && old(ready[i, j]) && old(pcbs[other.value, j]).state == DUP ==>
                Some(At(other.value, j)) == Steps(old(At(other.value, j)), [NoDuplicate, Enable(all, initOk, s)])
      ensures Valid()
      ensures pcbs[i, j] == (if old(ready[i, j]) then RESET else old(pcbs[i, j]).(state := OFF)) && !ready[i, j]
      ensures log == old(log)
        + (if old(ready[i, j]) then [ClearQueue(i, j)] else [])
        + if other.Some? && old(ready[i, j]) && old(pcbs[other.value, j]).state == DUP
          then EnableEvents(other.value, j, Step(old(At(other.value, j)), NoDuplicate).value, all, initOk, s, random)
          else []
    {
      if ready[i, j] {
        log := log + [ClearQueue(i, j)];
        DeinitPcb(i, j);
        if other.Some? && pcbs[other.value, j].state == DUP {
          TwoSteps(At(other.value, j), NoDuplicate, Enable(all, initOk, s));
          pcbs[other.value, j] := pcbs[other.value, j].(state := OFF);
          EnablePcb(other.value, j, all, initOk, s, random);
        }
      }
      pcbs[i, j] := pcbs[i, j].(state := OFF);
    }

    /** An interface is switched off because another one serves the same network. */
    method SetAside(i: nat, j: nat)
      requires Sized() && In(i, j) && Ok(pcbs[i, j], ready[i, j])
      modifies pcbs, ready, this`log
      ensures At(i, j) == Step(old(At(i, j)), SetDuplicate).value && OnlyAt(i, j) && Ok(pcbs[i, j], ready[i, j])
      ensures log == old(log) + if old(ready[i, j]) then [ClearQueue(i, j)] else []
    {
      StepKeepsOkIff(At(i, j), SetDuplicate);
      if ready[i, j] {
        log := log + [ClearQueue(i, j)];
        DeinitPcb(i, j);
      }
      pcbs[i, j] := pcbs[i, j].(state := DUP);
    }

    method DuplicateAt(i: nat, other: nat, j: nat, scheduled: bool, s: Setup, random: nat)
      requires Sized() && In(i, j) && In(other, j) && other != i
      requires Ok(pcbs[i, j], ready[i, j]) && Ok(pcbs[other, j], ready[other, j])
      modifies pcbs, ready, this`log
      ensures At(i, j) == if old(ready[other, j]) then Step(old(At(i, j)), SetDuplicate).value else old(At(i, j))
      ensures At(other, j) == if old(ready[other, j])
                              then Step(old(At(other, j)), DoAnnounce([], true, scheduled, s)).value
                              else old(At(other, j))
      ensures forall a, b :: In(a, b) && (b != j || (a != i && a != other)) ==> At(a, b) == old(At(a, b))
      ensures s.hostname ==> Ok(pcbs[i, j], ready[i, j]) && Ok(pcbs[other, j], ready[other, j])
      ensures log == old(log) + DuplicateEvents(i, other, j, old(At(i, j)), old(At(other, j)), s, random)
    {
      if ready[other, j] {
        ghost var cleared := if ready[i, j] then [ClearQueue(i, j)] else [];
        ghost var announced := AnnounceEvents(other, j, At(other, j), [], s, random);
        SetAside(i, j);
        AnnouncePcb(other, j, [], true, scheduled, s, random);
        assert log == old(log) + (cleared + announced) by { Joined(old(log), cleared, announced); }
      }
    }

    /** Sets an interface aside, and announces its addresses on the one that is on the same network. */
    method SetDuplicatePcb(i: nat, other: nat, scheduled: nat -> bool, s: Setup, random: nat -> nat)
      requires Valid() && i < pcbs.Length0 && other < pcbs.Length0 && other != i
      modifies pcbs, ready, this`log
      ensures forall j :: 0 <= j < 2 ==>
        && At(i, j) == (if old(ready[other, j]) then Step(old(At(i, j)), SetDuplicate).value else old(At(i, j)))
        && At(other, j) == if old(ready[other, j])
                           then Step(old(At(other, j)), DoAnnounce([], true, scheduled(j), s)).value
                           else old(At(other, j))
      ensures forall a, b :: In(a, b) && a != i && a != other ==> At(a, b) == old(At(a, b))
      ensures s.hostname ==> Valid()
      ensures log == old(log) + DuplicateEvents(i, other, 0, old(At(i, 0)), old(At(other, 0)), s, random(0))
                     + DuplicateEvents(i, other, 1, old(At(i, 1)), old(At(other, 1)), s, random(1))
    {
      assert Ok(pcbs[i, 1], ready[i, 1]) && Ok(pcbs[other, 1], ready[other, 1]);
      ghost var c, d := At(i, 1), At(other, 1);
      DuplicateAt(i, other, 0, scheduled(0), s, random(0));
      assert At(i, 1) == c && At(other, 1) == d;
      DuplicateAt(i, other, 1, scheduled(1), s, random(1));
    }

    method ProbeAt(i: nat, j: nat, services: seq<Item>, probeIp: bool, clearOld: bool, s: Setup, random: nat)
      requires Sized() && In(i, j) && Ok(pcbs[i, j], ready[i, j])
      modifies pcbs, this`log
      ensures At(i, j) == Step(old(At(i, j)), Probe(services, probeIp, clearOld, s)).value && OnlyAt(i, j)
      ensures Ok(pcbs[i, j], ready[i, j]) <==> !LosesList(old(At(i, j)), Probe(services, probeIp, clearOld, s))
      ensures log == old(log) + CellProbeEvents(i, j, old(At(i, j)), services, clearOld, s, random)
    {
      StepKeepsOkIff(At(i, j), Probe(services, probeIp, clearOld, s));
      if ready[i, j] {
        if clearOld { pcbs[i, j] := pcbs[i, j].(services := None, probeRunning := false); }
        InitPcbProbe(i, j, services, probeIp, s, random);
      }
    }

    method ProbeRow(i: nat, services: seq<Item>, probeIp: bool, clearOld: bool,
                    setup: (nat, nat) -> Setup, random: (nat, nat) -> nat)
      requires Sized() && i < pcbs.Length0 && Ok(pcbs[i, 0], ready[i, 0]) && Ok(pcbs[i, 1], ready[i, 1])
      modifies pcbs, this`log
      ensures At(i, 0) == Step(old(At(i, 0)), Probe(services, probeIp, clearOld, setup(i, 0))).value
      ensures At(i, 1) == Step(old(At(i, 1)), Probe(services, probeIp, clearOld, setup(i, 1))).value
      ensures forall a, b :: In(a, b) && a != i ==> At(a, b) == old(At(a, b))
      ensures log == old(log) + RowEvents(i, (old(At(i, 0)), old(At(i, 1))), services, clearOld, setup, random)
    {
      ghost var c := At(i, 1);
      ghost var first := CellProbeEvents(i, 0, At(i, 0), services, clearOld, setup(i, 0), random(i, 0));
      ghost var second := CellProbeEvents(i, 1, c, services, clearOld, setup(i, 1), random(i, 1));
      ProbeAt(i, 0, services, probeIp, clearOld, setup(i, 0), random(i, 0));
      assert At(i, 1) == c;
      ProbeAt(i, 1, services, probeIp, clearOld, setup(i, 1), random(i, 1));
      assert log == old(log) + (first + second) by { Joined(old(log), first, second); }
    }

    /** Row `a` has been probed on. */
    ghost predicate Swept(row: (Cell, Cell), a: nat, services: seq<Item>, probeIp: bool, clearOld: bool,
                          setup: (nat, nat) -> Setup)
      requires Sized() && a < pcbs.Length0
      reads pcbs, ready
    {
      && Some(At(a, 0)) == Step(row.0, Probe(services, probeIp, clearOld, setup(a, 0)))
      && Some(At(a, 1)) == Step(row.1, Probe(services, probeIp, clearOld, setup(a, 1)))
    }

    /** The rows from the `i`th on are as they were, those before it have been probed on. */
    ghost predicate SweptTo(cells: seq<(Cell, Cell)>, i: nat, services: seq<Item>, probeIp: bool, clearOld: bool,
                            setup: (nat, nat) -> Setup)
      reads pcbs, ready
    {
      && Sized() && |cells| == pcbs.Length0 && i <= |cells|
      && (forall a :: 0 <= a < i ==> Swept(cells[a], a, services, probeIp, clearOld, setup))
      && (forall a :: i <= a < |cells| ==> cells[a] == (At(a, 0), At(a, 1)))
    }

    method SweepOne(i: nat, services: seq<Item>, probeIp: bool, clearOld: bool,
                    setup: (nat, nat) -> Setup, random: (nat, nat) -> nat, ghost cells: seq<(Cell, Cell)>)
      requires SweptTo(cells, i, services, probeIp, clearOld, setup) && i < |cells| && RowsOk(cells)
      modifies pcbs, this`log
      ensures SweptTo(cells, i + 1, services, probeIp, clearOld, setup)
      ensures log == old(log) + RowEvents(i, cells[i], services, clearOld, setup, random)
    {
      assert RowOk(cells[i]);
      StepKeepsOkIff(cells[i].0, Probe(services, probeIp, clearOld, setup(i, 0)));
      StepKeepsOkIff(cells[i].1, Probe(services, probeIp, clearOld, setup(i, 1)));
      ProbeRow(i, services, probeIp, clearOld, setup, random);
      forall a | 0 <= a < i ensures Swept(cells[a], a, services, probeIp, clearOld, setup) {
        assert At(a, 0) == old(At(a, 0)) && At(a, 1) == old(At(a, 1));
      }
    }

    /** Probes on one interface and protocol after the other; `cells` are all of them as they were. */
    method ProbeAll(services: seq<Item>, probeIp: bool, clearOld: bool,
                    setup: (nat, nat) -> Setup, random: (nat, nat) -> nat, ghost cells: seq<(Cell, Cell)>)
      requires Valid() && SweptTo(cells, 0, services, probeIp, clearOld, setup)
      modifies pcbs, this`log
      ensures SweptTo(cells, |cells|, services, probeIp, clearOld, setup)
      ensures (forall a, b :: In(a, b) ==> setup(a, b).hostname) ==> Valid()
      ensures log == old(log) + Sweep(cells, |cells|, services, clearOld, setup, random)
    {
      RowsAreOk(cells, services, probeIp, clearOld, setup);
      assert log + [] == log;
      SweepAll(services, probeIp, clearOld, setup, random, cells, log);
      SweptIsOk(cells, services, probeIp, clearOld, setup);
    }

    method SweepAll(services: seq<Item>, probeIp: bool, clearOld: bool, setup: (nat, nat) -> Setup,
                    random: (nat, nat) -> nat, ghost cells: seq<(Cell, Cell)>, ghost before: seq<Event>)
      requires Sweeping(cells, 0, services, probeIp, clearOld, setup, random, before)
      modifies pcbs, this`log
      ensures Sweeping(cells, |cells|, services, probeIp, clearOld, setup, random, before)
    {
      for i := 0 to pcbs.Length0
        invariant Sweeping(cells, i, services, probeIp, clearOld, setup, random, before)
      {
        SweepNext(i, services, probeIp, clearOld, setup, random, cells, before);
      }
    }

    ghost predicate Sweeping(cells: seq<(Cell, Cell)>, i: nat, services: seq<Item>, probeIp: bool, clearOld: bool,
                             setup: (nat, nat) -> Setup, random: (nat, nat) -> nat, before: seq<Event>)
      reads this, pcbs, ready
    {
      && SweptTo(cells, i, services, probeIp, clearOld, setup) && RowsOk(cells)
      && Logged(log, before, cells, i, services, clearOld, setup, random)
    }

    method SweepNext(i: nat, services: seq<Item>, probeIp: bool, clearOld: bool, setup: (nat, nat) -> Setup,
                     random: (nat, nat) -> nat, ghost cells: seq<(Cell, Cell)>, ghost before: seq<Event>)
      requires Sweeping(cells, i, services, probeIp, clearOld, setup, random, before) && i < |cells|
      modifies pcbs, this`log
      ensures Sweeping(cells, i + 1, services, probeIp, clearOld, setup, random, before)
    {
      ghost var log0 := log;
      SweepOne(i, services, probeIp, clearOld, setup, random, cells);
      LoggedMore(log0, log, before, cells, i, services, clearOld, setup, random);
    }

    lemma RowsAreOk(cells: seq<(Cell, Cell)>, services: seq<Item>, probeIp: bool, clearOld: bool,
                    setup: (nat, nat) -> Setup)
      requires Valid() && SweptTo(cells, 0, services, probeIp, clearOld, setup)
      ensures RowsOk(cells)
    {
      forall a | 0 <= a < |cells| ensures RowOk(cells[a]) {
        assert Ok(pcbs[a, 0], ready[a, 0]) && Ok(pcbs[a, 1], ready[a, 1]);
      }
    }

    lemma SweptIsOk(cells: seq<(Cell, Cell)>, services: seq<Item>, probeIp: bool, clearOld: bool,
                    setup: (nat, nat) -> Setup)
      requires SweptTo(cells, |cells|, services, probeIp, clearOld, setup) && RowsOk(cells)
      ensures (forall a, b :: In(a, b) ==> setup(a, b).hostname) ==> Valid()
    {
      forall a, b | In(a, b) && setup(a, b).hostname ensures Ok(pcbs[a, b], ready[a, b]) {
        assert RowOk(cells[a]) && Swept(cells[a], a, services, probeIp, clearOld, setup);
        var c := if b == 0 then cells[a].0 else cells[a].1;
        StepKeepsOkIff(c, Probe(services, probeIp, clearOld, setup(a, b)));
      }
    }
  }

  ghost predicate Logged(log: seq<Event>, before: seq<Event>, cells: seq<(Cell, Cell)>, i: nat, services: seq<Item>,
                         clearOld: bool, setup: (nat, nat) -> Setup, random: (nat, nat) -> nat)
  {
    i <= |cells| && log == before + Sweep(cells, i, services, clearOld, setup, random)
  }

  lemma LoggedMore(log: seq<Event>, more: seq<Event>, before: seq<Event>, cells: seq<(Cell, Cell)>, i: nat,
                   services: seq<Item>, clearOld: bool, setup: (nat, nat) -> Setup, random: (nat, nat) -> nat)
    requires Logged(log, before, cells, i, services, clearOld, setup, random) && i < |cells|
    requires more == log + RowEvents(i, cells[i], services, clearOld, setup, random)
    ensures Logged(more, before, cells, i + 1, services, clearOld, setup, random)
  {
    Joined(before, Sweep(cells, i, services, clearOld, setup, random),
           RowEvents(i, cells[i], services, clearOld, setup, random));
  }

  lemma Joined(a: seq<Event>, b: seq<Event>, c: seq<Event>)
    ensures (a + b) + c == a + (b + c)
  {
  }

  predicate RowOk(row: (Cell, Cell)) { Ok(row.0.pcb, row.0.ready) && Ok(row.1.pcb, row.1.ready) }

  predicate RowsOk(cells: seq<(Cell, Cell)>) { forall a :: 0 <= a < |cells| ==> RowOk(cells[a]) }
}
