/**
 The transmit queue of the mDNS responder (mdns_send.c): a linked list of packets
 ordered by the time at which they are to be sent.
 */
module TxQueue {
  import opened Common
  import P = Pcb

  const WORD32: nat := 0x1_0000_0000

  /** An answer record; what it says besides the service it belongs to does not matter here. */
  datatype Answer = Answer(kind: nat, service: nat)

  /** A question; `any` is set for the type that probes use. */
  datatype Question = Question(any: bool, service: Option<string>, proto: Option<string>)

  datatype Content = Says(
    questions: seq<Question>, answers: seq<Answer>, additional: seq<Answer>, servers: seq<Answer>)

  const NOTHING: Content := Says([], [], [], [])

  class Packet {
    var next: Packet?
    var sendAt: nat
    const netif: nat
    const proto: nat
    var queued: bool
    var questions: seq<Question>
    var answers: seq<Answer>
    var additional: seq<Answer>
    var servers: seq<Answer>

    constructor (netif: nat, proto: nat)
      ensures this.netif == netif && this.proto == proto && !queued && next == null
      ensures questions == [] && answers == [] && additional == [] && servers == []
    {
      this.netif, this.proto := netif, proto;
      next, sendAt, queued := null, 0, false;
      questions, answers, additional, servers := [], [], [], [];
    }

    predicate On(netif: nat, proto: nat) {
      this.netif == netif && this.proto == proto
    }

    /** What there is to send. */
    function Content(): Content
      reads this`questions, this`answers, this`additional, this`servers
    {
      Says(questions, answers, additional, servers)
    }

    /** Takes the records of the service out of the packet; tells whether those were all its answers. */
    method PurgeRecords(service: nat) returns (removed: bool)
      modifies this`answers, this`additional, this`servers
      ensures removed == RemovesAnswers(old(Content()), service)
      ensures Content() == PurgedOf(old(Content()), service, "", "", false)
    {
      var hadAnswers := answers != [];
      answers := DeallocAnswers(answers, service);
      additional := DeallocAnswers(additional, service);
      servers := DeallocAnswers(servers, service);
      removed := hadAnswers && answers == [];
    }

    /** Takes the service out of the packet, its question too if it was being probed for. */
    method Purge(service: nat, name: string, protocol: string, pcbs: P.Interfaces) returns (ghost asked: bool)
      requires pcbs.Valid() && pcbs.In(netif, proto)
      modifies this`questions, this`answers, this`additional, this`servers, pcbs.pcbs
      ensures asked == AskedIn(old(pcbs.At(netif, proto)), old(Content()), service)
      ensures Content() == PurgedOf(old(Content()), service, name, protocol, asked)
      ensures pcbs.Valid() && forall a, b :: pcbs.In(a, b) ==>
        pcbs.At(a, b) == CellStep(old(pcbs.At(a, b)), this, a, b, old(Content()), service)
    {
      var removed := PurgeRecords(service);
      var found := CheckPcb(pcbs, netif, proto, service, removed);
      if found { questions := RemoveQuestion(questions, name, protocol); }
      asked := found;
    }
  }

  /** All answers of the packet belong to the service. */
  predicate RemovesAnswers(c: Content, service: nat) {
    c.answers != [] && NotOf(c.answers, service) == []
  }

  /** That is: there are answers, and every one of them is the service's. */
  lemma RemovesAnswersIff(c: Content, service: nat)
    ensures RemovesAnswers(c, service)
       <==> c.answers != [] && forall a :: a in c.answers ==> a.service == service
  {
    NotOfAny(c.answers, service);
    if NotOf(c.answers, service) != [] {
      assert NotOf(c.answers, service)[0] in NotOf(c.answers, service);
    } else {
      forall a | a in c.answers ensures a.service == service { assert a !in NotOf(c.answers, service); }
    }
  }

  /** Whether the service is found to be probed for, when it is taken out of a packet of the interface. */
  predicate AskedIn(c: P.Cell, content: Content, service: nat) {
    c.ready && P.Forget(c.pcb, service, RemovesAnswers(content, service)).1
  }

  /** What becomes of the interface `a`, `b` when the service is taken out of a packet. */
  ghost function CellStep(c: P.Cell, p: Packet, a: int, b: int, content: Content, service: nat): P.Cell {
    if p.netif == a && p.proto == b then P.Step(c, P.Remove(service, RemovesAnswers(content, service))).value else c
  }

  /** ... of each of the first `i` packets in turn. */
  ghost function CellAfter(c: P.Cell, a: int, b: int, was: seq<Packet>, before: seq<Content>, service: nat, i: nat)
    : P.Cell
    requires |was| == |before| && i <= |was|
  {
    if i == 0 then c
    else CellStep(CellAfter(c, a, b, was, before, service, i - 1), was[i - 1], a, b, before[i - 1], service)
  }

  /** All packets are scheduled on interfaces that exist. */
  ghost predicate Placed(cells: map<(int, int), P.Cell>, list: seq<Packet>) {
    forall m :: 0 <= m < |list| ==> (list[m].netif, list[m].proto) in cells
  }

  /** The answer of the interface of the `m`th packet, when it is its turn. */
  ghost predicate AskedAt(cells: map<(int, int), P.Cell>, was: seq<Packet>, before: seq<Content>, service: nat, m: nat)
    requires |was| == |before| && m < |was| && (was[m].netif, was[m].proto) in cells
  {
    var a, b := was[m].netif, was[m].proto;
    AskedIn(CellAfter(cells[(a, b)], a, b, was, before, service, m), before[m], service)
  }

  /** The answers of the interfaces, for the first `i` packets. */
  ghost function AskedBy(cells: map<(int, int), P.Cell>, was: seq<Packet>, before: seq<Content>, service: nat, i: nat)
    : (r: seq<bool>)
    requires Placed(cells, was) && |was| == |before| && i <= |was|
    ensures |r| == i && forall m :: 0 <= m < i ==> r[m] == AskedAt(cells, was, before, service, m)
  {
    if i == 0 then [] else AskedBy(cells, was, before, service, i - 1) + [AskedAt(cells, was, before, service, i - 1)]
  }

  /** The interfaces after the service has been taken out of the first `i` packets. */
  ghost predicate Tracked(pcbs: P.Interfaces, cells: map<(int, int), P.Cell>, was: seq<Packet>, before: seq<Content>,
                          service: nat, i: nat)
    reads pcbs.pcbs, pcbs.ready
  {
    && pcbs.Valid() && |was| == |before| && i <= |was|
    && forall a, b :: pcbs.In(a, b) ==>
         (a, b) in cells && pcbs.At(a, b) == CellAfter(cells[(a, b)], a, b, was, before, service, i)
  }

  /** The interface, if it is ready, forgets the service. */
  method CheckPcb(pcbs: P.Interfaces, i: nat, j: nat, service: nat, removed: bool) returns (found: bool)
    requires pcbs.Valid() && pcbs.In(i, j)
    modifies pcbs.pcbs
    ensures found == (old(pcbs.At(i, j)).ready && P.Forget(old(pcbs.At(i, j)).pcb, service, removed).1)
    ensures pcbs.Valid() && forall a, b :: pcbs.In(a, b) ==>
      pcbs.At(a, b) == if a == i && b == j then P.Step(old(pcbs.At(i, j)), P.Remove(service, removed)).value
                       else old(pcbs.At(a, b))
  {
    found := false;
    if pcbs.ready[i, j] { found := pcbs.CheckProbing(i, j, service, removed); }
  }

  // ----- lists of packets as values

  ghost function After(list: seq<Packet>, i: nat): Packet? {
    if i + 1 < |list| then list[i + 1] else null
  }

  ghost predicate Distinct(list: seq<Packet>) {
    forall i, j :: 0 <= i < j < |list| ==> list[i] != list[j]
  }

  ghost predicate Sorted(list: seq<Packet>)
    reads list
  {
    forall i, j :: 0 <= i < j < |list| ==> list[i].sendAt <= list[j].sendAt
  }

  /** The packets that are not scheduled on an interface. */
  ghost function Without(list: seq<Packet>, netif: nat, proto: nat): seq<Packet> {
    if list == [] then []
    else if list[0].On(netif, proto) then Without(list[1..], netif, proto)
    else [list[0]] + Without(list[1..], netif, proto)
  }

  lemma {:induction false} WithoutConcat(a: seq<Packet>, b: seq<Packet>, netif: nat, proto: nat)
    ensures Without(a + b, netif, proto) == Without(a, netif, proto) + Without(b, netif, proto)
    decreases |a|
  {
    if a == [] {
      assert a + b == b;
    } else {
      assert (a + b)[0] == a[0] && (a + b)[1..] == a[1..] + b;
      WithoutConcat(a[1..], b, netif, proto);
    }
  }

  lemma {:induction false} WithoutIn(list: seq<Packet>, netif: nat, proto: nat, p: Packet)
    ensures p in Without(list, netif, proto) <==> p in list && !p.On(netif, proto)
    decreases |list|
  {
    if list != [] {
      WithoutIn(list[1..], netif, proto, p);
      assert list == [list[0]] + list[1..];
    }
  }

  lemma {:induction false} NoneOn(list: seq<Packet>, netif: nat, proto: nat)
    requires forall i :: 0 <= i < |list| ==> !list[i].On(netif, proto)
    ensures Without(list, netif, proto) == list
    decreases |list|
  {
    if list != [] { NoneOn(list[1..], netif, proto); }
  }

  /** Dropping a packet of the interface changes nothing of what remains without it. */
  lemma WithoutOne(list: seq<Packet>, k: nat, netif: nat, proto: nat)
    requires k < |list| && list[k].On(netif, proto)
    ensures Without(list[..k] + list[k + 1..], netif, proto) == Without(list, netif, proto)
  {
    assert list == list[..k] + ([list[k]] + list[k + 1..]);
    WithoutConcat(list[..k], list[k + 1..], netif, proto);
    WithoutConcat(list[..k], [list[k]] + list[k + 1..], netif, proto);
    assert ([list[k]] + list[k + 1..])[1..] == list[k + 1..];
  }

  lemma DropKeepsOrder(list: seq<Packet>, k: nat)
    requires k < |list| && Distinct(list) && Sorted(list)
    ensures Distinct(list[..k] + list[k + 1..]) && Sorted(list[..k] + list[k + 1..])
  {
    var l := list[..k] + list[k + 1..];
    assert forall i :: 0 <= i < k ==> l[i] == list[i];
    assert forall i :: k <= i < |l| ==> l[i] == list[i + 1];
  }

  lemma SortedAround(list: seq<Packet>, at: nat, p: Packet)
    requires Sorted(list) && at <= |list|
    requires forall i :: 0 <= i < at ==> list[i].sendAt <= p.sendAt
    requires forall i :: at <= i < |list| ==> p.sendAt < list[i].sendAt
    ensures Sorted(list[..at] + [p] + list[at..])
    ensures var l := list[..at] + [p] + list[at..];
      && (forall i :: 0 <= i < at ==> l[i].sendAt <= p.sendAt)
      && (forall i :: at < i < |l| ==> p.sendAt < l[i].sendAt)
  {
  }

  // ----- queues as values

  /** A packet and the time at which it is due. */
  datatype Entry = Entry(packet: Packet, due: nat)

  ghost function Entries(list: seq<Packet>): (r: seq<Entry>)
    reads list`sendAt
    ensures |r| == |list|
    ensures forall i :: 0 <= i < |list| ==> r[i] == Entry(list[i], list[i].sendAt)
  {
    if list == [] then []
    else Entries(list[..|list| - 1]) + [Entry(list[|list| - 1], list[|list| - 1].sendAt)]
  }

  predicate InOrder(q: seq<Entry>) {
    forall i, j :: 0 <= i < j < |q| ==> q[i].due <= q[j].due
  }

  /** Behind everything that is due no later. */
  function Insert(q: seq<Entry>, e: Entry): seq<Entry> {
    if q == [] || e.due < q[0].due then [e] + q else [q[0]] + Insert(q[1..], e)
  }

  lemma {:induction false} InsertAt(q: seq<Entry>, e: Entry, at: nat)
    requires at <= |q|
    requires forall i :: 0 <= i < at ==> q[i].due <= e.due
    requires at < |q| ==> e.due < q[at].due
    ensures Insert(q, e) == q[..at] + [e] + q[at..]
    decreases at
  {
    if at > 0 {
      InsertAt(q[1..], e, at - 1);
      assert q[..at] == [q[0]] + q[1..][..at - 1];
    }
  }

  lemma EntryAt(list: seq<Packet>, i: nat)
    requires i < |list|
    ensures Entries(list)[i] == Entry(list[i], list[i].sendAt)
  {
  }

  lemma EntriesTail(list: seq<Packet>)
    requires list != []
    ensures Entries(list[1..]) == Entries(list)[1..]
  {
    forall i | 0 <= i < |list| - 1 ensures Entries(list[1..])[i] == Entries(list)[1..][i] {
      EntryAt(list[1..], i);
      EntryAt(list, i + 1);
    }
  }

  lemma EntriesInserted(list: seq<Packet>, entries: seq<Entry>, at: nat, packet: Packet, l: seq<Packet>, r: seq<Entry>)
    requires at <= |list| == |entries|
    requires forall i :: 0 <= i < |list| ==> entries[i] == Entry(list[i], list[i].sendAt)
    requires l == list[..at] + [packet] + list[at..]
    requires r == entries[..at] + [Entry(packet, packet.sendAt)] + entries[at..]
    ensures Entries(l) == r
  {
    forall i | 0 <= i < |l| ensures Entries(l)[i] == r[i] {
      EntryAt(l, i);
      if i > at { assert l[i] == list[i - 1] && r[i] == entries[i - 1]; }
    }
  }

  lemma Inserted(list: seq<Packet>, entries: seq<Entry>, at: nat, packet: Packet)
    requires at <= |list| == |entries|
    requires forall i :: 0 <= i < |list| ==> entries[i] == Entry(list[i], list[i].sendAt)
    requires forall i :: 0 <= i < at ==> list[i].sendAt <= packet.sendAt
    requires forall i :: at <= i < |list| ==> packet.sendAt < list[i].sendAt
    ensures Entries(list[..at] + [packet] + list[at..]) == Insert(entries, Entry(packet, packet.sendAt))
  {
    var e := Entry(packet, packet.sendAt);
    EntriesInserted(list, entries, at, packet, list[..at] + [packet] + list[at..], entries[..at] + [e] + entries[at..]);
    InsertAt(entries, e, at);
  }

  // ----- the queue

  class Queue {
    var head: Packet?
    ghost var list: seq<Packet>

    ghost predicate Linked()
      reads this, list
    {
      && head == (if list == [] then null else list[0])
      && (forall i {:trigger After(list, i)} :: 0 <= i < |list| ==> list[i].next == After(list, i))
    }

    ghost predicate Valid()
      reads this, list
    {
      Linked() && Distinct(list) && Sorted(list)
    }

    constructor ()
      ensures Valid() && list == []
    {
      head, list := null, [];
    }

    method Prepend(packet: Packet)
      requires Linked() && Distinct(list) && packet !in list
      modifies this, packet`next
      ensures list == [packet] + old(list)
      ensures Linked() && Distinct(list)
    {
      ghost var was := list;
      packet.next := head;
      head := packet;
      list := [packet] + list;
      assert forall i :: 0 < i < |list| ==> list[i] == was[i - 1];
      forall i | 0 <= i < |list| ensures list[i].next == After(list, i) {
        if i > 0 { assert was[i - 1].next == After(was, i - 1); }
      }
    }

    /** Puts a packet behind the `k`th one of the list. */
    method LinkAfter(ghost k: nat, q: Packet, packet: Packet)
      requires Linked() && Distinct(list) && k < |list| && q == list[k] && packet !in list
      modifies this`list, q`next, packet`next
      ensures list == old(list[..k + 1] + [packet] + list[k + 1..])
      ensures Linked() && Distinct(list)
    {
      ghost var was := list;
      assert q.next == After(was, k);
      packet.next := q.next;
      q.next := packet;
      list := was[..k + 1] + [packet] + was[k + 1..];
      assert forall i :: 0 <= i <= k ==> list[i] == was[i];
      assert list[k + 1] == packet;
      assert forall i :: k + 1 < i < |list| ==> list[i] == was[i - 1];
      forall i | 0 <= i < |list| ensures list[i].next == After(list, i) {
        if i > k + 1 { assert was[i - 1].next == After(was, i - 1); }
        if i < k { assert was[i].next == After(was, i); }
      }
    }

    /** The last packet that is due no later than `time`. */
    method FindPlace(time: nat) returns (q: Packet, ghost k: nat)
      requires Valid() && head != null && head.sendAt <= time
      ensures k < |list| && q == list[k]
      ensures forall i :: 0 <= i <= k ==> list[i].sendAt <= time
      ensures forall i :: k < i < |list| ==> time < list[i].sendAt
    {
      q, k := head, 0;
      while q.next != null && q.next.sendAt <= time
        invariant k < |list| && q == list[k]
        invariant forall i :: 0 <= i <= k ==> list[i].sendAt <= time
        decreases |list| - k
      {
        assert list[k].next == After(list, k);
        q := q.next;
        k := k + 1;
      }
      assert list[k].next == After(list, k);
    }

    method Enqueue(packet: Packet) returns (ghost at: nat)
      requires Valid() && packet !in list
      modifies this, packet`next, list`next
      ensures Linked() && Distinct(list)
      ensures at <= |old(list)| && list == old(list[..at] + [packet] + list[at..])
      ensures forall i :: 0 <= i < at ==> old(list)[i].sendAt <= packet.sendAt
      ensures forall i :: at <= i < |old(list)| ==> packet.sendAt < old(list)[i].sendAt
    {
      if head == null || head.sendAt > packet.sendAt {
        at := 0;
        Prepend(packet);
      } else {
        var q: Packet, k := FindPlace(packet.sendAt);
        at := k + 1;
        LinkAfter(k, q, packet);
      }
    }

    /**
     The packet goes behind all packets that are due no later than it and before
     all others, so packets with the same time stay in the order they came in.
     */
    method SendAfter(packet: Packet, now: nat, msAfter: nat)
      requires Valid() && packet !in list
      modifies this, packet`sendAt, packet`next, list`next
      ensures Valid()
      ensures packet.sendAt == (now + msAfter) % WORD32
      ensures Entries(list) == Insert(old(Entries(list)), Entry(packet, packet.sendAt))
    {
      ghost var was, entries := list, Entries(list);
      packet.sendAt := (now + msAfter) % WORD32;
      ghost var at := Enqueue(packet);
      assert forall i :: 0 <= i < |was| ==> entries[i] == Entry(was[i], was[i].sendAt);
      SortedAround(was, at, packet);
      Inserted(was, entries, at, packet);
    }

    method Pop()
      requires Valid() && list != []
      modifies this
      ensures Valid() && list == old(list[1..])
    {
      ghost var was := list;
      assert head.next == After(was, 0);
      head := head.next;
      list := was[1..];
      forall i | 0 <= i < |list| ensures list[i].next == After(list, i) {
        assert was[i + 1].next == After(was, i + 1);
      }
    }

    method PopEntry()
      requires Valid() && list != []
      modifies this
      ensures Valid() && list == old(list[1..]) && Entries(list) == old(Entries(list))[1..]
    {
      EntriesTail(list);
      Pop();
    }

    /** Takes out the packet behind the `k`th one of the list. */
    method UnlinkAfter(ghost k: nat, q: Packet)
      requires Valid() && k + 1 < |list| && q == list[k]
      modifies this`list, q`next
      ensures Valid() && list == old(list[..k + 1] + list[k + 2..])
    {
      DropKeepsOrder(list, k + 1);
      Unlink(k, q);
    }

    method Unlink(ghost k: nat, q: Packet)
      requires Linked() && Distinct(list) && k + 1 < |list| && q == list[k]
      modifies this`list, q`next
      ensures Linked() && list == old(list[..k + 1] + list[k + 2..])
    {
      ghost var was := list;
      assert q.next == After(was, k);
      var p: Packet := q.next;
      assert p.next == After(was, k + 1);
      q.next := p.next;
      list := was[..k + 1] + was[k + 2..];
      assert forall i :: 0 <= i <= k ==> list[i] == was[i];
      assert forall i :: k < i < |list| ==> list[i] == was[i + 1];
      forall i | 0 <= i < |list| ensures list[i].next == After(list, i) {
        if i > k { assert was[i + 1].next == After(was, i + 1); }
        if i < k { assert was[i].next == After(was, i); }
      }
    }

    /** The packets of an interface at the front of the queue. */
    method ClearFront(netif: nat, proto: nat)
      requires Valid()
      modifies this
      ensures Valid() && Without(list, netif, proto) == Without(old(list), netif, proto)
      ensures list != [] ==> !list[0].On(netif, proto)
      ensures forall p :: p in list ==> p in old(list)
    {
      while head != null && head.On(netif, proto)
        invariant Valid() && Without(list, netif, proto) == Without(old(list), netif, proto)
        invariant forall p :: p in list ==> p in old(list)
        decreases |list|
      {
        Pop();
      }
    }

    /** One packet behind the `k`th: it is taken out or becomes the next to be looked at. */
    method ClearNext(ghost k: nat, q: Packet, netif: nat, proto: nat) returns (next: Packet, ghost j: nat)
      requires Valid() && k + 1 < |list| && q == list[k]
      requires forall i :: 0 <= i <= k ==> !list[i].On(netif, proto)
      modifies this`list, q`next
      ensures Valid() && j < |list| && next == list[j]
      ensures forall i :: 0 <= i <= j ==> !list[i].On(netif, proto)
      ensures Without(list, netif, proto) == Without(old(list), netif, proto)
      ensures |list| - j < old(|list|) - k
      ensures forall i :: 0 <= i < |list| ==> list[i] in old(list)
    {
      assert list[k].next == After(list, k);
      next, j := q, k;
      if q.next.On(netif, proto) {
        WithoutOne(list, k + 1, netif, proto);
        UnlinkAfter(k, q);
      } else {
        next, j := q.next, k + 1;
      }
    }

    method ClearRest(netif: nat, proto: nat)
      requires Valid() && list != [] && !list[0].On(netif, proto)
      modifies this`list, list`next
      ensures Valid() && list == Without(old(list), netif, proto)
    {
      ghost var was, rest := list, Without(list, netif, proto);
      var q: Packet := head;
      ghost var k: nat := 0;
      while q.next != null
        invariant Valid() && k < |list| && q == list[k]
        invariant forall i :: 0 <= i <= k ==> !list[i].On(netif, proto)
        invariant Without(list, netif, proto) == rest
        invariant forall i :: 0 <= i < |list| ==> list[i] in was
        decreases |list| - k
      {
        assert list[k].next == After(list, k);
        q, k := ClearNext(k, q, netif, proto);
      }
      assert list[k].next == After(list, k);
      NoneOn(list, netif, proto);
    }

    method Clear(netif: nat, proto: nat)
      requires Valid()
      modifies this, list`next
      ensures Valid() && list == Without(old(list), netif, proto)
    {
      ghost var was := list;
      ClearFront(netif, proto);
      assert forall i :: 0 <= i < |list| ==> list[i] in was;
      if head != null { ClearRest(netif, proto); }
    }

    /** The queue without the packets of an interface, in the same order. */
    method ClearIf(netif: nat, proto: nat)
      requires Valid()
      modifies this, list`next
      ensures Valid() && list == Without(old(list), netif, proto)
      ensures Entries(list) == Those(old(Entries(list)), Elsewhere(netif, proto))
    {
      ghost var left := Without(list, netif, proto);
      EntriesWithout(list, netif, proto);
      forall i | 0 <= i < |left| ensures left[i] in list { WithoutIn(list, netif, proto, left[i]); }
      Clear(netif, proto);
    }

    /** The first packet of an interface. */
    method NextPacket(netif: nat, proto: nat) returns (p: Packet?, ghost k: nat)
      requires Valid()
      ensures k <= |list| && p == (if k < |list| then list[k] else null)
      ensures forall i :: 0 <= i < k ==> !list[i].On(netif, proto)
      ensures p != null ==> p.On(netif, proto)
    {
      p, k := head, 0;
      while p != null
        invariant k <= |list| && p == (if k < |list| then list[k] else null)
        invariant forall i :: 0 <= i < k ==> !list[i].On(netif, proto)
        decreases |list| - k
      {
        if p.On(netif, proto) { return; }
        assert list[k].next == After(list, k);
        p, k := p.next, k + 1;
      }
    }

    /**
     What the action queue hands back is sent only if it is still at the head of
     the queue; then no packet of the queue is due before it.
     */
    method TakeForSending(packet: Packet) returns (sent: bool)
      requires Valid()
      modifies this, packet`queued
      ensures Valid()
      ensures sent == (old(list) != [] && old(list)[0] == packet && old(packet.queued))
      ensures list == if sent then old(list)[1..] else old(list)
      ensures Entries(list) == if sent then old(Entries(list))[1..] else old(Entries(list))
      ensures sent ==> !packet.queued && forall p :: p in list ==> packet.sendAt <= p.sendAt
      ensures !sent ==> packet.queued == old(packet.queued)
    {
      var p := head;
      sent := p != null && p == packet && p.queued;
      if sent {
        assert forall i :: 0 < i < |list| ==> packet.sendAt <= list[i].sendAt;
        packet.queued := false;
        PopEntry();
      }
    }

    /** The packet in front of one that is not the head. */
    method FindBefore(ghost k: nat, item: Packet) returns (q: Packet, ghost j: nat)
      requires Valid() && 0 < k < |list| && item == list[k]
      ensures j + 1 == k && q == list[j]
    {
      q, j := head, 0;
      assert list[j].next == After(list, j);
      while q.next != null && q.next != item
        invariant j < k && q == list[j]
        decreases k - j
      {
        assert list[j].next == After(list, j) && list[j + 1].next == After(list, j + 1);
        q, j := q.next, j + 1;
      }
      assert list[j].next == After(list, j);
    }

    /** Takes a packet out of the list, wherever it is. */
    method Detach(ghost k: nat, item: Packet)
      requires Valid() && k < |list| && item == list[k]
      modifies this, list`next
      ensures Valid() && list == old(list[..k] + list[k + 1..])
      ensures k + 1 < |old(list)| ==> old(list)[k + 1].next == old(list[k + 1].next)
    {
      if head == item {
        assert k == 0;
        Pop();
      } else {
        var q, j := FindBefore(k, item);
        UnlinkAfter(j, q);
      }
    }

    /** The packet at the cursor, which is taken out if nothing of it is left. */
    method PurgeNext(ghost k: nat, q: Packet, service: nat, name: string, protocol: string, pcbs: P.Interfaces)
        returns (next: Packet?, ghost asked: bool)
      requires Valid() && k < |list| && q == list[k] && pcbs.Valid() && pcbs.In(q.netif, q.proto)
      modifies this, list`next, q`questions, q`answers, q`additional, q`servers, pcbs.pcbs
      ensures Valid()
      ensures asked == AskedIn(old(pcbs.At(q.netif, q.proto)), old(q.Content()), service)
      ensures q.Content() == PurgedOf(old(q.Content()), service, name, protocol, asked)
      ensures list == if q.Content() == NOTHING then old(list[..k] + list[k + 1..]) else old(list)
      ensures next == After(old(list), k)
      ensures pcbs.Valid() && forall a, b :: pcbs.In(a, b) ==>
        pcbs.At(a, b) == CellStep(old(pcbs.At(a, b)), q, a, b, old(q.Content()), service)
    {
      assert list[k].next == After(list, k);
      asked := q.Purge(service, name, protocol, pcbs);
      next := q.next;
      if q.questions == [] && q.answers == [] && q.additional == [] && q.servers == [] {
        Detach(k, q);
      }
    }

    /** The packets before the `i`th of the old list have been dealt with. */
    ghost predicate Passed(was: seq<Packet>, after: seq<Content>, i: nat)
      reads this, list
    {
      Valid() && IsRest(list, was, after, i)
    }

    ghost predicate Halfway(was: seq<Packet>, before: seq<Content>, after: seq<Content>, i: nat)
      reads was
    {
      && |was| == |before| == |after|
      && (forall m :: 0 <= m < |was| ==> was[m].Content() == if m < i then after[m] else before[m])
    }

    method PurgeAt(ghost was: seq<Packet>, ghost after: seq<Content>, ghost i: nat, ghost all: set<Packet>,
                   q: Packet, service: nat, name: string, protocol: string, pcbs: P.Interfaces)
        returns (next: Packet?)
      requires Passed(was, after, i) && i < |was| && q == was[i] && pcbs.Valid() && pcbs.In(q.netif, q.proto)
      requires forall m :: 0 <= m < |was| ==> was[m] in all
      requires i < |after| && after[i] == PurgedOf(q.Content(), service, name, protocol,
                                                   AskedIn(pcbs.At(q.netif, q.proto), q.Content(), service))
      modifies this, all`next, q`questions, q`answers, q`additional, q`servers, pcbs.pcbs
      ensures Passed(was, after, i + 1) && q.Content() == after[i]
      ensures next == if i + 1 < |was| then was[i + 1] else null
      ensures pcbs.Valid() && forall a, b :: pcbs.In(a, b) ==>
        pcbs.At(a, b) == CellStep(old(pcbs.At(a, b)), q, a, b, old(q.Content()), service)
    {
      ghost var k, l, asked := |Spoken(was, after, i)|, list, false;
      RestStep(l, was, after, i, k);
      RestIn(l, was, after, i, all);
      next, asked := PurgeNext(k, q, service, name, protocol, pcbs);
    }

    /** What the loop keeps for all packets and interfaces. */
    ghost predicate Underway(was: seq<Packet>, before: seq<Content>, after: seq<Content>, i: nat,
                             cells: map<(int, int), P.Cell>, service: nat, pcbs: P.Interfaces)
      reads this, list, was, pcbs.pcbs, pcbs.ready
    {
      Passed(was, after, i) && Halfway(was, before, after, i) && Tracked(pcbs, cells, was, before, service, i)
    }

    /** One turn of the loop. */
    method PurgeTurn(ghost was: seq<Packet>, ghost before: seq<Content>, ghost after: seq<Content>, ghost i: nat,
                     ghost all: set<Packet>, ghost cells: map<(int, int), P.Cell>,
                     q: Packet, service: nat, name: string, protocol: string, pcbs: P.Interfaces)
        returns (next: Packet?)
      requires Underway(was, before, after, i, cells, service, pcbs) && Distinct(was)
      requires i < |was| && q == was[i] && pcbs.In(q.netif, q.proto)
      requires forall m :: 0 <= m < |was| ==> was[m] in all
      requires after[i] == PurgedOf(before[i], service, name, protocol, AskedAt(cells, was, before, service, i))
      modifies this, all`next, q`questions, q`answers, q`additional, q`servers, pcbs.pcbs
      ensures Underway(was, before, after, i + 1, cells, service, pcbs)
      ensures next == if i + 1 < |was| then was[i + 1] else null
    {
      next := PurgeAt(was, after, i, all, q, service, name, protocol, pcbs);
    }

    method PurgeAll(ghost before: seq<Content>, ghost after: seq<Content>, ghost all: set<Packet>,
                    ghost cells: map<(int, int), P.Cell>,
                    service: nat, name: string, protocol: string, pcbs: P.Interfaces)
      requires Valid() && Halfway(list, before, after, 0) && Tracked(pcbs, cells, list, before, service, 0)
      requires forall m :: 0 <= m < |list| ==> list[m] in all && pcbs.In(list[m].netif, list[m].proto)
      requires forall i {:trigger Turn(i)} :: Turn(i) && 0 <= i < |list| ==>
                 after[i] == PurgedOf(before[i], service, name, protocol, AskedAt(cells, list, before, service, i))
      modifies this, all`next, all`questions, all`answers, all`additional, all`servers, pcbs.pcbs
      ensures Valid() && |after| == |old(list)| && list == Spoken(old(list), after, |after|)
      ensures forall i :: 0 <= i < |after| ==> old(list)[i].Content() == after[i]
      ensures Tracked(pcbs, cells, old(list), before, service, |before|)
    {
      ghost var was := list;
      var q: Packet? := head;
      ghost var i := 0;
      RestAtStart(was, after);
      while q != null
        invariant Underway(was, before, after, i, cells, service, pcbs)
        invariant q == if i < |was| then was[i] else null
        decreases |was| - i
      {
        assert Turn(i);
        q := PurgeTurn(was, before, after, i, all, cells, q, service, name, protocol, pcbs);
        i := i + 1;
      }
      assert i == |was|;
      RestAtEnd(list, was, after);
    }

    /**
     No answer, additional or server record of any packet in the queue belongs to
     the service any more, everything else the packets say is kept, and those that
     are left with nothing to say are gone.  Each packet's interface is asked whether
     the service was being probed for, and forgets it; `before` is what the packets
     said, `cells` are the interfaces as they were.
     */
    method RemoveService(service: nat, name: string, protocol: string, pcbs: P.Interfaces,
                         ghost before: seq<Content>, ghost cells: map<(int, int), P.Cell>)
      requires Valid() && pcbs.Valid() && |before| == |list|
      requires forall i :: 0 <= i < |list| ==> list[i].Content() == before[i] && pcbs.In(list[i].netif, list[i].proto)
      requires forall a, b :: pcbs.In(a, b) ==> (a, b) in cells && cells[(a, b)] == pcbs.At(a, b)
      modifies this, list`next, list`questions, list`answers, list`additional, list`servers, pcbs.pcbs
      ensures Valid() && forall p :: p in list ==> Silent(p, service)
      ensures Placed(cells, old(list))
      ensures var asked := AskedBy(cells, old(list), before, service, |before|);
        var after := PurgedAll(before, service, name, protocol, asked);
        && (forall i :: 0 <= i < |after| ==> old(list)[i].Content() == after[i])
        && list == Spoken(old(list), after, |after|)
      ensures Tracked(pcbs, cells, old(list), before, service, |before|)
    {
      ghost var was, asked := list, AskedBy(cells, list, before, service, |list|);
      ghost var after := PurgedAll(before, service, name, protocol, asked);
      EachTurn(cells, list, before, service, name, protocol, after);
      PurgeAll(before, after, (set p | p in list), cells, service, name, protocol, pcbs);
      NoneMentions(was, before, after, service, name, protocol, asked);
    }
  }

  /** A record of the packet belongs to the service. */
  predicate Mentions(c: Content, service: nat) {
    || (exists a :: a in c.answers && a.service == service)
    || (exists a :: a in c.additional && a.service == service)
    || (exists a :: a in c.servers && a.service == service)
  }

  lemma PurgedIsSilent(c: Content, service: nat, name: string, protocol: string, asked: bool)
    ensures !Mentions(PurgedOf(c, service, name, protocol, asked), service)
  {
    PurgedMentionsNothing(c, service, name, protocol, asked);
  }

  ghost predicate Silent(p: Packet, service: nat)
    reads p
  {
    !Mentions(p.Content(), service)
  }

  lemma {:induction false} SpokenSilent(was: seq<Packet>, after: seq<Content>, i: nat, service: nat)
    requires |was| == |after| && i <= |was|
    requires forall m :: 0 <= m < |was| ==> Silent(was[m], service)
    ensures forall p :: p in Spoken(was, after, i) ==> Silent(p, service)
  {
    if i > 0 {
      SpokenSilent(was, after, i - 1, service);
      assert Silent(was[i - 1], service);
    }
  }

  lemma NoneMentions(was: seq<Packet>, before: seq<Content>, after: seq<Content>,
                     service: nat, name: string, protocol: string, asked: seq<bool>)
    requires |was| == |before| == |asked| && after == PurgedAll(before, service, name, protocol, asked)
    requires forall i :: 0 <= i < |was| ==> was[i].Content() == after[i]
    ensures forall p :: p in Spoken(was, after, |after|) ==> Silent(p, service)
  {
    forall i | 0 <= i < |was| ensures Silent(was[i], service) {
      PurgedAt(before, service, name, protocol, asked, i);
      PurgedIsSilent(before[i], service, name, protocol, asked[i]);
    }
    SpokenSilent(was, after, |after|, service);
  }

  lemma EachTurn(cells: map<(int, int), P.Cell>, was: seq<Packet>, before: seq<Content>,
                 service: nat, name: string, protocol: string, after: seq<Content>)
    requires Placed(cells, was) && |was| == |before|
    requires after == PurgedAll(before, service, name, protocol, AskedBy(cells, was, before, service, |was|))
    ensures forall i {:trigger Turn(i)} :: Turn(i) && 0 <= i < |was| ==>
      after[i] == PurgedOf(before[i], service, name, protocol, AskedAt(cells, was, before, service, i))
  {
    var asked := AskedBy(cells, was, before, service, |was|);
    forall i | Turn(i) && 0 <= i < |was|
      ensures after[i] == PurgedOf(before[i], service, name, protocol, AskedAt(cells, was, before, service, i))
    {
      PurgedAt(before, service, name, protocol, asked, i);
    }
  }

  /** Keeps a fact about every packet from being used before it is its turn. */
  ghost predicate Turn(i: int) { true }

  /** The first `i` packets as far as they have anything to say, and all others up to the `n`th. */
  ghost function Left(was: seq<Packet>, after: seq<Content>, i: nat, n: nat): seq<Packet>
    requires |was| == |after| && i <= n <= |was|
    decreases n
  {
    if n == i then Spoken(was, after, i) else Left(was, after, i, n - 1) + [was[n - 1]]
  }

  lemma {:induction false} LeftIs(was: seq<Packet>, after: seq<Content>, i: nat, n: nat)
    requires |was| == |after| && i <= n <= |was|
    ensures Left(was, after, i, n) == Spoken(was, after, i) + was[i..n]
    decreases n
  {
    if n > i { LeftIs(was, after, i, n - 1); }
  }

  ghost predicate IsRest(list: seq<Packet>, was: seq<Packet>, after: seq<Content>, i: nat) {
    |was| == |after| && i <= |was| && list == Left(was, after, i, |was|)
  }

  lemma RestAtStart(was: seq<Packet>, after: seq<Content>)
    requires |was| == |after|
    ensures IsRest(was, was, after, 0)
  {
    LeftIs(was, after, 0, |was|);
  }

  lemma RestAtEnd(list: seq<Packet>, was: seq<Packet>, after: seq<Content>)
    requires IsRest(list, was, after, |was|)
    ensures |was| == |after| && list == Spoken(was, after, |after|)
  {
  }

  lemma RestIn(list: seq<Packet>, was: seq<Packet>, after: seq<Content>, i: nat, all: set<Packet>)
    requires IsRest(list, was, after, i)
    requires forall m :: 0 <= m < |was| ==> was[m] in all
    ensures forall p :: p in list ==> p in all
  {
    LeftIs(was, after, i, |was|);
    SpokenIn(was, after, i, all);
  }

  lemma RestIs(list: seq<Packet>, was: seq<Packet>, after: seq<Content>, i: nat)
    requires |was| == |after| && i <= |was|
    ensures IsRest(list, was, after, i) <==> list == Spoken(was, after, i) + was[i..]
  {
    LeftIs(was, after, i, |was|);
  }

  /** The packet at the cursor, and what is left when it stays or goes. */
  lemma RestStep(list: seq<Packet>, was: seq<Packet>, after: seq<Content>, i: nat, k: nat)
    requires IsRest(list, was, after, i) && i < |was| && k == |Spoken(was, after, i)|
    ensures k < |list| && list[k] == was[i] && After(list, k) == (if i + 1 < |was| then was[i + 1] else null)
    ensures IsRest(if after[i] == NOTHING then list[..k] + list[k + 1..] else list, was, after, i + 1)
  {
    var front := Spoken(was, after, i);
    RestIs(list, was, after, i);
    SkipOne(front, was, i);
    if after[i] == NOTHING {
      RestIs(front + was[i + 1..], was, after, i + 1);
    } else {
      RestIs(list, was, after, i + 1);
    }
  }

  lemma {:induction false} SpokenIn(was: seq<Packet>, after: seq<Content>, i: nat, all: set<Packet>)
    requires |was| == |after| && i <= |was|
    requires forall m :: 0 <= m < |was| ==> was[m] in all
    ensures forall p :: p in Spoken(was, after, i) ==> p in all
  {
    if i > 0 { SpokenIn(was, after, i - 1, all); }
  }

  lemma SkipOne(front: seq<Packet>, was: seq<Packet>, i: nat)
    requires i < |was|
    ensures var l := front + was[i..];
      && l[|front|] == was[i]
      && (i + 1 < |was| ==> l[|front| + 1] == was[i + 1])
      && l[..|front|] + l[|front| + 1..] == front + was[i + 1..]
      && l == front + [was[i]] + was[i + 1..]
  {
  }

  // ----- removing a service

  /** The answers that do not belong to a service. */
  function NotOf(list: seq<Answer>, service: nat): seq<Answer> {
    if list == [] then []
    else if list[0].service == service then NotOf(list[1..], service)
    else [list[0]] + NotOf(list[1..], service)
  }

  lemma {:induction false} NotOfAny(list: seq<Answer>, service: nat)
    ensures forall a :: a in NotOf(list, service) <==> a in list && a.service != service
    decreases |list|
  {
    if list != [] {
      NotOfAny(list[1..], service);
      assert list == [list[0]] + list[1..];
    }
  }

  lemma {:induction false} NotOfConcat(a: seq<Answer>, b: seq<Answer>, service: nat)
    ensures NotOf(a + b, service) == NotOf(a, service) + NotOf(b, service)
    decreases |a|
  {
    if a == [] {
      assert a + b == b;
    } else {
      assert (a + b)[0] == a[0] && (a + b)[1..] == a[1..] + b;
      NotOfConcat(a[1..], b, service);
    }
  }

  /** The answers of the service at the front of the list, and then one after the other behind it. */
  method DeallocAnswers(list: seq<Answer>, service: nat) returns (r: seq<Answer>)
    ensures r == NotOf(list, service)
  {
    r := list;
    while r != [] && r[0].service == service
      invariant NotOf(r, service) == NotOf(list, service)
      decreases |r|
    {
      r := r[1..];
    }
    if r == [] { return; }
    var i := 0;
    while i + 1 < |r|
      invariant i < |r|
      invariant NotOf(r, service) == NotOf(list, service)
      invariant NotOf(r[..i + 1], service) == r[..i + 1]
      decreases |r| - i
    {
      var front, x, back := r[..i + 1], r[i + 1], r[i + 2..];
      assert r == front + ([x] + back) && r[..i + 2] == front + [x];
      NotOfConcat(front, [x] + back, service);
      NotOfConcat(front, back, service);
      NotOfConcat(front, [x], service);
      if x.service == service {
        r := front + back;
        assert r[..i + 1] == front;
      } else {
        i := i + 1;
      }
    }
    assert r[..i + 1] == r;
  }

  predicate Asks(q: Question, service: string, proto: string) {
    q.any && q.service == Some(service) && q.proto == Some(proto)
  }

  /** The list without the first probing question for a service. */
  function DropQuestion(list: seq<Question>, service: string, proto: string): seq<Question> {
    if list == [] then []
    else if Asks(list[0], service, proto) then list[1..]
    else [list[0]] + DropQuestion(list[1..], service, proto)
  }

  /** Of the questions exactly the first that asks for the service is missing. */
  lemma {:induction false} DropsFirst(list: seq<Question>, service: string, proto: string, i: nat)
    requires i < |list| && Asks(list[i], service, proto)
    requires forall k :: 0 <= k < i ==> !Asks(list[k], service, proto)
    ensures DropQuestion(list, service, proto) == list[..i] + list[i + 1..]
    decreases i
  {
    if i > 0 {
      DropsFirst(list[1..], service, proto, i - 1);
      assert list[..i] == [list[0]] + list[1..][..i - 1];
    }
  }

  lemma {:induction false} DropsNone(list: seq<Question>, service: string, proto: string)
    requires forall k :: 0 <= k < |list| ==> !Asks(list[k], service, proto)
    ensures DropQuestion(list, service, proto) == list
    decreases |list|
  {
    if list != [] { DropsNone(list[1..], service, proto); }
  }

  method RemoveQuestion(list: seq<Question>, service: string, proto: string) returns (r: seq<Question>)
    ensures r == DropQuestion(list, service, proto)
  {
    r := list;
    var i := 0;
    while i < |list|
      invariant i <= |list| && r == list
      invariant DropQuestion(list, service, proto) == list[..i] + DropQuestion(list[i..], service, proto)
    {
      if Asks(list[i], service, proto) {
        return list[..i] + list[i + 1..];
      }
      assert list[i..] == [list[i]] + list[i + 1..];
      i := i + 1;
    }
  }

  function PurgedOf(c: Content, service: nat, name: string, protocol: string, asked: bool): Content {
    Says(if asked then DropQuestion(c.questions, name, protocol) else c.questions,
            NotOf(c.answers, service), NotOf(c.additional, service), NotOf(c.servers, service))
  }

  /** What is left of a packet mentions the service nowhere, and loses nothing else of its records. */
  lemma PurgedMentionsNothing(c: Content, service: nat, name: string, protocol: string, asked: bool)
    ensures var r := PurgedOf(c, service, name, protocol, asked);
      && (forall a :: a in r.answers <==> a in c.answers && a.service != service)
      && (forall a :: a in r.additional <==> a in c.additional && a.service != service)
      && (forall a :: a in r.servers <==> a in c.servers && a.service != service)
  {
    NotOfAny(c.answers, service);
    NotOfAny(c.additional, service);
    NotOfAny(c.servers, service);
  }

  /** The question that is left out is the first one of type ANY for the service's name and protocol. */
  predicate FirstProbe(list: seq<Question>, name: string, protocol: string, i: nat) {
    && i < |list| && list[i] == Question(true, Some(name), Some(protocol))
    && Question(true, Some(name), Some(protocol)) !in list[..i]
  }

  lemma QuestionsLeft(c: Content, service: nat, name: string, protocol: string, asked: bool, i: nat)
    ensures var left := PurgedOf(c, service, name, protocol, asked).questions;
      && (!asked ==> left == c.questions)
      && (asked && FirstProbe(c.questions, name, protocol, i) ==> left == c.questions[..i] + c.questions[i + 1..])
      && (asked && Question(true, Some(name), Some(protocol)) !in c.questions ==> left == c.questions)
  {
    var list, probe := c.questions, Question(true, Some(name), Some(protocol));
    if FirstProbe(list, name, protocol, i) {
      forall k | 0 <= k < i ensures !Asks(list[k], name, protocol) { assert list[..i][k] == list[k]; }
      DropsFirst(list, name, protocol, i);
    }
    if probe !in list { DropsNone(list, name, protocol); }
  }

  function PurgedAll(c: seq<Content>, service: nat, name: string, protocol: string, asked: seq<bool>): (r: seq<Content>)
    requires |asked| == |c|
    ensures |r| == |c|
    decreases |c|
  {
    if c == [] then []
    else [PurgedOf(c[0], service, name, protocol, asked[0])] + PurgedAll(c[1..], service, name, protocol, asked[1..])
  }

  lemma {:induction false} PurgedAt(c: seq<Content>, service: nat, name: string, protocol: string, asked: seq<bool>,
                                    i: nat)
    requires |asked| == |c| && i < |c|
    ensures PurgedAll(c, service, name, protocol, asked)[i] == PurgedOf(c[i], service, name, protocol, asked[i])
    decreases i
  {
    if i > 0 { PurgedAt(c[1..], service, name, protocol, asked[1..], i - 1); }
  }

  /** Those of the first `i` packets that have anything to send. */
  ghost function Spoken(list: seq<Packet>, contents: seq<Content>, i: nat): seq<Packet>
    requires |list| == |contents| && i <= |list|
  {
    if i == 0 then []
    else Spoken(list, contents, i - 1) + if contents[i - 1] == NOTHING then [] else [list[i - 1]]
  }

  // ----- what the order of the queue means

  lemma {:induction false} InsertBound(q: seq<Entry>, e: Entry, low: nat)
    requires (forall i :: 0 <= i < |q| ==> low <= q[i].due) && low <= e.due
    ensures forall i :: 0 <= i < |Insert(q, e)| ==> low <= Insert(q, e)[i].due
    decreases |q|
  {
    if q != [] && e.due >= q[0].due { InsertBound(q[1..], e, low); }
  }

  lemma {:induction false} InsertKeepsOrder(q: seq<Entry>, e: Entry)
    requires InOrder(q)
    ensures InOrder(Insert(q, e))
    decreases |q|
  {
    if q != [] && e.due >= q[0].due {
      InsertKeepsOrder(q[1..], e);
      InsertBound(q[1..], e, q[0].due);
    }
  }

  /** The packets that are due at a time. */
  function DueAt(q: seq<Entry>, due: nat): seq<Entry> {
    if q == [] then [] else if q[0].due == due then [q[0]] + DueAt(q[1..], due) else DueAt(q[1..], due)
  }

  lemma {:induction false} NoneDue(q: seq<Entry>, due: nat)
    requires forall i :: 0 <= i < |q| ==> due < q[i].due
    ensures DueAt(q, due) == []
    decreases |q|
  {
    if q != [] { NoneDue(q[1..], due); }
  }

  /** A packet comes after those that are due at the same time. */
  lemma {:induction false} InsertComesLast(q: seq<Entry>, e: Entry, due: nat)
    requires InOrder(q)
    ensures DueAt(Insert(q, e), due) == DueAt(q, due) + if e.due == due then [e] else []
    decreases |q|
  {
    if q == [] {
    } else if e.due < q[0].due {
      if due == e.due { NoneDue(q, due); }
      assert ([e] + q)[1..] == q;
    } else {
      InsertComesLast(q[1..], e, due);
      assert ([q[0]] + Insert(q[1..], e))[1..] == Insert(q[1..], e);
    }
  }

  /** The queue after packets have been sent one after the other. */
  function InsertAll(sent: seq<Entry>): seq<Entry> {
    if sent == [] then [] else Insert(InsertAll(sent[..|sent| - 1]), sent[|sent| - 1])
  }

  lemma {:induction false} DueAtSnoc(q: seq<Entry>, e: Entry, due: nat)
    ensures DueAt(q + [e], due) == DueAt(q, due) + if e.due == due then [e] else []
    decreases |q|
  {
    if q == [] {
      assert q + [e] == [e];
    } else {
      assert (q + [e])[1..] == q[1..] + [e];
      DueAtSnoc(q[1..], e, due);
    }
  }

  /** The queue is ordered by time, and what is due at the same time is in the order in which it was sent. */
  lemma {:induction false} QueueIsStable(sent: seq<Entry>, due: nat)
    ensures InOrder(InsertAll(sent)) && DueAt(InsertAll(sent), due) == DueAt(sent, due)
    decreases |sent|
  {
    if sent != [] {
      var n := |sent| - 1;
      QueueIsStable(sent[..n], due);
      InsertKeepsOrder(InsertAll(sent[..n]), sent[n]);
      InsertComesLast(InsertAll(sent[..n]), sent[n], due);
      DueAtSnoc(sent[..n], sent[n], due);
      assert sent[..n] + [sent[n]] == sent;
    }
  }

  /** The entries whose packets are kept. */
  function Those(q: seq<Entry>, keep: Packet -> bool): seq<Entry> {
    if q == [] then []
    else if keep(q[0].packet) then [q[0]] + Those(q[1..], keep)
    else Those(q[1..], keep)
  }

  function Elsewhere(netif: nat, proto: nat): Packet -> bool {
    (p: Packet) => !p.On(netif, proto)
  }

  function Outside(gone: set<Packet>): Packet -> bool {
    (p: Packet) => p !in gone
  }

  lemma {:induction false} ThoseIn(q: seq<Entry>, keep: Packet -> bool, e: Entry)
    ensures e in Those(q, keep) <==> e in q && keep(e.packet)
    decreases |q|
  {
    if q != [] {
      ThoseIn(q[1..], keep, e);
      assert q == [q[0]] + q[1..];
    }
  }

  lemma InsertInFront(q: seq<Entry>, e: Entry)
    requires forall i :: 0 <= i < |q| ==> e.due < q[i].due
    ensures Insert(q, e) == [e] + q
  {
  }

  /** Removing packets and sending one can be exchanged. */
  lemma {:induction false} ThoseInsert(q: seq<Entry>, e: Entry, keep: Packet -> bool)
    requires InOrder(q)
    ensures Those(Insert(q, e), keep)
         == if keep(e.packet) then Insert(Those(q, keep), e) else Those(q, keep)
    decreases |q|
  {
    if q == [] {
    } else if e.due < q[0].due {
      forall x | x in Those(q, keep) ensures e.due < x.due { ThoseIn(q, keep, x); }
      InsertInFront(Those(q, keep), e);
      assert ([e] + q)[1..] == q;
    } else {
      ThoseInsert(q[1..], e, keep);
      assert ([q[0]] + Insert(q[1..], e))[1..] == Insert(q[1..], e);
      if keep(q[0].packet) {
        assert ([q[0]] + Those(q[1..], keep))[1..] == Those(q[1..], keep);
      } else {
        assert Those(q, keep) == Those(q[1..], keep);
        assert Those(Insert(q, e), keep) == Those(Insert(q[1..], e), keep);
      }
    }
  }

  lemma {:induction false} ThoseSnoc(q: seq<Entry>, e: Entry, keep: Packet -> bool)
    ensures Those(q + [e], keep) == Those(q, keep) + if keep(e.packet) then [e] else []
    decreases |q|
  {
    if q == [] {
      assert q + [e] == [e];
    } else {
      assert (q + [e])[1..] == q[1..] + [e];
      ThoseSnoc(q[1..], e, keep);
    }
  }

  /** Removing packets leaves the queue as if they had never been sent. */
  lemma {:induction false} RemovedAsNeverSent(sent: seq<Entry>, keep: Packet -> bool)
    ensures Those(InsertAll(sent), keep) == InsertAll(Those(sent, keep))
    decreases |sent|
  {
    if sent != [] {
      var n := |sent| - 1;
      RemovedAsNeverSent(sent[..n], keep);
      QueueIsStable(sent[..n], 0);
      ThoseInsert(InsertAll(sent[..n]), sent[n], keep);
      ThoseSnoc(sent[..n], sent[n], keep);
      assert sent[..n] + [sent[n]] == sent;
      var k := Those(sent[..n], keep);
      if keep(sent[n].packet) {
        assert (k + [sent[n]])[..|k|] == k;
      } else {
        assert Those(sent, keep) == k;
      }
    }
  }

  // ----- whole runs

  /** What can happen to the queue.  `Drops` removes packets that have nothing left to say, or all. */
  datatype Event =
    | Sends(entry: Entry)
    | Takes(packet: Packet)
    | Clears(netif: nat, proto: nat)
    | Drops(gone: set<Packet>)

  /** The queue, and what has been sent and not been removed, in the order of sending. */
  datatype Track = Track(queue: seq<Entry>, live: seq<Entry>)

  /** The queue does what its methods do, the other component keeps the record. */
  function Turned(t: Track, event: Event): Track {
    match event
    case Sends(e) => Track(Insert(t.queue, e), t.live + [e])
    case Takes(p) =>
      if t.queue != [] && t.queue[0].packet == p then Track(t.queue[1..], Those(t.live, Outside({p}))) else t
    case Clears(netif, proto) =>
      Track(Those(t.queue, Elsewhere(netif, proto)), Those(t.live, Elsewhere(netif, proto)))
    case Drops(gone) =>
      Track(Those(t.queue, Outside(gone)), Those(t.live, Outside(gone)))
  }

  predicate Single(q: seq<Entry>) {
    forall i, j :: 0 <= i < j < |q| ==> q[i].packet != q[j].packet
  }

  /** A packet is not sent while it is in the queue. */
  predicate Allowed(t: Track, event: Event) {
    event.Sends? ==> forall e :: e in t.queue ==> e.packet != event.entry.packet
  }

  predicate AllAllowed(t: Track, events: seq<Event>)
    decreases |events|
  {
    events == [] || (Allowed(t, events[0]) && AllAllowed(Turned(t, events[0]), events[1..]))
  }

  function AfterAll(t: Track, events: seq<Event>): Track
    decreases |events|
  {
    if events == [] then t else AfterAll(Turned(t, events[0]), events[1..])
  }

  /** The queue is the stable sort of what is live. */
  predicate Tidy(t: Track) {
    Single(t.queue) && t.queue == InsertAll(t.live)
  }

  lemma {:induction false} InsertIn(q: seq<Entry>, e: Entry, x: Entry)
    ensures x in Insert(q, e) <==> x == e || x in q
    decreases |q|
  {
    if q != [] && e.due >= q[0].due {
      InsertIn(q[1..], e, x);
      assert q == [q[0]] + q[1..];
    }
  }

  lemma {:induction false} InsertSingle(q: seq<Entry>, e: Entry)
    requires Single(q) && forall x :: x in q ==> x.packet != e.packet
    ensures Single(Insert(q, e))
    decreases |q|
  {
    if q != [] && e.due >= q[0].due {
      var rest := Insert(q[1..], e);
      InsertSingle(q[1..], e);
      forall x | x in rest ensures x.packet != q[0].packet { InsertIn(q[1..], e, x); }
    }
  }

  lemma {:induction false} ThoseSingle(q: seq<Entry>, keep: Packet -> bool)
    requires Single(q)
    ensures Single(Those(q, keep))
    decreases |q|
  {
    if q != [] {
      var rest := Those(q[1..], keep);
      ThoseSingle(q[1..], keep);
      forall x | x in rest ensures x.packet != q[0].packet { ThoseIn(q[1..], keep, x); }
    }
  }

  lemma {:induction false} ThoseAll(q: seq<Entry>, keep: Packet -> bool)
    requires forall x :: x in q ==> keep(x.packet)
    ensures Those(q, keep) == q
    decreases |q|
  {
    if q != [] {
      assert forall x :: x in q[1..] ==> x in q;
      ThoseAll(q[1..], keep);
    }
  }

  lemma TurnStaysTidy(t: Track, event: Event)
    requires Tidy(t) && Allowed(t, event)
    ensures Tidy(Turned(t, event))
  {
    match event {
      case Sends(e) =>
        InsertSingle(t.queue, e);
        assert (t.live + [e])[..|t.live|] == t.live;
      case Takes(p) =>
        if t.queue != [] && t.queue[0].packet == p {
          RemovedAsNeverSent(t.live, Outside({p}));
          ThoseAll(t.queue[1..], Outside({p}));
        }
      case Clears(netif, proto) =>
        RemovedAsNeverSent(t.live, Elsewhere(netif, proto));
        ThoseSingle(t.queue, Elsewhere(netif, proto));
      case Drops(gone) =>
        RemovedAsNeverSent(t.live, Outside(gone));
        ThoseSingle(t.queue, Outside(gone));
    }
  }

  /**
   Whatever has been sent, taken, cleared and dropped in between: the queue is ordered
   by time, and holds what has been sent and not been removed, packets with the same
   time in the order of sending.
   */
  lemma {:induction false} RunsAreStable(t: Track, events: seq<Event>, due: nat)
    requires Tidy(t) && AllAllowed(t, events)
    ensures var r := AfterAll(t, events);
      Tidy(r) && InOrder(r.queue) && DueAt(r.queue, due) == DueAt(r.live, due)
    decreases |events|
  {
    if events == [] {
      QueueIsStable(t.live, due);
    } else {
      TurnStaysTidy(t, events[0]);
      RunsAreStable(Turned(t, events[0]), events[1..], due);
    }
  }

  // ----- what the methods do to the entries of the queue

  lemma {:induction false} EntriesWithout(list: seq<Packet>, netif: nat, proto: nat)
    ensures Entries(Without(list, netif, proto)) == Those(Entries(list), Elsewhere(netif, proto))
    decreases |list|
  {
    if list != [] {
      EntriesWithout(list[1..], netif, proto);
      assert Entries(list)[1..] == Entries(list[1..]);
      var rest := Without(list[1..], netif, proto);
      assert Entries([list[0]] + rest) == [Entry(list[0], list[0].sendAt)] + Entries(rest);
    }
  }

  /** The packets that are left with nothing to say. */
  ghost function Voiceless(was: seq<Packet>, after: seq<Content>): set<Packet>
    requires |was| == |after|
  {
    set m | 0 <= m < |was| && after[m] == NOTHING :: was[m]
  }

  /** What `RemoveService` leaves of a queue is what is left when those have been dropped. */
  lemma DroppedPackets(was: seq<Packet>, after: seq<Content>)
    requires |was| == |after| && Distinct(was)
    ensures Entries(Spoken(was, after, |after|)) == Those(Entries(was), Outside(Voiceless(was, after)))
  {
    EntriesSpoken(was, after, |after|);
    assert was[..|was|] == was;
  }

  lemma {:induction false} EntriesSpoken(was: seq<Packet>, after: seq<Content>, i: nat)
    requires |was| == |after| && i <= |was| && Distinct(was)
    ensures Entries(Spoken(was, after, i)) == Those(Entries(was[..i]), Outside(Voiceless(was, after)))
    decreases i
  {
    if i > 0 {
      var keep, front, p := Outside(Voiceless(was, after)), Spoken(was, after, i - 1), was[i - 1];
      EntriesSpoken(was, after, i - 1);
      assert was[..i][..i - 1] == was[..i - 1];
      ThoseSnoc(Entries(was[..i - 1]), Entry(p, p.sendAt), keep);
      assert keep(p) <==> after[i - 1] != NOTHING;
      assert (front + [p])[..|front|] == front;
    }
  }

  /** The head is due no later than anything sent, and was sent first of what is due with it. */
  lemma HeadIsFirst(sent: seq<Entry>)
    requires sent != []
    ensures InsertAll(sent) != []
    ensures var head := InsertAll(sent)[0];
      DueAt(sent, head.due) != [] && head == DueAt(sent, head.due)[0] && forall e :: e in sent ==> head.due <= e.due
  {
    var q := InsertAll(sent);
    assert q != [];
    QueueIsStable(sent, q[0].due);
    forall e | e in sent ensures q[0].due <= e.due {
      QueueIsStable(sent, e.due);
      DueAtHas(sent, e);
      DueAtFrom(q, e.due);
    }
  }

  lemma {:induction false} DueAtHas(q: seq<Entry>, e: Entry)
    requires e in q
    ensures DueAt(q, e.due) != []
    decreases |q|
  {
    if q[0] != e { DueAtHas(q[1..], e); }
  }

  lemma {:induction false} DueAtFrom(q: seq<Entry>, due: nat)
    requires DueAt(q, due) != []
    ensures exists i :: 0 <= i < |q| && q[i].due == due
    decreases |q|
  {
    if q[0].due != due {
      DueAtFrom(q[1..], due);
      var i :| 0 <= i < |q[1..]| && q[1..][i].due == due;
      assert q[i + 1].due == due;
    }
  }
}
