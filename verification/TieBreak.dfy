/**
 The conflict tie-break of the mDNS component (mdns_receive.c): two hosts that
 claim the same name compare their records, and each decides who keeps it.
 */
module TieBreak {
  import opened Common
  import T = Txt

  datatype Verdict = WeWin | Same | TheyWin

  function Opposite(v: Verdict): Verdict {
    match v case WeWin => TheyWin case TheyWin => WeWin case Same => Same
  }

  // ----- comparing data

  /** The order of `memcmp` on data of the same length: negative, zero or positive. */
  function Compare(a: seq<byte>, b: seq<byte>): int
    requires |a| == |b|
  {
    if a == [] then 0
    else if a[0] != b[0] then (a[0] as int) - b[0] as int
    else Compare(a[1..], b[1..])
  }

  /** The longer data wins, and among data of the same length the greater. */
  function Decide(ours: seq<byte>, theirs: seq<byte>): Verdict {
    if |theirs| > |ours| then TheyWin
    else if |theirs| < |ours| then WeWin
    else if Compare(ours, theirs) > 0 then WeWin
    else if Compare(ours, theirs) < 0 then TheyWin
    else Same
  }

  lemma {:induction false} CompareOpposite(a: seq<byte>, b: seq<byte>)
    requires |a| == |b|
    ensures Compare(a, b) == -Compare(b, a)
    ensures Compare(a, b) == 0 <==> a == b
    decreases |a|
  {
    if a != [] {
      CompareOpposite(a[1..], b[1..]);
      assert a == [a[0]] + a[1..] && b == [b[0]] + b[1..];
    }
  }

  lemma {:induction false} CompareTransitive(a: seq<byte>, b: seq<byte>, c: seq<byte>)
    requires |a| == |b| == |c| && Compare(a, b) > 0 && Compare(b, c) > 0
    ensures Compare(a, c) > 0
    decreases |a|
  {
    if a[0] == b[0] == c[0] { CompareTransitive(a[1..], b[1..], c[1..]); }
  }

  lemma DecideOpposite(a: seq<byte>, b: seq<byte>)
    ensures Decide(b, a) == Opposite(Decide(a, b))
    ensures Decide(a, b) == Same <==> a == b
  {
    if |a| == |b| { CompareOpposite(a, b); }
  }

  lemma DecideTransitive(a: seq<byte>, b: seq<byte>, c: seq<byte>)
    requires Decide(a, b) == WeWin && Decide(b, c) == WeWin
    ensures Decide(a, c) == WeWin
  {
    if |a| == |b| == |c| { CompareTransitive(a, b, c); }
  }

  /** Below the first place where they differ nothing counts, and behind it nothing either. */
  predicate GreaterAt(a: seq<byte>, b: seq<byte>, k: nat) {
    k < |a| && k < |b| && a[k] > b[k] && forall i :: 0 <= i < k ==> a[i] == b[i]
  }

  /** Who has the greater byte at the first place where data of the same length differ, wins. */
  lemma {:induction false} GreaterWins(a: seq<byte>, b: seq<byte>, k: nat)
    requires |a| == |b| && GreaterAt(a, b, k)
    ensures Decide(a, b) == WeWin && Decide(b, a) == TheyWin
    decreases k
  {
    if k > 0 {
      assert GreaterAt(a[1..], b[1..], k - 1);
      GreaterWins(a[1..], b[1..], k - 1);
    }
  }

  lemma LongerWins(a: seq<byte>, b: seq<byte>)
    requires |a| > |b|
    ensures Decide(a, b) == WeWin && Decide(b, a) == TheyWin
  {
  }

  /** Different data of the same length differ somewhere first. */
  lemma {:induction false} FirstDifference(a: seq<byte>, b: seq<byte>) returns (k: nat)
    requires |a| == |b| && a != b
    ensures GreaterAt(a, b, k) || GreaterAt(b, a, k)
    decreases |a|
  {
    if a[0] != b[0] {
      k := 0;
    } else {
      assert a == [a[0]] + a[1..] && b == [b[0]] + b[1..];
      var j := FirstDifference(a[1..], b[1..]);
      k := j + 1;
      assert forall i :: 0 < i < |a| ==> a[i] == a[1..][i - 1] && b[i] == b[1..][i - 1];
    }
  }

  // ----- SRV records

  /** What a host says about a service; its name is below `local`. */
  datatype Claim = Claim(priority: nat, weight: nat, port: nat, host: seq<byte>)

  const LOCAL: seq<byte> := [0x6C, 0x6F, 0x63, 0x61, 0x6C]

  function U16(v: nat): seq<byte> {
    [(v / 0x100 % 0x100) as byte, (v % 0x100) as byte]
  }

  /** The data of a record; lengths are written into one byte. */
  function SrvData(priority: nat, weight: nat, port: nat, host: seq<byte>, domain: seq<byte>): (d: seq<byte>)
    ensures |d| == 9 + |host| + |domain|
  {
    (U16(priority) + U16(weight) + U16(port))
    + ([(|host| % 0x100) as byte] + host) + ([(|domain| % 0x100) as byte] + domain) + [0]
  }

  function DataOf(c: Claim): seq<byte> {
    SrvData(c.priority, c.weight, c.port, c.host, LOCAL)
  }

  predicate IsClaim(c: Claim) {
    c.priority < 0x1_0000 && c.weight < 0x1_0000 && c.port < 0x1_0000 && c.host != []
  }

  /** The verdict of a host that claims `ours` about what another one sent. */
  function SrvVerdict(ours: Claim, priority: nat, weight: nat, port: nat, host: seq<byte>, domain: seq<byte>): Verdict {
    if ours.host == [] then Same
    else Decide(DataOf(ours), SrvData(priority, weight, port, host, domain))
  }

  /** The same, about a claim below `local`. */
  function Judge(ours: Claim, theirs: Claim): Verdict {
    SrvVerdict(ours, theirs.priority, theirs.weight, theirs.port, theirs.host, LOCAL)
  }

  // ----- the code that decides

  /** Writes bytes at an index of a buffer. */
  method Fill(buf: array<byte>, at: nat, bytes: seq<byte>) returns (next: nat)
    requires at + |bytes| <= buf.Length
    modifies buf
    ensures next == at + |bytes| && buf[..next] == old(buf[..at]) + bytes
  {
    forall i | 0 <= i < |bytes| { buf[at + i] := bytes[i]; }
    next := at + |bytes|;
  }

  /** A byte with the length of a string, and the string. */
  method FillString(buf: array<byte>, at: nat, s: seq<byte>) returns (next: nat)
    requires at + 1 + |s| <= buf.Length
    modifies buf
    ensures next == at + 1 + |s| && buf[..next] == old(buf[..at]) + ([(|s| % 0x100) as byte] + s)
  {
    buf[at] := (|s| % 0x100) as byte;
    assert buf[..at + 1] == old(buf[..at]) + [(|s| % 0x100) as byte];
    next := Fill(buf, at + 1, s);
  }

  method FillNumbers(buf: array<byte>, priority: nat, weight: nat, port: nat) returns (next: nat)
    requires buf.Length >= 6
    modifies buf
    ensures next == 6 && buf[..6] == U16(priority) + U16(weight) + U16(port)
  {
    next := Fill(buf, 0, U16(priority));
    next := Fill(buf, next, U16(weight));
    next := Fill(buf, next, U16(port));
  }

  method BuildSrv(priority: nat, weight: nat, port: nat, host: seq<byte>, domain: seq<byte>) returns (data: seq<byte>)
    ensures data == SrvData(priority, weight, port, host, domain)
  {
    var buf := new byte[9 + |host| + |domain|];
    var index := FillNumbers(buf, priority, weight, port);
    index := FillString(buf, index, host);
    index := FillString(buf, index, domain);
    buf[index] := 0;
    data := buf[..];
    assert data == buf[..index] + [0];
  }

  method MemCmp(a: seq<byte>, b: seq<byte>) returns (r: int)
    requires |a| == |b|
    ensures r == Compare(a, b)
  {
    var i := 0;
    while i < |a|
      invariant i <= |a| && Compare(a, b) == Compare(a[i..], b[i..])
    {
      assert a[i..][1..] == a[i + 1..] && b[i..][1..] == b[i + 1..];
      if a[i] != b[i] { return (a[i] as int) - b[i] as int; }
      i := i + 1;
    }
    r := 0;
  }

  method CheckSrvCollision(ours: Claim, priority: nat, weight: nat, port: nat, host: seq<byte>, domain: seq<byte>)
      returns (v: Verdict)
    ensures v == SrvVerdict(ours, priority, weight, port, host, domain)
  {
    if ours.host == [] { return Same; }
    var ourLen, theirLen := 14 + |ours.host|, 9 + |host| + |domain|;
    if theirLen > ourLen { return TheyWin; }
    if theirLen < ourLen { return WeWin; }
    var ourData := BuildSrv(ours.priority, ours.weight, ours.port, ours.host, LOCAL);
    var theirData := BuildSrv(priority, weight, port, host, domain);
    var r := MemCmp(ourData, theirData);
    v := if r > 0 then WeWin else if r < 0 then TheyWin else Same;
  }

  // ----- a strict total order on claims

  lemma U16Injective(v: nat, w: nat)
    requires v < 0x1_0000 && w < 0x1_0000 && U16(v) == U16(w)
    ensures v == w
  {
    assert U16(v)[0] == U16(w)[0] && U16(v)[1] == U16(w)[1];
  }

  lemma DataDetermines(a: Claim, b: Claim)
    requires IsClaim(a) && IsClaim(b) && DataOf(a) == DataOf(b)
    ensures a == b
  {
    var x, y, n := DataOf(a), DataOf(b), |a.host|;
    assert |a.host| == |b.host|;
    assert x[0..2] == U16(a.priority) && y[0..2] == U16(b.priority);
    assert x[2..4] == U16(a.weight) && y[2..4] == U16(b.weight);
    assert x[4..6] == U16(a.port) && y[4..6] == U16(b.port);
    assert x[7..7 + n] == a.host && y[7..7 + n] == b.host;
    U16Injective(a.priority, b.priority);
    U16Injective(a.weight, b.weight);
    U16Injective(a.port, b.port);
  }

  /** Both hosts come to the same decision, and it is a draw only between equal claims. */
  lemma VerdictsAgree(a: Claim, b: Claim)
    requires IsClaim(a) && IsClaim(b)
    ensures Judge(b, a) == Opposite(Judge(a, b))
    ensures Judge(a, b) == Same <==> a == b
  {
    DecideOpposite(DataOf(a), DataOf(b));
    if DataOf(a) == DataOf(b) { DataDetermines(a, b); }
  }

  lemma VerdictsAreTransitive(a: Claim, b: Claim, c: Claim)
    requires IsClaim(a) && IsClaim(b) && IsClaim(c)
    requires Judge(a, b) == WeWin && Judge(b, c) == WeWin
    ensures Judge(a, c) == WeWin
  {
    DecideTransitive(DataOf(a), DataOf(b), DataOf(c));
  }

  /** Of two claims whose hosts are equally long, the one that wins. */
  ghost predicate Ahead(a: Claim, b: Claim) {
    || a.priority > b.priority
    || (a.priority == b.priority && a.weight > b.weight)
    || (a.priority == b.priority && a.weight == b.weight && a.port > b.port)
    || (a.priority == b.priority && a.weight == b.weight && a.port == b.port
        && exists k: nat :: GreaterAt(a.host, b.host, k))
  }

  /** The bytes of a greater number are greater at the first place where they differ. */
  lemma GreaterNumber(v: nat, w: nat) returns (k: nat)
    requires w < v < 0x1_0000
    ensures k < 2 && GreaterAt(U16(v), U16(w), k)
  {
    k := if v / 0x100 > w / 0x100 then 0 else 1;
  }

  /** Where the fields of a record are. */
  lemma Layout(c: Claim)
    requires IsClaim(c)
    ensures var x := DataOf(c);
      && |x| == 14 + |c.host|
      && (forall i :: 0 <= i < 2 ==> x[i] == U16(c.priority)[i])
      && (forall i :: 0 <= i < 2 ==> x[2 + i] == U16(c.weight)[i])
      && (forall i :: 0 <= i < 2 ==> x[4 + i] == U16(c.port)[i])
      && x[6] == |c.host| % 0x100
      && (forall i :: 0 <= i < |c.host| ==> x[7 + i] == c.host[i])
  {
  }

  /** The place where the records of two such claims first differ. */
  lemma AheadAt(a: Claim, b: Claim) returns (k: nat)
    requires IsClaim(a) && IsClaim(b) && |a.host| == |b.host| && Ahead(a, b)
    ensures GreaterAt(DataOf(a), DataOf(b), k)
  {
    Layout(a);
    Layout(b);
    if a.priority != b.priority {
      k := GreaterNumber(a.priority, b.priority);
    } else if a.weight != b.weight {
      var j := GreaterNumber(a.weight, b.weight);
      k := 2 + j;
    } else if a.port != b.port {
      var j := GreaterNumber(a.port, b.port);
      k := 4 + j;
    } else {
      var j: nat :| GreaterAt(a.host, b.host, j);
      NumbersAgree(a, b, DataOf(a), DataOf(b));
      HostAt(a, b, DataOf(a), DataOf(b), j);
      k := 7 + j;
    }
  }

  lemma HostAt(a: Claim, b: Claim, x: seq<byte>, y: seq<byte>, j: nat)
    requires |a.host| == |b.host| && GreaterAt(a.host, b.host, j) && |x| == |y| == 14 + |a.host|
    requires forall i :: 0 <= i < 7 ==> x[i] == y[i]
    requires forall i :: 0 <= i < |a.host| ==> x[7 + i] == a.host[i] && y[7 + i] == b.host[i]
    ensures GreaterAt(x, y, 7 + j)
  {
    forall i | 0 <= i < 7 + j ensures x[i] == y[i] {
      if i >= 7 { assert x[7 + (i - 7)] == a.host[i - 7] && y[7 + (i - 7)] == b.host[i - 7]; }
    }
    assert x[7 + j] == a.host[j] && y[7 + j] == b.host[j];
  }

  lemma NumbersAgree(a: Claim, b: Claim, x: seq<byte>, y: seq<byte>)
    requires IsClaim(a) && IsClaim(b) && x == DataOf(a) && y == DataOf(b) && |a.host| == |b.host|
    requires a.priority == b.priority && a.weight == b.weight && a.port == b.port
    ensures forall i :: 0 <= i < 7 ==> x[i] == y[i]
  {
  }

  lemma AheadOrBehind(a: Claim, b: Claim)
    requires IsClaim(a) && IsClaim(b) && |a.host| == |b.host| && a != b
    ensures Ahead(a, b) || Ahead(b, a)
  {
    if a.host != b.host { var k := FirstDifference(a.host, b.host); }
  }

  /**
   The claim with the longer host wins; with equally long hosts the greater priority, then
   the greater weight, then the greater port, then the host that is later in the alphabet.
   */
  lemma WinnerIs(a: Claim, b: Claim)
    requires IsClaim(a) && IsClaim(b)
    ensures Judge(a, b) == WeWin <==> |a.host| > |b.host| || (|a.host| == |b.host| && Ahead(a, b))
  {
    VerdictsAgree(a, b);
    if |a.host| == |b.host| {
      if Ahead(a, b) {
        var k := AheadAt(a, b);
        GreaterWins(DataOf(a), DataOf(b), k);
      } else if a != b {
        AheadOrBehind(a, b);
        var k := AheadAt(b, a);
        GreaterWins(DataOf(b), DataOf(a), k);
      }
    }
  }

  /** Whatever the other record's domain is: the longer record wins, and of equally long ones the greater. */
  lemma SrvGreaterWins(ours: Claim, priority: nat, weight: nat, port: nat, host: seq<byte>, domain: seq<byte>, k: nat)
    requires ours.host != []
    ensures var a, b, v := DataOf(ours), SrvData(priority, weight, port, host, domain),
                           SrvVerdict(ours, priority, weight, port, host, domain);
      && (|a| > |b| || (|a| == |b| && GreaterAt(a, b, k)) ==> v == WeWin)
      && (|b| > |a| || (|a| == |b| && GreaterAt(b, a, k)) ==> v == TheyWin)
  {
    var a, b := DataOf(ours), SrvData(priority, weight, port, host, domain);
    if |a| == |b| && GreaterAt(a, b, k) { GreaterWins(a, b, k); }
    if |a| == |b| && GreaterAt(b, a, k) { GreaterWins(b, a, k); }
  }

  predicate Wins(c: Claim, all: set<Claim>) {
    c in all && forall d :: d in all && d != c ==> Judge(c, d) == WeWin
  }

  /** Among any claims exactly one wins against all others, and every other one finds itself beaten by it. */
  lemma {:induction false} OneWinner(all: set<Claim>) returns (winner: Claim)
    requires all != {} && forall c :: c in all ==> IsClaim(c)
    ensures Wins(winner, all)
    ensures forall c :: Wins(c, all) ==> c == winner
    ensures forall d :: d in all && d != winner ==> Judge(d, winner) == TheyWin
    decreases all
  {
    var c :| c in all;
    var rest := all - {c};
    if rest == {} {
      assert all == {c};
      winner := c;
    } else {
      var best := OneWinner(rest);
      VerdictsAgree(c, best);
      winner := if Judge(c, best) == WeWin then c else best;
      forall d | d in all && d != winner ensures Judge(winner, d) == WeWin {
        if winner == c && d != best { VerdictsAreTransitive(c, best, d); }
      }
    }
    forall d | d in all && d != winner ensures Judge(d, winner) == TheyWin {
      VerdictsAgree(winner, d);
    }
  }

  // ----- TXT records

  /** A record without items is sent as a single zero byte. */
  function TxtData(items: seq<T.Item>): seq<byte> {
    if items == [] then [0] else T.Write(items)
  }

  function TxtVerdict(ours: seq<T.Item>, theirs: seq<byte>): Verdict {
    if |theirs| <= 1 then if ours != [] then WeWin else Same
    else if ours == [] then TheyWin
    else Decide(T.Write(ours), theirs)
  }

  /** What a buffer holds after the items have been written, those aside for which a packet has no room. */
  function Filled(buf: seq<byte>, index: nat, items: seq<T.Item>): (r: seq<byte>)
    requires index + |T.Write(items)| <= |buf|
    ensures |r| == |buf|
    decreases |items|
  {
    if items == [] then buf
    else
      var next := index + |T.Text(items[0])| + 1;
      if next < T.MAX_PACKET then Filled(Put(buf, index, T.Entry(items[0])), next, items[1..])
      else Filled(buf, index, items[1..])
  }

  lemma {:induction false} FilledIsWritten(buf: seq<byte>, index: nat, items: seq<T.Item>)
    requires index + |T.Write(items)| == |buf| < T.MAX_PACKET
    ensures Filled(buf, index, items) == buf[..index] + T.Write(items)
    decreases |items|
  {
    if items != [] {
      var entry := T.Entry(items[0]);
      T.WriteHead(items);
      var written := Put(buf, index, entry);
      assert written[..index + |entry|] == buf[..index] + entry;
      FilledIsWritten(written, index + |entry|, items[1..]);
    }
  }

  /** Writes the items into a buffer of the other record's length; `stale` is what it held before. */
  method WriteItems(items: seq<T.Item>, stale: seq<byte>) returns (data: seq<byte>)
    requires |T.Write(items)| == |stale|
    ensures data == Filled(stale, 0, items)
  {
    var buf := new byte[|stale|](i requires 0 <= i < |stale| => stale[i]);
    var index: nat := 0;
    assert items[0..] == items && buf[..] == stale;
    for i := 0 to |items|
      invariant index + |T.Write(items[i..])| <= buf.Length == |stale|
      invariant Filled(buf[..], index, items[i..]) == Filled(stale, 0, items)
    {
      T.WriteHead(items[i..]);
      assert items[i..][1..] == items[i + 1..];
      var _, next := T.AppendEntry(buf, index, items[i]);
      index := next;
    }
    data := buf[..];
  }

  /** The verdict, if the buffer for our record holds `stale` before it is written. */
  function VerdictOn(ours: seq<T.Item>, theirs: seq<byte>, stale: seq<byte>): Verdict
    requires |stale| == |theirs|
  {
    if |theirs| > 1 && ours != [] && |T.Write(ours)| == |theirs| then Decide(Filled(stale, 0, ours), theirs)
    else TxtVerdict(ours, theirs)
  }

  /** As long as the record fits into a packet, what the buffer held before makes no difference. */
  lemma StaleMakesNoDifference(ours: seq<T.Item>, theirs: seq<byte>, stale: seq<byte>)
    requires |stale| == |theirs| && (|theirs| < T.MAX_PACKET || |theirs| != |T.Write(ours)|)
    ensures VerdictOn(ours, theirs, stale) == TxtVerdict(ours, theirs)
  {
    if |T.Write(ours)| == |theirs| {
      FilledIsWritten(stale, 0, ours);
      assert stale[..0] + T.Write(ours) == T.Write(ours);
    }
  }

  method CheckTxtCollision(ours: seq<T.Item>, theirs: seq<byte>, stale: seq<byte>) returns (v: Verdict)
    requires |stale| == |theirs|
    ensures v == VerdictOn(ours, theirs, stale)
    ensures |theirs| < T.MAX_PACKET || |theirs| != |T.Write(ours)| ==> v == TxtVerdict(ours, theirs)
  {
    if |theirs| < T.MAX_PACKET || |theirs| != |T.Write(ours)| { StaleMakesNoDifference(ours, theirs, stale); }
    if |theirs| <= 1 { return if ours != [] then WeWin else Same; }
    if ours == [] { return TheyWin; }
    var length := 0;
    for i := 0 to |ours|
      invariant length + |T.Write(ours[i..])| == |T.Write(ours)|
    {
      T.WriteHead(ours[i..]);
      assert ours[i..][1..] == ours[i + 1..];
      length := length + 1 + |ours[i].key| + match ours[i].value case None => 0 case Some(value) => |value| + 1;
    }
    if |theirs| > length { return TheyWin; }
    if |theirs| < length { return WeWin; }
    var data := WriteItems(ours, stale);
    var r := MemCmp(data, theirs);
    v := if r > 0 then WeWin else if r < 0 then TheyWin else Same;
  }

  predicate Named(items: seq<T.Item>) { forall i :: 0 <= i < |items| ==> items[i].key != [] }

  lemma WrittenIsLonger(items: seq<T.Item>)
    requires items != [] && items[0].key != []
    ensures |T.Write(items)| > 1
  {
    T.WriteHead(items);
  }

  /** The same holds for the items of a service. */
  lemma TxtVerdictsAgree(a: seq<T.Item>, b: seq<T.Item>)
    requires Named(a) && Named(b)
    ensures TxtVerdict(b, TxtData(a)) == Opposite(TxtVerdict(a, TxtData(b)))
    ensures TxtVerdict(a, TxtData(b)) == Same <==> TxtData(a) == TxtData(b)
  {
    if a != [] { WrittenIsLonger(a); }
    if b != [] { WrittenIsLonger(b); }
    DecideOpposite(T.Write(a), T.Write(b));
  }

  lemma TxtGreaterWins(ours: seq<T.Item>, theirs: seq<byte>, k: nat)
    ensures var a, v := T.Write(ours), TxtVerdict(ours, theirs);
      && (ours != [] && |theirs| <= 1 ==> v == WeWin)
      && (ours == [] && |theirs| > 1 ==> v == TheyWin)
      && (ours == [] && |theirs| <= 1 ==> v == Same)
      && (ours != [] && |theirs| > 1 ==>
          && (|a| > |theirs| || (|a| == |theirs| && GreaterAt(a, theirs, k)) ==> v == WeWin)
          && (|theirs| > |a| || (|a| == |theirs| && GreaterAt(theirs, a, k)) ==> v == TheyWin))
  {
    var a := T.Write(ours);
    if |a| == |theirs| && GreaterAt(a, theirs, k) { GreaterWins(a, theirs, k); }
    if |a| == |theirs| && GreaterAt(theirs, a, k) { GreaterWins(theirs, a, k); }
  }

  lemma TxtVerdictsAreTransitive(a: seq<T.Item>, b: seq<T.Item>, c: seq<T.Item>)
    requires Named(a) && Named(b) && Named(c)
    requires TxtVerdict(a, TxtData(b)) == WeWin && TxtVerdict(b, TxtData(c)) == WeWin
    ensures TxtVerdict(a, TxtData(c)) == WeWin
  {
    if a != [] { WrittenIsLonger(a); }
    if b != [] { WrittenIsLonger(b); }
    if c != [] { WrittenIsLonger(c); }
    if a != [] && b != [] && c != [] { DecideTransitive(T.Write(a), T.Write(b), T.Write(c)); }
  }
}
