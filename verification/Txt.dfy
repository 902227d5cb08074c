/**
 TXT records of the mDNS component: the writer of entries in mdns_send.c and the
 parser in mdns_receive.c.
 */
module Txt {
  import opened Common

  const EQUALS: byte := 0x3D
  const MAX_PACKET: nat := 1460

  /** A key, and a value unless there is only the key. */
  datatype Item = Item(key: seq<byte>, value: Option<seq<byte>>)

  // ----- writing

  function Text(t: Item): seq<byte> {
    t.key + match t.value case None => [] case Some(v) => [EQUALS] + v
  }

  /** An entry; its length is written into one byte. */
  function Entry(t: Item): seq<byte> {
    [(|Text(t)| % 0x100) as byte] + Text(t)
  }

  function Write(items: seq<Item>): seq<byte> {
    if items == [] then [] else Entry(items[0]) + Write(items[1..])
  }

  /** Appends one entry to a packet, if there is room for it. */
  method AppendEntry(packet: array<byte>, index: nat, t: Item) returns (written: nat, next: nat)
    requires index + |Text(t)| + 1 < MAX_PACKET ==> index + |Text(t)| + 1 <= packet.Length
    modifies packet
    ensures index + |Text(t)| + 1 >= MAX_PACKET ==>
              written == 0 && next == index && packet[..] == old(packet[..])
    ensures index + |Text(t)| + 1 < MAX_PACKET ==>
              && written == |Text(t)| + 1 && next == index + written
              && packet[..] == Put(old(packet[..]), index, Entry(t))
  {
    var valueLen := match t.value case None => 0 case Some(v) => |v| + 1;
    var len := |t.key| + valueLen;
    if index + len + 1 >= MAX_PACKET { return 0, index; }
    packet[index] := (len % 0x100) as byte;
    next := index + 1;
    forall i | 0 <= i < |t.key| { packet[next + i] := t.key[i]; }
    if t.value.Some? {
      packet[next + |t.key|] := EQUALS;
      forall i | 0 <= i < |t.value.value| { packet[next + |t.key| + 1 + i] := t.value.value[i]; }
    }
    next := next + len;
    written := len + 1;
    assert packet[..] == Put(old(packet[..]), index, Entry(t));
  }

  // ----- parsing

  /** The number of entries; None if the last one is cut off. */
  function CountFrom(data: seq<byte>, i: nat): Option<nat>
    decreases |data| - i
  {
    if i >= |data| || data[i] == 0 then Some(0)
    else if i + 1 + data[i] > |data| then None
    else match CountFrom(data, i + 1 + data[i])
      case None => None
      case Some(n) => Some(n + 1)
  }

  function Count(data: seq<byte>): Option<nat> {
    if |data| == 1 then Some(0) else CountFrom(data, 0)
  }

  /** How many of `len` bytes come before the first equals sign. */
  function FirstEquals(data: seq<byte>, i: nat, len: nat): (n: nat)
    requires i + len <= |data|
    ensures n <= len && forall k :: i <= k < i + n ==> data[k] != EQUALS
    ensures n < len ==> data[i + n] == EQUALS
    decreases len
  {
    if len == 0 || data[i] == EQUALS then 0 else 1 + FirstEquals(data, i + 1, len - 1)
  }

  /** The length of the key of an entry that lies at `i`; None if it is empty. */
  function KeyLen(data: seq<byte>, i: nat, len: nat): (n: Option<nat>)
    requires len > 0 && i + len <= |data|
    ensures n.Some? ==> 0 < n.value <= len
  {
    var k := FirstEquals(data, i, len);
    if k == 0 then None else Some(k)
  }

  /** An entry without an equals sign is taken to be one byte longer than it is. */
  function Behind(i: nat, keyLen: nat, len: nat): nat {
    i + keyLen + 1 + if len > keyLen + 1 then len - keyLen - 1 else 0
  }

  function ItemAt(data: seq<byte>, i: nat, keyLen: nat, len: nat): Item
    requires keyLen <= len && i + len <= |data|
  {
    Item(data[i..i + keyLen], if len > keyLen + 1 then Some(data[i + keyLen + 1..i + len]) else None)
  }

  /** At most `n` entries from position `i` on; None if one is cut off. */
  function ParseFrom(data: seq<byte>, i: nat, n: nat): Option<seq<Item>>
    decreases |data| + 1 - i
  {
    if i >= |data| || n == 0 || data[i] == 0 then Some([])
    else
      var len := data[i] as nat;
      if i + 1 + len > |data| then None
      else match KeyLen(data, i + 1, len)
        case None => ParseFrom(data, i + 1 + len, n)
        case Some(k) => After([ItemAt(data, i + 1, k, len)], ParseFrom(data, Behind(i + 1, k, len), n - 1))
  }

  function After(items: seq<Item>, rest: Option<seq<Item>>): Option<seq<Item>> {
    match rest case None => None case Some(r) => Some(items + r)
  }

  lemma Append(a: seq<Item>, b: seq<Item>, rest: Option<seq<Item>>)
    ensures After(a, After(b, rest)) == After(a + b, rest)
    ensures After([], rest) == rest
  {
    if rest.Some? { assert a + (b + rest.value) == (a + b) + rest.value && [] + rest.value == rest.value; }
  }

  /** What the parser hands out; nothing if an entry is cut off. */
  function Parse(data: seq<byte>): seq<Item> {
    match Count(data)
    case None => []
    case Some(n) => match ParseFrom(data, 0, n) case None => [] case Some(items) => items
  }

  method CountItems(data: seq<byte>) returns (n: Option<nat>)
    ensures n == Count(data)
  {
    if |data| == 1 { return Some(0); }
    var i, count := 0, 0;
    while i < |data|
      invariant CountFrom(data, 0) == match CountFrom(data, i) case None => None case Some(m) => Some(m + count)
      decreases |data| - i
    {
      var len := data[i] as nat;
      if len == 0 { break; }
      if i + 1 + len > |data| { return None; }
      i, count := i + 1 + len, count + 1;
    }
    n := Some(count);
  }

  method NameLength(data: seq<byte>, i: nat, len: nat) returns (n: Option<nat>)
    requires len > 0 && i + len <= |data|
    ensures n == KeyLen(data, i, len)
  {
    if data[i] == EQUALS { return None; }
    var k := 0;
    while k < len
      invariant k <= len && FirstEquals(data, i, len) == k + FirstEquals(data, i + k, len - k)
    {
      if data[i + k] == EQUALS { return Some(k); }
      k := k + 1;
    }
    n := Some(len);
  }

  /** One entry; `invalid` if it has no key. */
  method ParseEntry(data: seq<byte>, i: nat, ghost n: nat) returns (t: Option<Item>, next: nat)
    requires i < |data| && data[i] > 0 && i + 1 + data[i] <= |data| && n > 0
    ensures next > i
    ensures ParseFrom(data, i, n) == match t
                                     case None => ParseFrom(data, next, n)
                                     case Some(item) => After([item], ParseFrom(data, next, n - 1))
  {
    var len := data[i] as nat;
    var k := NameLength(data, i + 1, len);
    if k.None? {
      t, next := None, i + 1 + len;
    } else {
      t, next := Some(ItemAt(data, i + 1, k.value, len)), Behind(i + 1, k.value, len);
    }
  }

  lemma NothingMore(items: seq<Item>)
    ensures After(items, Some([])) == Some(items)
  {
    assert items + [] == items;
  }

  lemma Exhausted(data: seq<byte>, i: nat, n: nat)
    requires i >= |data| || n == 0 || data[i] == 0
    ensures ParseFrom(data, i, n) == Some([])
  {
  }

  /** One turn of the loop: an entry more, or one that has no key. */
  method ParseNext(data: seq<byte>, i: nat, n: nat, items: seq<Item>) returns (next: nat, more: seq<Item>)
    requires i < |data| && data[i] > 0 && i + 1 + data[i] <= |data| && |items| < n
    ensures next > i && |more| <= n
    ensures After(more, ParseFrom(data, next, n - |more|)) == After(items, ParseFrom(data, i, n - |items|))
  {
    more := items;
    var t: Option<Item>;
    t, next := ParseEntry(data, i, n - |items|);
    if t.Some? {
      Append(items, [t.value], ParseFrom(data, next, n - |items| - 1));
      more := items + [t.value];
    }
  }

  method ParseItems(data: seq<byte>, n: nat) returns (r: Option<seq<Item>>)
    ensures r == ParseFrom(data, 0, n)
  {
    ghost var whole := ParseFrom(data, 0, n);
    var i, items := 0, [];
    Append([], [], whole);
    while i < |data| && |items| < n
      invariant |items| <= n
      invariant After(items, ParseFrom(data, i, n - |items|)) == whole
      decreases |data| + 1 - i
    {
      if data[i] == 0 { break; }
      if i + 1 + data[i] > |data| { return None; }
      i, items := ParseNext(data, i, n, items);
    }
    Exhausted(data, i, n - |items|);
    NothingMore(items);
    r := Some(items);
  }

  method CreateResult(data: seq<byte>) returns (items: seq<Item>)
    ensures items == Parse(data)
  {
    var count := CountItems(data);
    if count.None? || count == Some(0) { return []; }
    var r := ParseItems(data, count.value);
    items := match r case None => [] case Some(list) => list;
  }

  // ----- what the parser makes of written entries

  /** A key is a string without an equals sign, and the entry's length fits into a byte. */
  predicate Writable(t: Item) {
    && t.key != [] && |Text(t)| < 0x100
    && forall i :: 0 <= i < |t.key| ==> t.key[i] != EQUALS && t.key[i] != 0
  }

  predicate AllWritable(items: seq<Item>) {
    forall i :: 0 <= i < |items| ==> Writable(items[i])
  }

  /** The parser does not tell an empty value from none. */
  function Norm(t: Item): Item { Item(t.key, if t.value == Some([]) then None else t.value) }

  function Norms(items: seq<Item>): (r: seq<Item>)
    ensures |r| == |items|
    ensures forall i :: 0 <= i < |items| ==> r[i] == Norm(items[i])
  {
    if items == [] then [] else [Norm(items[0])] + Norms(items[1..])
  }

  /** Only the last item may have no equals sign. */
  predicate KeyOnlyLast(items: seq<Item>) {
    forall i :: 0 <= i < |items| - 1 ==> items[i].value.Some?
  }

  lemma WriteHead(items: seq<Item>)
    requires items != []
    ensures |Entry(items[0])| == 1 + |Text(items[0])| && Entry(items[0])[0] == |Text(items[0])| % 0x100
    ensures Write(items) == Entry(items[0]) + Write(items[1..])
  {
  }

  lemma HeadLayout(front: seq<byte>, items: seq<Item>)
    requires items != [] && Writable(items[0])
    ensures var data, i, t, next := front + Write(items), |front|, items[0], front + Entry(items[0]);
      && |next| == i + 1 + |Text(t)| <= |data| && data == next + Write(items[1..])
      && data[i] == |Text(t)| && data[i + 1..i + 1 + |Text(t)|] == Text(t)
  {
    var t := items[0];
    EntryIs(t);
    Regroup(front, items);
    Slices(front, |Text(t)|, Text(t), Write(items[1..]));
  }

  lemma EntryIs(t: Item)
    requires Writable(t)
    ensures Entry(t) == [|Text(t)|] + Text(t)
  {
  }

  lemma Slices(front: seq<byte>, len: byte, text: seq<byte>, back: seq<byte>)
    requires |text| == len
    ensures var data := (front + ([len] + text)) + back;
      |data| >= |front| + 1 + len && data[|front|] == len && data[|front| + 1..|front| + 1 + len] == text
  {
  }

  lemma Regroup(front: seq<byte>, items: seq<Item>)
    requires items != []
    ensures front + Write(items) == (front + Entry(items[0])) + Write(items[1..])
  {
  }

  lemma {:induction false} CountWritten(front: seq<byte>, items: seq<Item>)
    requires AllWritable(items)
    ensures CountFrom(front + Write(items), |front|) == Some(|items|)
    decreases |items|
  {
    if items != [] {
      WriteHead(items);
      Regroup(front, items);
      CountWritten(front + Entry(items[0]), items[1..]);
    }
  }

  lemma FirstEqualsIs(data: seq<byte>, i: nat, len: nat, n: nat)
    requires i + len <= |data| && n <= len
    requires forall k :: i <= k < i + n ==> data[k] != EQUALS
    requires n < len ==> data[i + n] == EQUALS
    ensures FirstEquals(data, i, len) == n
  {
    var m := FirstEquals(data, i, len);
    assert m < len ==> data[i + m] == EQUALS;
    assert n < len ==> data[i + n] == EQUALS;
  }

  /** The first entry is read as it was written. */
  lemma FirstEntry(data: seq<byte>, i: nat, t: Item)
    requires Writable(t) && i + 1 + |Text(t)| <= |data|
    requires data[i + 1..i + 1 + |Text(t)|] == Text(t)
    ensures KeyLen(data, i + 1, |Text(t)|) == Some(|t.key|)
    ensures ItemAt(data, i + 1, |t.key|, |Text(t)|) == Norm(t)
    ensures Behind(i + 1, |t.key|, |Text(t)|) == i + 1 + |Text(t)| + if t.value.Some? then 0 else 1
  {
    var s := data[i + 1..i + 1 + |Text(t)|];
    assert forall k :: 0 <= k < |s| ==> data[i + 1 + k] == s[k];
    assert forall k :: i + 1 <= k < i + 1 + |t.key| ==> data[k] == t.key[k - i - 1];
    if t.value.Some? { assert s[|t.key|] == EQUALS; }
    FirstEqualsIs(data, i + 1, |Text(t)|, |t.key|);
    assert data[i + 1..i + 1 + |t.key|] == t.key;
    if t.value.Some? && t.value.value != [] {
      assert data[i + 1 + |t.key| + 1..i + 1 + |Text(t)|] == t.value.value;
    }
  }

  /** How many bytes the parser passes over for an item. */
  function Weight(items: seq<Item>): nat {
    if items == [] then 0
    else 2 + |items[0].key| + (match items[0].value case None => 0 case Some(v) => |v|) + Weight(items[1..])
  }

  lemma {:induction false} ParsedWeight(data: seq<byte>, i: nat, n: nat)
    requires i <= |data| + 1
    ensures match ParseFrom(data, i, n) case None => true case Some(items) => i + Weight(items) <= |data| + 1
    decreases |data| + 1 - i
  {
    if i < |data| && n > 0 && data[i] != 0 && i + 1 + data[i] <= |data| {
      var len := data[i] as nat;
      match KeyLen(data, i + 1, len) {
        case None => ParsedWeight(data, i + 1 + len, n);
        case Some(k) =>
          ParsedWeight(data, Behind(i + 1, k, len), n - 1);
          var rest := ParseFrom(data, Behind(i + 1, k, len), n - 1);
          if rest.Some? { assert ([ItemAt(data, i + 1, k, len)] + rest.value)[1..] == rest.value; }
      }
    }
  }

  /** The bytes of a key but the first are no key of the same length when an equals sign follows. */
  lemma LateKey(data: seq<byte>, p: nat, t: Item, len: nat)
    requires Writable(t) && t.value.Some? && len > 0
    requires p + |Text(t)| <= |data| && data[p..p + |Text(t)|] == Text(t) && p + 1 + len <= |data|
    ensures match KeyLen(data, p + 1, len) case None => true case Some(k) => k < |t.key|
  {
    assert data[p + |t.key|] == data[p..p + |Text(t)|][|t.key|] == Text(t)[|t.key|] == EQUALS;
  }

  lemma LateParse(data: seq<byte>, p: nat, t: Item, n: nat, wanted: seq<Item>)
    requires Writable(t) && t.value.Some? && n > 0 && wanted != [] && wanted[0].key == t.key
    requires p + |Text(t)| <= |data| && data[p..p + |Text(t)|] == Text(t)
    requires p + Weight(wanted) >= |data|
    ensures ParseFrom(data, p, n) != Some(wanted)
  {
    assert data[p] == data[p..p + |Text(t)|][0] == t.key[0];
    var len := data[p] as nat;
    if p + 1 + len <= |data| {
      LateKey(data, p, t, len);
      match KeyLen(data, p + 1, len) {
        case None => ParsedWeight(data, p + 1 + len, n);
        case Some(k) => assert ItemAt(data, p + 1, k, len) != wanted[0];
      }
    }
  }

  /** From position `i` on, the data are the entries of the items. */
  predicate Lies(data: seq<byte>, i: nat, items: seq<Item>)
    decreases |items|
  {
    if items == [] then i == |data|
    else
      var s := Text(items[0]);
      && i + 1 + |s| <= |data| && data[i] == |s| && data[i + 1..i + 1 + |s|] == s
      && Lies(data, i + 1 + |s|, items[1..])
  }

  lemma {:induction false} WrittenLies(front: seq<byte>, items: seq<Item>, data: seq<byte>)
    requires AllWritable(items) && data == front + Write(items)
    ensures Lies(data, |front|, items)
    decreases |items|
  {
    if items != [] {
      HeadLayout(front, items);
      WrittenLies(front + Entry(items[0]), items[1..], data);
    }
  }

  lemma {:induction false} LyingWeight(data: seq<byte>, i: nat, items: seq<Item>)
    requires AllWritable(items) && Lies(data, i, items)
    ensures |data| <= i + Weight(Norms(items))
    ensures items != [] && items[0].value.None? ==> |data| < i + Weight(Norms(items))
    decreases |items|
  {
    if items != [] {
      LyingWeight(data, i + 1 + |Text(items[0])|, items[1..]);
      assert Norms(items)[1..] == Norms(items[1..]);
    }
  }

  /** Once the parser is one byte late it never finds the entries that were written. */
  lemma OneByteLate(data: seq<byte>, i: nat, items: seq<Item>)
    requires items != [] && AllWritable(items) && Lies(data, i, items)
    ensures ParseFrom(data, i + 1, |items|) != Some(Norms(items))
  {
    var p, t, n, wanted := i + 1, items[0], |items|, Norms(items);
    LyingWeight(data, i, items);
    if t.value.None? {
      ParsedWeight(data, p, n);
    } else {
      LateParse(data, p, t, n, wanted);
    }
  }

  lemma AfterOne(t: Item, r: Option<seq<Item>>, rest: seq<Item>)
    ensures After([t], r) == Some([t] + rest) <==> r == Some(rest)
  {
    if r.Some? && [t] + r.value == [t] + rest {
      assert r.value == ([t] + r.value)[1..] && rest == ([t] + rest)[1..];
    }
  }

  lemma ParseAt(data: seq<byte>, i: nat, t: Item, n: nat, next: nat)
    requires Writable(t) && n > 0 && i + 1 + |Text(t)| <= |data|
    requires next == i + 1 + |Text(t)| + if t.value.Some? then 0 else 1
    requires data[i] == |Text(t)| && data[i + 1..i + 1 + |Text(t)|] == Text(t)
    ensures ParseFrom(data, i, n) == After([Norm(t)], ParseFrom(data, next, n - 1))
  {
    FirstEntry(data, i, t);
  }

  lemma KeyOnlyLastHead(items: seq<Item>)
    requires items != []
    ensures KeyOnlyLast(items) <==> (|items| == 1 || items[0].value.Some?) && KeyOnlyLast(items[1..])
  {
    if KeyOnlyLast(items) {
      forall k | 0 <= k < |items[1..]| - 1 ensures items[1..][k].value.Some? { assert items[k + 1].value.Some?; }
    }
  }

  /** `all` is what is parsed of items, and `more` of those behind the first. */
  lemma FirstAndRest(items: seq<Item>, all: Option<seq<Item>>, more: Option<seq<Item>>)
    requires items != [] && all == After([Norm(items[0])], more)
    requires items[0].value.Some? ==> (more == Some(Norms(items[1..])) <==> KeyOnlyLast(items[1..]))
    requires items[0].value.None? ==> (more == Some(Norms(items[1..])) <==> |items| == 1)
    ensures all == Some(Norms(items)) <==> KeyOnlyLast(items)
  {
    AfterOne(Norm(items[0]), more, Norms(items[1..]));
    KeyOnlyLastHead(items);
  }

  lemma LiesHead(data: seq<byte>, i: nat, items: seq<Item>)
    requires AllWritable(items) && Lies(data, i, items) && items != []
    ensures var s := Text(items[0]);
      && Writable(items[0]) && AllWritable(items[1..]) && i + 1 + |s| <= |data|
      && data[i] == |s| && data[i + 1..i + 1 + |s|] == s && Lies(data, i + 1 + |s|, items[1..])
  {
  }

  /** The first entry, given what is made of those behind it. */
  lemma FirstIsParsedIff(data: seq<byte>, i: nat, items: seq<Item>, p: nat, rest: seq<Item>)
    requires AllWritable(items) && Lies(data, i, items) && items != [] && rest == items[1..]
    requires p == i + 1 + |Text(items[0])| + if items[0].value.Some? then 0 else 1
    requires ParseFrom(data, p, |rest|) == Some(Norms(rest))
             <==> if items[0].value.Some? then KeyOnlyLast(rest) else rest == []
    ensures ParseFrom(data, i, |items|) == Some(Norms(items)) <==> KeyOnlyLast(items)
  {
    LiesHead(data, i, items);
    ParseAt(data, i, items[0], |items|, p);
    FirstAndRest(items, ParseFrom(data, i, |items|), ParseFrom(data, p, |rest|));
  }

  lemma LateIffMore(data: seq<byte>, next: nat, rest: seq<Item>)
    requires AllWritable(rest) && Lies(data, next, rest)
    ensures ParseFrom(data, next + 1, |rest|) == Some(Norms(rest)) <==> rest == []
  {
    if rest != [] { OneByteLate(data, next, rest); }
  }

  lemma LiesTail(data: seq<byte>, i: nat, items: seq<Item>, next: nat, rest: seq<Item>)
    requires AllWritable(items) && Lies(data, i, items) && items != []
    requires next == i + 1 + |Text(items[0])| && rest == items[1..]
    ensures AllWritable(rest) && Lies(data, next, rest)
  {
  }

  lemma NothingToParse(data: seq<byte>, i: nat)
    ensures ParseFrom(data, i, 0) == Some(Norms([])) && KeyOnlyLast([])
  {
  }

  lemma HeadWithValue(data: seq<byte>, i: nat, items: seq<Item>, next: nat, rest: seq<Item>)
    requires AllWritable(items) && Lies(data, i, items) && items != [] && items[0].value.Some?
    requires next == i + 1 + |Text(items[0])| && rest == items[1..]
    requires ParseFrom(data, next, |rest|) == Some(Norms(rest)) <==> KeyOnlyLast(rest)
    ensures ParseFrom(data, i, |items|) == Some(Norms(items)) <==> KeyOnlyLast(items)
  {
    FirstIsParsedIff(data, i, items, next, rest);
  }

  lemma HeadWithoutValue(data: seq<byte>, i: nat, items: seq<Item>, next: nat, rest: seq<Item>)
    requires AllWritable(items) && Lies(data, i, items) && items != [] && items[0].value.None?
    requires next == i + 1 + |Text(items[0])| && rest == items[1..] && AllWritable(rest) && Lies(data, next, rest)
    ensures ParseFrom(data, i, |items|) == Some(Norms(items)) <==> KeyOnlyLast(items)
  {
    LateIffMore(data, next, rest);
    FirstIsParsedIff(data, i, items, next + 1, rest);
  }

  lemma {:induction false} WrittenIsParsedIff(data: seq<byte>, i: nat, items: seq<Item>)
    requires AllWritable(items) && Lies(data, i, items)
    ensures ParseFrom(data, i, |items|) == Some(Norms(items)) <==> KeyOnlyLast(items)
    decreases |items|
  {
    if items == [] {
      NothingToParse(data, i);
    } else {
      var next, rest := i + 1 + |Text(items[0])|, items[1..];
      LiesTail(data, i, items, next, rest);
      if items[0].value.Some? {
        WrittenIsParsedIff(data, next, rest);
        HeadWithValue(data, i, items, next, rest);
      } else {
        HeadWithoutValue(data, i, items, next, rest);
      }
    }
  }

  lemma ParseSkips(data: seq<byte>, i: nat, len: nat, n: nat)
    requires i < |data| && n > 0 && data[i] == len > 0 && i + 1 + len <= |data| && KeyLen(data, i + 1, len) == None
    ensures ParseFrom(data, i, n) == ParseFrom(data, i + 1 + len, n)
  {
  }

  lemma ParseTakes(data: seq<byte>, i: nat, len: nat, n: nat, k: nat, t: Item, next: nat)
    requires i < |data| && n > 0 && data[i] == len > 0 && i + 1 + len <= |data| && KeyLen(data, i + 1, len) == Some(k)
    requires ItemAt(data, i + 1, k, len) == t && Behind(i + 1, k, len) == next
    ensures ParseFrom(data, i, n) == After([t], ParseFrom(data, next, n - 1))
  {
  }

  predicate NoEmptyValue(items: seq<Item>) {
    forall k :: 0 <= k < |items| ==> items[k].value != Some([])
  }

  predicate NoneEmpty(r: Option<seq<Item>>) {
    match r case None => true case Some(items) => NoEmptyValue(items)
  }

  lemma NotEmptyAfter(t: Item, more: Option<seq<Item>>, all: Option<seq<Item>>)
    requires t.value != Some([]) && NoneEmpty(more) && all == After([t], more)
    ensures NoneEmpty(all)
  {
  }

  lemma SkippedNoneEmpty(data: seq<byte>, i: nat, len: nat, n: nat)
    requires i < |data| && n > 0 && data[i] == len > 0 && i + 1 + len <= |data| && KeyLen(data, i + 1, len) == None
    ensures NoneEmpty(ParseFrom(data, i + 1 + len, n)) ==> NoneEmpty(ParseFrom(data, i, n))
  {
    ParseSkips(data, i, len, n);
  }

  lemma TakenNoneEmpty(data: seq<byte>, i: nat, len: nat, n: nat, k: nat, next: nat)
    requires i < |data| && n > 0 && data[i] == len > 0 && i + 1 + len <= |data| && KeyLen(data, i + 1, len) == Some(k)
    requires next == Behind(i + 1, k, len)
    ensures next > i && (NoneEmpty(ParseFrom(data, next, n - 1)) ==> NoneEmpty(ParseFrom(data, i, n)))
  {
    var t := ItemAt(data, i + 1, k, len);
    ParseTakes(data, i, len, n, k, t, next);
    if NoneEmpty(ParseFrom(data, next, n - 1)) {
      NotEmptyAfter(t, ParseFrom(data, next, n - 1), ParseFrom(data, i, n));
    }
  }

  lemma NoneEmptyAtEnd(data: seq<byte>, i: nat, n: nat)
    requires i < |data| && n > 0 && data[i] > 0 ==> i + 1 + data[i] > |data|
    ensures NoneEmpty(ParseFrom(data, i, n))
  {
  }

  /** Where the parser goes on, and that this is all it takes to know what it hands out. */
  lemma NextEntry(data: seq<byte>, i: nat, n: nat) returns (next: nat, left: nat)
    requires i < |data| && n > 0 && data[i] > 0 && i + 1 + data[i] <= |data|
    ensures next > i && (NoneEmpty(ParseFrom(data, next, left)) ==> NoneEmpty(ParseFrom(data, i, n)))
  {
    var len := data[i] as nat;
    if KeyLen(data, i + 1, len) == None {
      next, left := i + 1 + len, n;
      SkippedNoneEmpty(data, i, len, n);
    } else {
      var k := KeyLen(data, i + 1, len).value;
      next, left := Behind(i + 1, k, len), n - 1;
      TakenNoneEmpty(data, i, len, n, k, next);
    }
  }

  lemma {:induction false} NeverEmptyValue(data: seq<byte>, i: nat, n: nat)
    ensures NoneEmpty(ParseFrom(data, i, n))
    decreases |data| + 1 - i
  {
    if i < |data| && n > 0 && data[i] > 0 && i + 1 + data[i] <= |data| {
      var next, left := NextEntry(data, i, n);
      NeverEmptyValue(data, next, left);
    } else {
      NoneEmptyAtEnd(data, i, n);
    }
  }

  /**
   Parsing gives back the keys and values that were written, but for empty values,
   exactly if only the last item is without an equals sign.
   */
  lemma ParsedIff(items: seq<Item>)
    requires AllWritable(items)
    ensures Parse(Write(items)) == Norms(items) <==> KeyOnlyLast(items)
  {
    CountWritten([], items);
    assert [] + Write(items) == Write(items);
    WrittenLies([], items, Write(items));
    WrittenIsParsedIff(Write(items), 0, items);
    if items != [] { WriteHead(items); }
  }

  lemma NormsSame(items: seq<Item>)
    ensures Norms(items) == items <==> NoEmptyValue(items)
  {
    if Norms(items) == items {
      forall k | 0 <= k < |items| ensures items[k].value != Some([]) { assert Norms(items)[k] == items[k]; }
    }
  }

  /** The items come back unchanged exactly if moreover no value is empty. */
  lemma RoundTripIff(items: seq<Item>)
    requires AllWritable(items)
    ensures Parse(Write(items)) == items <==> KeyOnlyLast(items) && NoEmptyValue(items)
  {
    ParsedIff(items);
    NormsSame(items);
    var data := Write(items);
    if Count(data).Some? { NeverEmptyValue(data, 0, Count(data).value); }
  }

  // ----- what the parser makes of any data

  /** The text of an entry, and the item it stands for: none if there is nothing in front of its equals sign. */
  datatype Raw = Raw(text: seq<byte>, item: Option<Item>)

  predicate Right(r: Raw) {
    && 0 < |r.text| < 0x100
    && match r.item
       case None => r.text[0] == 0x3D
       case Some(t) =>
         && t.key != [] && 0x3D !in t.key
         && match t.value
            case None => r.text == t.key || r.text == t.key + [0x3D]
            case Some(v) => v != [] && r.text == t.key + ([0x3D] + v)
  }

  /** The entries lie one behind the other from `i` up to `end`. */
  predicate Holds(data: seq<byte>, i: nat, raws: seq<Raw>, end: nat): (r: bool)
    ensures r ==> i <= end <= |data|
    decreases |raws|
  {
    if raws == [] then i == end <= |data|
    else
      var s := raws[0].text;
      && i + 1 + |s| <= |data| && data[i] == |s| && data[i + 1..i + 1 + |s|] == s && Right(raws[0])
      && Holds(data, i + 1 + |s|, raws[1..], end)
  }

  function Found(raws: seq<Raw>): seq<Item> {
    if raws == [] then []
    else (match raws[0].item case None => [] case Some(t) => [t]) + Found(raws[1..])
  }

  /** Every entry has an equals sign, but the last need not have one at the end of the data. */
  predicate Separated(raws: seq<Raw>, last: bool) {
    forall k :: 0 <= k < |raws| ==> 0x3D in raws[k].text || (last && k == |raws| - 1)
  }

  lemma RawKey(data: seq<byte>, p: nat, r: Raw)
    requires Right(r) && p + |r.text| <= |data| && data[p..p + |r.text|] == r.text
    ensures match r.item
            case None => KeyLen(data, p, |r.text|) == None
            case Some(t) =>
              && KeyLen(data, p, |r.text|) == Some(|t.key|) && ItemAt(data, p, |t.key|, |r.text|) == t
              && Behind(p, |t.key|, |r.text|) == p + |r.text| + if |r.text| == |t.key| then 1 else 0
  {
    var s := data[p..p + |r.text|];
    assert forall k :: 0 <= k < |s| ==> data[p + k] == s[k];
    match r.item {
      case None =>
        assert data[p] == s[0];
      case Some(t) =>
        RawItem(data, p, r, t);
    }
  }

  lemma RawItem(data: seq<byte>, p: nat, r: Raw, t: Item)
    requires Right(r) && r.item == Some(t) && p + |r.text| <= |data|
    requires forall k :: 0 <= k < |r.text| ==> data[p + k] == r.text[k]
    ensures KeyLen(data, p, |r.text|) == Some(|t.key|) && ItemAt(data, p, |t.key|, |r.text|) == t
    ensures Behind(p, |t.key|, |r.text|) == p + |r.text| + if |r.text| == |t.key| then 1 else 0
  {
    var n := |t.key|;
    assert forall k :: 0 <= k < n ==> r.text[k] == t.key[k];
    forall k | p <= k < p + n ensures data[k] != EQUALS { assert data[p + (k - p)] == t.key[k - p]; }
    if n < |r.text| { assert data[p + n] == r.text[n] == EQUALS; }
    FirstEqualsIs(data, p, |r.text|, n);
    assert data[p..p + n] == t.key;
    if t.value.Some? {
      var v := t.value.value;
      forall k | 0 <= k < |v| ensures data[p + n + 1 + k] == v[k] { assert data[p + (n + 1 + k)] == r.text[n + 1 + k]; }
      assert data[p + n + 1..p + |r.text|] == v;
    }
  }

  lemma NoEqualsIsKey(r: Raw)
    requires Right(r) && r.item.Some?
    ensures 0x3D in r.text <==> |r.text| != |r.item.value.key|
  {
    if |r.text| != |r.item.value.key| { assert r.text[|r.item.value.key|] == 0x3D; }
  }

  lemma {:induction false} CountHolds(data: seq<byte>, i: nat, raws: seq<Raw>, end: nat)
    requires Holds(data, i, raws, end)
    ensures CountFrom(data, i) == match CountFrom(data, end) case None => None case Some(n) => Some(n + |raws|)
    decreases |raws|
  {
    if raws != [] { CountHolds(data, i + 1 + |raws[0].text|, raws[1..], end); }
  }

  lemma SeparatedTail(raws: seq<Raw>, last: bool)
    requires raws != [] && Separated(raws, last)
    ensures Separated(raws[1..], last) && (0x3D in raws[0].text || (last && |raws| == 1))
  {
    forall k | 0 <= k < |raws[1..]| ensures 0x3D in raws[1..][k].text || (last && k == |raws[1..]| - 1) {
      assert raws[1..][k] == raws[k + 1];
    }
  }

  lemma OneHolds(data: seq<byte>, i: nat, r: Raw, n: nat, next: nat)
    requires Right(r) && n > 0 && next == i + 1 + |r.text| <= |data| && data[i] == |r.text|
    requires data[i + 1..next] == r.text
    ensures match r.item
            case None => ParseFrom(data, i, n) == ParseFrom(data, next, n)
            case Some(t) =>
              ParseFrom(data, i, n)
              == After([t], ParseFrom(data, if 0x3D in r.text then next else next + 1, n - 1))
  {
    RawKey(data, i + 1, r);
    match r.item {
      case None =>
        ParseSkips(data, i, |r.text|, n);
      case Some(t) =>
        NoEqualsIsKey(r);
        ParseTakes(data, i, |r.text|, n, |t.key|, t, if 0x3D in r.text then next else next + 1);
    }
  }

  lemma FoundOne(t: Item, rest: seq<Item>)
    ensures After([t], Some(rest)) == Some([t] + rest) && After([t], Some([])) == Some([t] + [])
  {
  }

  lemma NothingLeft(data: seq<byte>, i: nat, n: nat)
    requires i >= |data| || data[i] == 0
    ensures ParseFrom(data, i, n) == Some([])
  {
  }

  /** One entry, given what is made of those behind it. */
  lemma OneAndRest(data: seq<byte>, i: nat, r: Raw, n: nat, next: nat, rest: seq<Item>, last: bool)
    requires Right(r) && n > 0 && next == i + 1 + |r.text| <= |data| && data[i] == |r.text|
    requires data[i + 1..next] == r.text
    requires 0x3D in r.text || (last && rest == [] && next == |data|)
    requires ParseFrom(data, next, n) == Some(rest) && (r.item.Some? ==> ParseFrom(data, next, n - 1) == Some(rest))
    ensures ParseFrom(data, i, n) == Some((match r.item case None => [] case Some(t) => [t]) + rest)
  {
    OneHolds(data, i, r, n, next);
    match r.item {
      case None =>
        assert [] + rest == rest;
      case Some(t) =>
        if 0x3D !in r.text { NothingLeft(data, next + 1, n - 1); }
        FoundOne(t, rest);
    }
  }

  lemma {:induction false} ParseHolds(data: seq<byte>, i: nat, raws: seq<Raw>, end: nat, n: nat)
    requires Holds(data, i, raws, end) && n >= |raws| && Separated(raws, end == |data|)
    requires end == |data| || data[end] == 0
    ensures ParseFrom(data, i, n) == Some(Found(raws))
    decreases |raws|
  {
    if raws == [] {
      NothingLeft(data, i, n);
    } else {
      var next := i + 1 + |raws[0].text|;
      SeparatedTail(raws, end == |data|);
      ParseHolds(data, next, raws[1..], end, n);
      if raws[0].item.Some? { ParseHolds(data, next, raws[1..], end, n - 1); }
      OneAndRest(data, i, raws[0], n, next, Found(raws[1..]), end == |data|);
    }
  }

  lemma CountOfHeld(data: seq<byte>, raws: seq<Raw>, end: nat)
    requires Holds(data, 0, raws, end) && (end == |data| || data[end] == 0)
    ensures Count(data) == Some(|raws|)
  {
    CountHolds(data, 0, raws, end);
  }

  lemma ParseOfCount(data: seq<byte>, n: nat, items: seq<Item>)
    requires Count(data) == Some(n) && ParseFrom(data, 0, n) == Some(items)
    ensures Parse(data) == items
  {
  }

  /**
   Of any data the parser hands out the items of the entries up to the end or to an empty
   one, without those that have no key, if only the last has no equals sign.
   */
  lemma ParsedIsFound(data: seq<byte>, raws: seq<Raw>, end: nat)
    requires Holds(data, 0, raws, end) && Separated(raws, end == |data|)
    requires end == |data| || data[end] == 0
    ensures Parse(data) == Found(raws) && Count(data) == Some(|raws|)
  {
    CountOfHeld(data, raws, end);
    ParseHolds(data, 0, raws, end, |raws|);
    ParseOfCount(data, |raws|, Found(raws));
  }

  /** An entry that is cut off spoils everything in front of it. */
  lemma CutOffSpoils(data: seq<byte>, raws: seq<Raw>, end: nat)
    requires Holds(data, 0, raws, end) && end < |data| && data[end] > 0 && end + 1 + data[end] > |data|
    ensures Parse(data) == [] && (Count(data) == None <==> |data| > 1)
  {
    CountHolds(data, 0, raws, end);
    Exhausted(data, 0, 0);
  }

  /** A text has an item, or begins with an equals sign. */
  lemma RawOf(text: seq<byte>) returns (r: Raw)
    requires 0 < |text| < 0x100
    ensures Right(r) && r.text == text
  {
    var n := FirstEquals(text, 0, |text|);
    var key := text[..n];
    if n == 0 {
      r := Raw(text, None);
    } else if n + 1 >= |text| {
      r := Raw(text, Some(Item(key, None)));
      assert n < |text| ==> text == key + [0x3D];
    } else {
      var value := text[n + 1..];
      r := Raw(text, Some(Item(key, Some(value))));
      assert text == key + ([0x3D] + value);
    }
  }

  /** All data are entries up to the end, up to an empty entry, or up to one that is cut off. */
  lemma {:induction false} AllData(data: seq<byte>, i: nat) returns (raws: seq<Raw>, end: nat)
    requires i <= |data|
    ensures Holds(data, i, raws, end)
    ensures end == |data| || data[end] == 0 || end + 1 + data[end] > |data|
    decreases |data| - i
  {
    raws, end := [], i;
    if i < |data| && data[i] > 0 && i + 1 + data[i] <= |data| {
      var next := i + 1 + data[i];
      var r := RawOf(data[i + 1..next]);
      raws, end := AllData(data, next);
      assert ([r] + raws)[1..] == raws;
      raws := [r] + raws;
    }
  }
}
