/**
 The DNS name reader of mdns_utils.c and the compressing name writer of
 mdns_send.c.  A packet buffer is a stretch of memory: the first MAX_PACKET
 bytes belong to the packet, the bytes after it are whatever the linker put
 there (the C code may look at them, and never writes them).
 */
module DnsName {
  import opened Common

  const MAX_PACKET: nat := 1460
  const NAME_BUF_LEN: nat := 65

  type Str = seq<byte>

  const UNDERSCORE: byte := 0x5F
  const DOT: Str := [0x2E]
  const SUB: Str := [0x5F, 0x73, 0x75, 0x62]
  const LOCAL: Str := [0x6C, 0x6F, 0x63, 0x61, 0x6C]
  const ARPA: Str := [0x61, 0x72, 0x70, 0x61]
  const IP6: Str := [0x69, 0x70, 0x36]
  const IN_ADDR: Str := [0x69, 0x6E, 0x2D, 0x61, 0x64, 0x64, 0x72]

  // ----- C strings

  /** The C string held in a buffer: everything before the first NUL. */
  function CStr(buf: seq<byte>): (s: Str)
    ensures |s| <= |buf|
  {
    if buf == [] || buf[0] == 0 then [] else [buf[0]] + CStr(buf[1..])
  }

  function Lower(b: byte): byte {
    if 0x41 <= b <= 0x5A then b + 0x20 else b
  }

  function LowerAll(s: Str): (r: Str)
    ensures |r| == |s|
  {
    if s == [] then [] else [Lower(s[0])] + LowerAll(s[1..])
  }

  /** strcasecmp(a, b) == 0 */
  predicate EqNoCase(a: Str, b: Str) {
    LowerAll(a) == LowerAll(b)
  }

  /** strlcat(dst, src, NAME_BUF_LEN) */
  function Cat(dst: Str, src: Str): (r: Str)
    requires |dst| < NAME_BUF_LEN
    ensures |dst| <= |r| < NAME_BUF_LEN
  {
    dst + (if |dst| + |src| < NAME_BUF_LEN then src else src[..NAME_BUF_LEN - 1 - |dst|])
  }

  /** The stored string depends on the bytes before the terminator only. */
  lemma CStrTerminated(content: seq<byte>, buf: seq<byte>)
    requires |content| < |buf| && buf[..|content|] == content && buf[|content|] == 0
    ensures CStr(buf) == CStr(content)
  {
    if content != [] && content[0] != 0 {
      assert buf[1..][..|content| - 1] == content[1..];
      CStrTerminated(content[1..], buf[1..]);
    }
  }

  lemma {:induction false} CStrOfPlain(s: Str)
    requires 0 !in s
    ensures CStr(s) == s
  {
    if s != [] {
      CStrOfPlain(s[1..]);
    }
  }

  // ----- the name a reader collects

  /** `text` holds host, service, proto and domain, in that order. */
  datatype NameValue = NameValue(text: seq<Str>, parts: nat, sub: bool, invalid: bool)

  predicate WellFormed(n: NameValue) {
    && |n.text| == 4 && n.parts <= 4
    && forall i | 0 <= i < 4 :: |n.text[i]| < NAME_BUF_LEN
  }

  type Name = n: NameValue | WellFormed(n) witness NameValue([[], [], [], []], 0, false, false)

  const EMPTY_NAME: Name := NameValue([[], [], [], []], 0, false, false)

  type Label = l: seq<byte> | |l| <= 63 witness []

  /** What a reader meets before the end of a name: labels and back-pointers. */
  datatype Item = Text(content: Label) | Jump

  /** A second label that is merged into the host part instead of being stored. */
  predicate Folds(s: Str) {
    && (s == [] || s[0] != UNDERSCORE)
    && !EqNoCase(s, LOCAL) && !EqNoCase(s, ARPA) && !EqNoCase(s, IP6) && !EqNoCase(s, IN_ADDR)
  }

  function Folded(n: Name, s: Str): Name {
    n.(text := n.text[0 := Cat(Cat(n.text[0], DOT), s)])
  }

  function WithPart(n: Name, s: Str): Name
    requires |s| <= 63 && n.parts < 4
  {
    n.(text := n.text[n.parts := s], parts := n.parts + 1)
  }

  function PutText(n: Name, s: Str): (r: Name)
    requires |s| <= 63 && (n.parts == 4 ==> n.invalid)
  {
    if n.parts == 1 && Folds(s) then Folded(n, s)
    else if EqNoCase(s, SUB) then n.(sub := true)
    else if !n.invalid then WithPart(n, s)
    else n
  }

  /** Anything that follows a fourth part makes the name invalid. */
  function Mark(name: Name): Name {
    if name.parts == 4 then name.(invalid := true) else name
  }

  /** What one item does to the name read so far. */
  function PutItem(name: Name, item: Item): Name {
    match item
    case Jump => Mark(name)
    case Text(content) => PutText(Mark(name), CStr(content))
  }

  function PutItems(name: Name, items: seq<Item>): Name
    decreases |items|
  {
    if items == [] then name else PutItems(PutItem(name, items[0]), items[1..])
  }

  lemma {:induction false} PutItemsConcat(name: Name, a: seq<Item>, b: seq<Item>)
    ensures PutItems(name, a + b) == PutItems(PutItems(name, a), b)
    decreases |a|
  {
    if a == [] {
      assert a + b == b;
    } else {
      assert (a + b)[1..] == a[1..] + b;
      PutItemsConcat(PutItem(name, a[0]), a[1..], b);
    }
  }

  // ----- reading: the items a position stands for

  /** `reach` is one past the highest byte that had to be looked at. */
  datatype Reading = Unreadable | Items(items: seq<Item>, next: nat, reach: nat)

  function Prepend(items: seq<Item>, r: Reading): Reading {
    match r
    case Unreadable => Unreadable
    case Items(rest, next, reach) => Items(items + rest, next, reach)
  }

  function Max(a: nat, b: nat): nat { if a < b then b else a }

  /** The offset a back-pointer at `pos` names. */
  function Target(m: seq<byte>, pos: nat): (t: nat)
    requires pos + 1 < |m|
    ensures t < 0x4000
  {
    (m[pos] as int) % 64 * 256 + m[pos + 1]
  }

  /** RFC 1035 section 4.1.4, as the source reads it: from `pos`, in a run of
      labels that began at `seg`. A back-pointer must point below `seg`. */
  function Read(m: seq<byte>, len: nat, seg: nat, pos: nat): (r: Reading)
    requires seg <= pos <= len < |m|
    ensures r.Items? ==> pos < r.next <= len + 1 && pos <= r.reach <= len + 1
    decreases seg, len - pos
  {
    if pos >= len then Items([], pos + 1, pos)
    else if m[pos] == 0 then Items([], pos + 1, pos + 1)
    else if m[pos] < 0xC0 then
      if m[pos] > 63 || pos + 1 + m[pos] > len then Unreadable
      else Prepend([Text(m[pos + 1..pos + 1 + m[pos]])], Read(m, len, seg, pos + 1 + m[pos]))
    else if Target(m, pos) >= seg then Unreadable
    else match Read(m, len, Target(m, pos), Target(m, pos))
      case Unreadable => Unreadable
      case Items(rest, _, reach) => Items([Jump] + rest, pos + 2, Max(reach, pos + 2))
  }

  lemma SamePrefix(m: seq<byte>, m': seq<byte>, reach: nat, n: nat)
    requires n <= reach <= |m| && reach <= |m'| && m[..reach] == m'[..reach]
    ensures m[..n] == m'[..n]
  {
    assert m[..n] == m[..reach][..n] && m'[..n] == m'[..reach][..n];
  }

  lemma SameLabel(m: seq<byte>, m': seq<byte>, reach: nat, from: nat, to: nat)
    requires from <= to <= reach <= |m| && reach <= |m'| && m[..reach] == m'[..reach]
    ensures m[from..to] == m'[from..to]
  {
    assert m[from..to] == m[..reach][from..to] && m'[from..to] == m'[..reach][from..to];
  }

  lemma SameByte(m: seq<byte>, m': seq<byte>, reach: nat, i: nat)
    requires i < reach <= |m| && reach <= |m'| && m[..reach] == m'[..reach]
    ensures m[i] == m'[i]
  {
    assert m[i] == m[..reach][i] && m'[i] == m'[..reach][i];
  }

  lemma ReadText(m: seq<byte>, len: nat, seg: nat, pos: nat, next: nat, bytes: seq<byte>)
    requires seg <= pos < len < |m| && 0 < m[pos] <= 63 && next == pos + 1 + m[pos] <= len
    requires bytes == m[pos + 1..next]
    ensures Read(m, len, seg, pos) == Prepend([Text(bytes)], Read(m, len, seg, next))
  {
  }

  lemma ReadLabelFrame(m: seq<byte>, m': seq<byte>, len: nat, seg: nat, pos: nat, next: nat)
    requires seg <= pos < len < |m| && len < |m'| && m[pos] == m'[pos] && 0 < m[pos] <= 63
    requires next == pos + 1 + m[pos] <= len
    requires Read(m', len, seg, next) == Read(m, len, seg, next)
    requires m[pos + 1..next] == m'[pos + 1..next]
    ensures Read(m', len, seg, pos) == Read(m, len, seg, pos)
  {
    var bytes := m[pos + 1..next];
    ReadText(m, len, seg, pos, next, bytes);
    ReadText(m', len, seg, pos, next, bytes);
  }

  lemma ReadJumpFrame(m: seq<byte>, m': seq<byte>, len: nat, seg: nat, pos: nat, t: nat)
    requires seg <= pos < len < |m| && len < |m'| && m[pos] == m'[pos] && m[pos] >= 0xC0 && m[pos + 1] == m'[pos + 1]
    requires t == Target(m, pos) < seg
    requires Read(m', len, t, t) == Read(m, len, t, t)
    ensures Read(m', len, seg, pos) == Read(m, len, seg, pos)
  {
  }

  lemma ReadReaches(m: seq<byte>, len: nat, seg: nat, pos: nat)
    requires seg <= pos < len < |m| && m[pos] != 0 && Read(m, len, seg, pos).Items?
    ensures m[pos] < 0xC0 ==>
      var next := pos + 1 + m[pos];
      m[pos] <= 63 && next <= len && Read(m, len, seg, next).Items?
      && next <= Read(m, len, seg, next).reach <= Read(m, len, seg, pos).reach
    ensures m[pos] >= 0xC0 ==>
      var t := Target(m, pos);
      t < seg && Read(m, len, t, t).Items? && Read(m, len, t, t).reach <= Read(m, len, seg, pos).reach
      && pos + 2 <= Read(m, len, seg, pos).reach
  {
  }

  /** Only the bytes below `reach` matter for a successful reading. */
  lemma {:induction false} ReadFrame(m: seq<byte>, m': seq<byte>, len: nat, seg: nat, pos: nat)
    requires seg <= pos <= len < |m| && len < |m'|
    requires Read(m, len, seg, pos).Items?
    requires m[..Read(m, len, seg, pos).reach] == m'[..Read(m, len, seg, pos).reach]
    ensures Read(m', len, seg, pos) == Read(m, len, seg, pos)
    decreases seg, len - pos
  {
    var reach := Read(m, len, seg, pos).reach;
    if pos < len {
      SameByte(m, m', reach, pos);
      if m[pos] != 0 {
        ReadReaches(m, len, seg, pos);
        if m[pos] < 0xC0 {
          var next := pos + 1 + m[pos];
          SamePrefix(m, m', reach, Read(m, len, seg, next).reach);
          ReadFrame(m, m', len, seg, next);
          SameLabel(m, m', reach, pos + 1, next);
          ReadLabelFrame(m, m', len, seg, pos, next);
        } else {
          SameByte(m, m', reach, pos + 1);
          var t := Target(m, pos);
          SamePrefix(m, m', reach, Read(m, len, t, t).reach);
          ReadFrame(m, m', len, t, t);
          ReadJumpFrame(m, m', len, seg, pos, t);
        }
      }
    }
  }

  // ----- the reader

  class NameBuf {
    var text: seq<Str>
    var parts: nat
    var sub: bool
    var invalid: bool

    function Value(): NameValue
      reads this
    {
      NameValue(text, parts, sub, invalid)
    }

    ghost predicate Valid()
      reads this
    {
      WellFormed(Value())
    }

    constructor ()
      ensures Valid() && Value() == EMPTY_NAME
    {
      text, parts, sub, invalid := [[], [], [], []], 0, false, false;
    }

    /** Merges a label into the host. */
    method Fold(s: Str)
      requires Valid()
      modifies this`text
      ensures Valid() && Value() == Folded(old(Value()), s)
    {
      text := text[0 := Cat(Cat(text[0], DOT), s)];
    }

    method AddPart(s: Str)
      requires Valid() && parts < 4 && |s| <= 63
      modifies this`text, this`parts
      ensures Valid() && Value() == WithPart(old(Value()), s)
    {
      text := text[parts := s];
      parts := parts + 1;
    }
  }

  /** The source looks at the first byte of the buffer, not of the string. */
  lemma FoldsByBuffer(buf: seq<byte>)
    requires buf != []
    ensures var s := CStr(buf);
      Folds(s) <==> buf[0] != UNDERSCORE
                    && !EqNoCase(s, LOCAL) && !EqNoCase(s, ARPA) && !EqNoCase(s, IP6) && !EqNoCase(s, IN_ADDR)
  {
  }

  /** The label in the scratch buffer goes into the name. */
  method StoreLabel(name: NameBuf, buf: array<byte>, ghost content: Label)
    requires name.Valid() && (name.parts == 4 ==> name.invalid) && buf.Length == NAME_BUF_LEN
    requires buf[..|content|] == content && buf[|content|] == 0
    modifies name
    ensures name.Valid() && name.Value() == PutText(old(name.Value()), CStr(content))
  {
    CStrTerminated(content, buf[..]);
    FoldsByBuffer(buf[..]);
    var s := CStr(buf[..]);
    if name.parts == 1 && buf[0] != UNDERSCORE
       && !EqNoCase(s, LOCAL) && !EqNoCase(s, ARPA) && !EqNoCase(s, IP6) && !EqNoCase(s, IN_ADDR) {
      name.Fold(s);
    } else if EqNoCase(s, SUB) {
      name.sub := true;
    } else if !name.invalid {
      name.AddPart(s);
    }
  }

  /** Copies a label of `size` bytes, one byte at a time, and terminates it. */
  method CopyLabel(packet: array<byte>, len: nat, at: nat, size: nat, buf: array<byte>) returns (ok: bool)
    requires at <= len < packet.Length && size <= 63
    requires buf.Length == NAME_BUF_LEN && buf != packet
    modifies buf
    ensures ok <==> at + size <= len
    ensures ok ==> buf[..size] == packet[at..at + size] && buf[size] == 0
  {
    var i := 0;
    while i < size
      invariant 0 <= i <= size && at + i <= len
      invariant buf[..i] == packet[at..at + i]
    {
      if at + i >= len {
        return false;
      }
      buf[i] := packet[at + i];
      i := i + 1;
    }
    buf[size] := 0;
    return true;
  }

  /** The label of `size` bytes at `at`, unless it is too long or cut off. */
  method ReadLabel(packet: array<byte>, len: nat, at: nat, size: nat, name: NameBuf, buf: array<byte>,
                   ghost m: seq<byte>)
    returns (ok: bool)
    requires at <= len < packet.Length && m == packet[..]
    requires name.Valid() && (name.parts == 4 ==> name.invalid)
    requires buf.Length == NAME_BUF_LEN && buf != packet
    modifies name, buf
    ensures name.Valid()
    ensures ok <==> size <= 63 && at + size <= len
    ensures packet[..] == m
    ensures name.Value() == if ok then PutText(old(name.Value()), CStr(m[at..at + size])) else old(name.Value())
  {
    if size > 63 {
      return false;
    }
    ok := CopyLabel(packet, len, at, size, buf);
    if ok {
      assert packet[at..at + size] == m[at..at + size];
      StoreLabel(name, buf, m[at..at + size]);
    }
  }

  datatype Stop = Stop(next: Option<nat>, name: NameValue)

  /** The run of the reader from `pos` on, with `name` collected so far: where it
      stops, if it can be read, and the name it leaves behind either way. */
  function Run(m: seq<byte>, len: nat, seg: nat, pos: nat, name: NameValue): (r: Stop)
    requires seg <= pos <= len < |m| && WellFormed(name)
    ensures WellFormed(r.name)
    decreases seg, len - pos
  {
    if pos >= len || m[pos] == 0 then Stop(Some(pos + 1), name)
    else if m[pos] < 0xC0 then
      if m[pos] > 63 || pos + 1 + m[pos] > len then Stop(None, Mark(name))
      else Run(m, len, seg, pos + 1 + m[pos], PutText(Mark(name), CStr(m[pos + 1..pos + 1 + m[pos]])))
    else if Target(m, pos) >= seg then Stop(None, Mark(name))
    else
      var r := Run(m, len, Target(m, pos), Target(m, pos), Mark(name));
      Stop(if r.next.Some? then Some(pos + 2) else None, r.name)
  }

  /** The two ways on: past a label, and through a back-pointer. */
  lemma RunText(m: seq<byte>, len: nat, seg: nat, pos: nat, name: Name, next: nat, bytes: seq<byte>)
    requires seg <= pos < len < |m| && 0 < m[pos] <= 63 && next == pos + 1 + m[pos] <= len
    requires bytes == m[pos + 1..next]
    ensures Run(m, len, seg, pos, name) == Run(m, len, seg, next, PutText(Mark(name), CStr(bytes)))
  {
  }

  lemma RunJump(m: seq<byte>, len: nat, seg: nat, pos: nat, name: Name, address: nat, r: Stop)
    requires seg <= pos < len < |m| && m[pos] >= 0xC0 && address == Target(m, pos) < seg
    requires r == Run(m, len, address, address, Mark(name))
    ensures Run(m, len, seg, pos, name) == Stop(if r.next.Some? then Some(pos + 2) else None, r.name)
  {
  }

  /** What a run makes of what can be read. */
  predicate Collected(r: Stop, read: Reading, name: Name) {
    match read
    case Unreadable => r.next == None
    case Items(items, next, _) => r == Stop(Some(next), PutItems(name, items))
  }

  lemma CollectText(m: seq<byte>, len: nat, seg: nat, pos: nat, name: Name, next: nat, item: Item)
    requires seg <= pos < len < |m| && 0 < m[pos] <= 63 && next == pos + 1 + m[pos] <= len
    requires item == Text(m[pos + 1..next])
    requires Collected(Run(m, len, seg, next, PutItem(name, item)), Read(m, len, seg, next), PutItem(name, item))
    ensures Collected(Run(m, len, seg, pos, name), Read(m, len, seg, pos), name)
  {
    ReadText(m, len, seg, pos, next, item.content);
    RunText(m, len, seg, pos, name, next, item.content);
    var rest := Read(m, len, seg, next);
    if rest.Items? { PutFirst(name, item, rest.items); }
  }

  lemma CollectJump(m: seq<byte>, len: nat, seg: nat, pos: nat, name: Name, t: nat)
    requires seg <= pos < len < |m| && m[pos] >= 0xC0 && t == Target(m, pos) < seg
    requires Collected(Run(m, len, t, t, Mark(name)), Read(m, len, t, t), Mark(name))
    ensures Collected(Run(m, len, seg, pos, name), Read(m, len, seg, pos), name)
  {
    RunJump(m, len, seg, pos, name, t, Run(m, len, t, t, Mark(name)));
    var rest := Read(m, len, t, t);
    if rest.Items? { PutFirst(name, Jump, rest.items); }
  }

  /** A run collects the items that are there to be read. */
  lemma {:induction false} RunCollects(m: seq<byte>, len: nat, seg: nat, pos: nat, name: Name)
    requires seg <= pos <= len < |m|
    ensures Collected(Run(m, len, seg, pos, name), Read(m, len, seg, pos), name)
    decreases seg, len - pos
  {
    if pos >= len || m[pos] == 0 {
    } else if m[pos] < 0xC0 {
      if m[pos] <= 63 && pos + 1 + m[pos] <= len {
        var next := pos + 1 + m[pos];
        var item := Text(m[pos + 1..next]);
        RunCollects(m, len, seg, next, PutItem(name, item));
        CollectText(m, len, seg, pos, name, next, item);
      }
    } else if Target(m, pos) < seg {
      var t := Target(m, pos);
      RunCollects(m, len, t, t, Mark(name));
      CollectJump(m, len, seg, pos, name, t);
    }
  }

  lemma PutFirst(name: Name, item: Item, rest: seq<Item>)
    ensures PutItems(name, [item] + rest) == PutItems(PutItem(name, item), rest)
  {
    assert ([item] + rest)[1..] == rest;
  }

  lemma RunStops(m: seq<byte>, len: nat, seg: nat, pos: nat, name: Name)
    requires seg <= pos < len < |m| && 0 < m[pos] < 0xC0 && (m[pos] > 63 || pos + 1 + m[pos] > len)
    ensures Run(m, len, seg, pos, name) == Stop(None, Mark(name))
  {
  }

  /** A label goes into the name; `ok` unless it is too long or cut off. */
  method PassLabel(packet: array<byte>, len: nat, start: nat, pos: nat, name: NameBuf, buf: array<byte>,
                   ghost m: seq<byte>, ghost before: Name)
    returns (ok: bool)
    requires start <= pos < len < packet.Length && m == packet[..] && 0 < m[pos] < 0xC0
    requires name.Valid() && name.Value() == Mark(before) && (name.parts == 4 ==> name.invalid)
    requires buf.Length == NAME_BUF_LEN && buf != packet
    modifies name, buf
    ensures name.Valid() && packet[..] == m
    ensures ok ==> pos + 1 + m[pos] <= len
                   && Run(m, len, start, pos + 1 + m[pos], name.Value()) == Run(m, len, start, pos, before)
    ensures !ok ==> Stop(None, name.Value()) == Run(m, len, start, pos, before)
  {
    var size := packet[pos];
    assert size == m[pos];
    ok := ReadLabel(packet, len, pos + 1, size, name, buf, m);
    if ok {
      RunText(m, len, start, pos, before, pos + 1 + size, m[pos + 1..pos + 1 + size]);
    } else {
      RunStops(m, len, start, pos, before);
    }
  }

  lemma RunAstray(m: seq<byte>, len: nat, seg: nat, pos: nat, name: Name)
    requires seg <= pos < len < |m| && m[pos] >= 0xC0 && Target(m, pos) >= seg
    ensures Run(m, len, seg, pos, name) == Stop(None, Mark(name))
  {
  }

  /** A back-pointer ends the reading, wherever it leads. */
  method FollowPointer(packet: array<byte>, len: nat, start: nat, pos: nat, name: NameBuf, buf: array<byte>,
                       ghost m: seq<byte>, ghost before: Name)
    returns (next: Option<nat>)
    requires start <= pos < len < packet.Length && m == packet[..] && m[pos] >= 0xC0
    requires name.Valid() && name.Value() == Mark(before)
    requires buf.Length == NAME_BUF_LEN && buf != packet
    modifies name, buf
    ensures name.Valid() && Stop(next, name.Value()) == Run(m, len, start, pos, before)
    decreases start, 0
  {
    var address: nat := (packet[pos] as int) % 64 * 256 + packet[pos + 1];
    assert address == Target(m, pos);
    if address >= start {
      RunAstray(m, len, start, pos, before);
      return None;
    }
    next := ReadFqdn(packet, len, address, name, buf);
    RunJump(m, len, start, pos, before, address, Stop(next, name.Value()));
    next := if next.Some? then Some(pos + 2) else None;
  }

  /** One turn of the reader's loop, at a byte that is not the end of the name:
      past a label, or, at a back-pointer, to the end of the whole reading. */
  method ReadItem(packet: array<byte>, len: nat, start: nat, pos: nat, name: NameBuf, buf: array<byte>,
                  ghost m: seq<byte>, ghost before: Name)
    returns (done: bool, next: Option<nat>, pos': nat)
    requires start <= pos < len < packet.Length && m == packet[..] && m[pos] != 0
    requires name.Valid() && name.Value() == before
    requires buf.Length == NAME_BUF_LEN && buf != packet
    modifies name, buf
    ensures name.Valid() && packet[..] == m
    ensures done ==> Stop(next, name.Value()) == Run(m, len, start, pos, before)
    ensures !done ==> pos < pos' <= len && Run(m, len, start, pos', name.Value()) == Run(m, len, start, pos, before)
    decreases start, 1
  {
    if name.parts == 4 {
      name.invalid := true;
    }
    assert name.Value() == Mark(before) && packet[pos] == m[pos];
    done, next, pos' := true, None, pos;
    if packet[pos] < 0xC0 {
      var ok := PassLabel(packet, len, start, pos, name, buf, m, before);
      if ok { done, pos' := false, pos + 1 + packet[pos]; }
    } else {
      next := FollowPointer(packet, len, start, pos, name, buf, m, before);
    }
  }

  method ReadFqdn(packet: array<byte>, len: nat, start: nat, name: NameBuf, buf: array<byte>)
    returns (next: Option<nat>)
    requires start <= len < packet.Length && name.Valid()
    requires buf.Length == NAME_BUF_LEN && buf != packet
    modifies name, buf
    ensures name.Valid() && Stop(next, name.Value()) == Run(packet[..], len, start, start, old(name.Value()))
    decreases start, 2
  {
    var index := 0;
    ghost var m := packet[..];
    ghost var total := Run(m, len, start, start, name.Value());
    while start + index < len && packet[start + index] != 0
      invariant start + index <= len && name.Valid()
      invariant packet[..] == m
      invariant total == Run(m, len, start, start + index, name.Value())
      decreases len - index
    {
      var done, at;
      done, next, at := ReadItem(packet, len, start, start + index, name, buf, m, name.Value());
      if done {
        return;
      }
      index := at - start;
    }
    return Some(start + index + 1);
  }

  // ----- the writer

  predicate SameParts(n: Name, strings: seq<Str>) {
    n.parts == |strings| && forall i | 0 <= i < |strings| :: EqNoCase(strings[i], n.text[i])
  }

  /** The writer takes the bytes at `p` for a copy of the name it has to write. */
  predicate Accepts(m: seq<byte>, p: nat, strings: seq<Str>)
    requires strings != [] && p <= MAX_PACKET && MAX_PACKET + 256 <= |m|
  {
    var len := |strings[0]| % 256;
    && m[p] == len
    && m[p + 1..p + 1 + len] == strings[0][..len]
    && Read(m, MAX_PACKET, p, p).Items?
    && SameParts(PutItems(EMPTY_NAME, Read(m, MAX_PACKET, p, p).items), strings)
  }

  /** The lowest accepted position in [p, index). */
  function Find(m: seq<byte>, p: nat, index: nat, strings: seq<Str>): (r: Option<nat>)
    requires strings != [] && p <= index <= MAX_PACKET && MAX_PACKET + 256 <= |m|
    ensures r.Some? ==> p <= r.value < index && Accepts(m, r.value, strings)
    decreases index - p
  {
    if p == index then None
    else if Accepts(m, p, strings) then Some(p)
    else Find(m, p + 1, index, strings)
  }

  /** Find is determined by being the first accepted position. */
  lemma {:induction false} FindIsFirst(m: seq<byte>, p: nat, index: nat, strings: seq<Str>, r: Option<nat>)
    requires strings != [] && p <= index <= MAX_PACKET && MAX_PACKET + 256 <= |m|
    requires r.Some? ==> p <= r.value < index && Accepts(m, r.value, strings)
    requires forall k | p <= k < (if r.Some? then r.value else index) :: !Accepts(m, k, strings)
    ensures Find(m, p, index, strings) == r
    decreases index - p
  {
    if p < index && r != Some(p) {
      FindIsFirst(m, p + 1, index, strings, r);
    }
  }

  /** What the writer leaves behind. `complete` is false when it ran out of
      room somewhere, which `written` does not show. */
  datatype Written = Written(m: seq<byte>, index: nat, written: nat, complete: bool)

  function Append(m: seq<byte>, index: nat, strings: seq<Str>): (r: Written)
    requires index <= MAX_PACKET && MAX_PACKET + 256 <= |m|
    ensures |r.m| == |m| && index <= r.index <= MAX_PACKET
    decreases |strings|
  {
    if strings == [] then
      if index >= MAX_PACKET then Written(m, index, 0, false) else Written(m[index := 0], index + 1, 1, true)
    else match Find(m, 0, index, strings)
      case Some(p) =>
        if index + 1 >= MAX_PACKET then Written(m, index, 0, false)
        else Written(Put(m, index, PointerBytes(p)), index + 2, 2, true)
      case None =>
        var bytes := LabelBytes(strings[0]);
        if index + |bytes| >= MAX_PACKET then Written(m, index, 0, false)
        else if |bytes| == 256 then Written(Put(m, index, bytes), index + 256, 0, false)  // 256 is 0 in 8 bits
        else
          var rest := Append(Put(m, index, bytes), index + |bytes|, strings[1..]);
          Written(rest.m, rest.index, |bytes| + rest.written, rest.complete)
  }

  /** The length byte, cut to 8 bits, and that many bytes of the string. */
  function LabelBytes(s: Str): (r: seq<byte>)
    ensures 1 <= |r| <= 256
  {
    [|s| % 256] + s[..|s| % 256]
  }

  function PointerBytes(target: nat): seq<byte>
    requires target < 0x4000
  {
    [0xC0 + target / 256, target % 256]
  }

  lemma AppendLabel(m: seq<byte>, index: nat, strings: seq<Str>, m': seq<byte>, index': nat, rest: Written)
    requires strings != [] && index <= MAX_PACKET && MAX_PACKET + 256 <= |m|
    requires Find(m, 0, index, strings) == None && |LabelBytes(strings[0])| < 256
    requires index + |LabelBytes(strings[0])| < MAX_PACKET
    requires m' == Put(m, index, LabelBytes(strings[0])) && index' == index + |LabelBytes(strings[0])|
    requires rest == Append(m', index', strings[1..])
    ensures Append(m, index, strings)
         == Written(rest.m, rest.index, |LabelBytes(strings[0])| + rest.written, rest.complete)
  {
  }

  lemma AcceptsByRun(m: seq<byte>, p: nat, strings: seq<Str>)
    requires strings != [] && p <= MAX_PACKET && MAX_PACKET + 256 <= |m|
    ensures var len, r := |strings[0]| % 256, Run(m, MAX_PACKET, p, p, EMPTY_NAME);
            Accepts(m, p, strings) <==>
            m[p] == len && m[p + 1..p + 1 + len] == strings[0][..len] && r.next.Some? && SameParts(r.name, strings)
  {
    RunCollects(m, MAX_PACKET, p, p, EMPTY_NAME);
  }

  class TxBuffer {
    const mem: array<byte>
    const buf: array<byte>
    var index: nat

    ghost predicate Valid()
      reads this
    {
      index <= MAX_PACKET && MAX_PACKET + 256 <= mem.Length && buf.Length == NAME_BUF_LEN && mem != buf
    }

    /** memchr over [from, index): the next place with the byte `b`. */
    method MemChr(from: nat, b: byte) returns (r: Option<nat>)
      requires Valid() && from <= index
      ensures r.Some? ==> from <= r.value < index && mem[r.value] == b
      ensures forall q | from <= q < (if r.Some? then r.value else index) :: mem[q] != b
    {
      var i := from;
      while i < index
        invariant from <= i <= index
        invariant forall q | from <= q < i :: mem[q] != b
      {
        if mem[i] == b {
          return Some(i);
        }
        i := i + 1;
      }
      return None;
    }

    /** The parts just read, one by one, against the strings to be written. */
    method Compare(name: NameBuf, strings: seq<Str>) returns (same: bool)
      requires name.Valid()
      ensures same <==> SameParts(name.Value(), strings)
    {
      if name.parts != |strings| {
        return false;
      }
      var i := 0;
      while i < |strings|
        invariant 0 <= i <= |strings|
        invariant forall k | 0 <= k < i :: EqNoCase(strings[k], name.text[k])
      {
        if !EqNoCase(strings[i], name.text[i]) {
          return false;
        }
        i := i + 1;
      }
      return true;
    }

    /** Whether the writer takes position `p`, which holds the right length byte. */
    method Check(p: nat, strings: seq<Str>) returns (ok: bool)
      requires Valid() && strings != [] && p < index && mem[p] == |strings[0]| % 256
      modifies buf
      ensures ok <==> Accepts(mem[..], p, strings)
    {
      ghost var m := mem[..];
      AcceptsByRun(m, p, strings);
      var len := |strings[0]| % 256;
      assert mem[p + 1..p + 1 + len] == m[p + 1..p + 1 + len];
      if mem[p + 1..p + 1 + len] != strings[0][..len] {
        return false;
      }
      var name := new NameBuf();
      var content := ReadFqdn(mem, MAX_PACKET, p, name, buf);
      assert mem[..] == m;
      if content == None {
        return false;
      }
      ok := Compare(name, strings);
    }

    /** The search for an earlier copy of the name. */
    method FindCopy(strings: seq<Str>) returns (r: Option<nat>)
      requires Valid() && strings != []
      modifies buf
      ensures r == Find(mem[..], 0, index, strings)
    {
      ghost var m := mem[..];
      var len := |strings[0]| % 256;
      r := MemChr(0, len);
      while r.Some?
        invariant mem[..] == m
        invariant r.Some? ==> r.value < index && mem[r.value] == len
        invariant forall q | 0 <= q < (if r.Some? then r.value else index) :: !Accepts(m, q, strings)
        decreases if r.Some? then index - r.value else -1
      {
        var ok := Check(r.value, strings);
        if ok {
          break;
        }
        r := MemChr(r.value + 1, len);
      }
      FindIsFirst(m, 0, index, strings, r);
    }

    constructor (mem: array<byte>, index: nat)
      requires index <= MAX_PACKET && MAX_PACKET + 256 <= mem.Length
      ensures Valid() && this.mem == mem && this.index == index && fresh(buf)
    {
      this.mem, this.index := mem, index;
      buf := new byte[NAME_BUF_LEN](_ => 0);
    }

    method AppendU8(value: byte) returns (n: nat)
      requires Valid()
      modifies this, mem
      ensures Valid()
      ensures if old(index) >= MAX_PACKET then n == 0 && index == old(index) && mem[..] == old(mem[..])
              else n == 1 && index == old(index) + 1 && mem[..] == old(mem[..])[old(index) := value]
    {
      if index >= MAX_PACKET {
        return 0;
      }
      mem[index] := value;
      index := index + 1;
      return 1;
    }

    method AppendU16(value: int) returns (n: nat)
      requires Valid() && 0 <= value < 0x10000
      modifies this, mem
      ensures Valid()
      ensures if old(index) + 1 >= MAX_PACKET then n == 0 && index == old(index) && mem[..] == old(mem[..])
              else n == 2 && index == old(index) + 2
                   && mem[..] == Put(old(mem[..]), old(index), [value / 256, value % 256])
    {
      if index + 1 >= MAX_PACKET {
        return 0;
      }
      var _ := AppendU8(value / 256);
      var _ := AppendU8(value % 256);
      return 2;
    }

    method AppendPointer(target: nat) returns (n: nat, ghost complete: bool)
      requires Valid() && target < MAX_PACKET
      modifies this, mem
      ensures Valid()
      ensures Written(mem[..], index, n, complete)
           == if old(index) + 1 >= MAX_PACKET then Written(old(mem[..]), old(index), 0, false)
              else Written(Put(old(mem[..]), old(index), PointerBytes(target)), old(index) + 2, 2, true)
    {
      assert (0xC000 + target) / 256 == 0xC0 + target / 256 && (0xC000 + target) % 256 == target % 256;
      n := AppendU16(0xC000 + target);
      complete := n == 2;
    }

    /** The length is truncated to 8 bits, and so is the returned count. */
    method AppendString(s: Str) returns (n: nat)
      requires Valid()
      modifies this, mem
      ensures Valid()
      ensures var bytes := LabelBytes(s);
              if old(index) + |bytes| >= MAX_PACKET then n == 0 && index == old(index) && mem[..] == old(mem[..])
              else n == |bytes| % 256 && index == old(index) + |bytes|
                   && mem[..] == Put(old(mem[..]), old(index), bytes)
    {
      var len := |s| % 256;
      if index + len + 1 >= MAX_PACKET {
        return 0;
      }
      ghost var m, at := mem[..], index;
      var _ := AppendU8(len);
      forall i | 0 <= i < len {
        mem[index + i] := s[i];
      }
      index := index + len;
      assert mem[..] == Put(m, at, LabelBytes(s));
      return (len + 1) % 256;
    }

    /** The name is not in the packet yet: its first label, then the rest. */
    method AppendFresh(strings: seq<Str>) returns (n: nat, ghost complete: bool)
      requires Valid() && strings != [] && Find(mem[..], 0, index, strings) == None
      modifies this, mem, buf
      ensures Valid()
      ensures Written(mem[..], index, n, complete) == Append(old(mem[..]), old(index), strings)
      decreases |strings|, 0
    {
      ghost var m, at, bytes := mem[..], index, LabelBytes(strings[0]);
      n := AppendString(strings[0]);
      if n == 0 {
        complete := false;
        assert Written(mem[..], index, n, complete) == Append(m, at, strings);
        return;
      }
      ghost var m1, at1 := mem[..], index;
      assert n == |bytes| && at1 == at + n;
      var rest;
      rest, complete := AppendFqdn(strings[1..]);
      assert Written(mem[..], index, rest, complete) == Append(m1, at1, strings[1..]);
      AppendLabel(m, at, strings, m1, at1, Written(mem[..], index, rest, complete));
      n := n + rest;
    }

    /** append_fqdn: `complete` tells what the returned count does not. */
    method AppendFqdn(strings: seq<Str>) returns (n: nat, ghost complete: bool)
      requires Valid()
      modifies this, mem, buf
      ensures Valid()
      ensures Written(mem[..], index, n, complete) == Append(old(mem[..]), old(index), strings)
      decreases |strings|, 1
    {
      if |strings| == 0 {
        n := AppendU8(0);
        complete := n == 1;
        return;
      }
      ghost var m := mem[..];
      var copy := FindCopy(strings);
      assert mem[..] == m;
      if copy == None {
        n, complete := AppendFresh(strings);
        return;
      }
      n, complete := AppendPointer(copy.value);
    }
  }
}
