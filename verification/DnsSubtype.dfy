/**
 The mark of a subtype on names that have been written: the writer takes the name of
 a subtype for a copy of the name without it, and the mark comes back with the copy.
 */
module DnsSubtype {
  import opened Common
  import opened DnsName
  import opened DnsRoundTrip
  import opened DnsMeaning

  ghost predicate HasSub(items: seq<Item>) { exists i :: 0 <= i < |items| && IsSub(items[i]) }

  lemma HasSubBehind(item: Item, rest: seq<Item>)
    ensures HasSub([item] + rest) <==> IsSub(item) || HasSub(rest)
  {
    var all := [item] + rest;
    if IsSub(item) { assert IsSub(all[0]); }
    if HasSub(rest) {
      var i :| 0 <= i < |rest| && IsSub(rest[i]);
      assert IsSub(all[i + 1]);
    }
    if HasSub(all) {
      var i :| 0 <= i < |all| && IsSub(all[i]);
      if i > 0 { assert rest[i - 1] == all[i]; }
    }
  }

  lemma PlainIsNoSub(s: Str)
    requires Plain(s)
    ensures !IsSub(Text(s))
  {
    CStrOfPlain(s);
    Spelling();
  }

  /** The items of a position from which something can be read. */
  ghost predicate ReadsSub(m: seq<byte>, seg: nat, pos: nat)
    requires seg <= pos <= MAX_PACKET && MAX_PACKET + 256 <= |m|
  {
    Read(m, MAX_PACKET, seg, pos).Items? && HasSub(Read(m, MAX_PACKET, seg, pos).items)
  }

  /** The name from `index` on can be read, and has the mark exactly if the copy has it. */
  ghost predicate MarkedByCopy(m: seq<byte>, start: nat, index: nat, aim: Aim)
    requires start <= index <= MAX_PACKET && MAX_PACKET + 256 <= |m|
    requires PointsBelow(aim, start)
  {
    && Read(m, MAX_PACKET, start, index).Items?
    && (ReadsSub(m, start, index) <==> aim.Pointer? && ReadsSub(m, aim.target, aim.target))
  }

  lemma MarkedBehindLabel(m: seq<byte>, start: nat, index: nat, s: Str, aim: Aim)
    requires Plain(s) && start <= index && index + |s| + 1 < MAX_PACKET && MAX_PACKET + 256 <= |m|
    requires forall i | 0 <= i <= |s| :: m[index + i] == LabelBytes(s)[i]
    requires PointsBelow(aim, start) && MarkedByCopy(m, start, index + |s| + 1, aim)
    ensures MarkedByCopy(m, start, index, aim)
  {
    ReadsLabel(m, start, index, s);
    PlainIsNoSub(s);
    HasSubBehind(Text(s), Read(m, MAX_PACKET, start, index + |s| + 1).items);
  }

  lemma MarkedByPointer(m: seq<byte>, start: nat, index: nat, p: nat, aim: Aim)
    requires p < start <= index && index + 1 < MAX_PACKET && MAX_PACKET + 256 <= |m|
    requires m[index] == PointerBytes(p)[0] && m[index + 1] == PointerBytes(p)[1]
    requires aim.Pointer? && aim.target == p && Read(m, MAX_PACKET, p, p).Items?
    ensures MarkedByCopy(m, start, index, aim)
  {
    ReadsPointer(m, start, index, p);
    HasSubBehind(Jump, Read(m, MAX_PACKET, p, p).items);
  }

  lemma MarkedAtPointer(m: seq<byte>, start: nat, index: nat, strings: seq<Str>, p: nat)
    requires start <= index <= MAX_PACKET && MAX_PACKET + 256 <= |m| && strings != []
    requires Find(m, 0, index, strings) == Some(p) && Append(m, index, strings).complete
    requires FromWritten(AimOf(m, index, strings)) && PointsBelow(AimOf(m, index, strings), start)
    ensures MarkedByCopy(Append(m, index, strings).m, start, index, AimOf(m, index, strings))
  {
    CopyStays(m, index, strings, p);
    MarkedByPointer(Append(m, index, strings).m, start, index, p, AimOf(m, index, strings));
  }

  lemma {:induction false} MarkedTail(m: seq<byte>, start: nat, index: nat, strings: seq<Str>)
    requires start <= index <= MAX_PACKET && MAX_PACKET + 256 <= |m|
    requires forall i | 0 <= i < |strings| :: Plain(strings[i])
    requires Append(m, index, strings).complete
    requires FromWritten(AimOf(m, index, strings)) && PointsBelow(AimOf(m, index, strings), start)
    ensures MarkedByCopy(Append(m, index, strings).m, start, index, AimOf(m, index, strings))
    decreases |strings|
  {
    if strings == [] {
      assert Append(m, index, strings).m[index] == 0;
    } else if Find(m, 0, index, strings) == None {
      var s := strings[0];
      LabelFits(m, index, strings);
      var m', index' := Put(m, index, LabelBytes(s)), index + |s| + 1;
      LabelStays(m, index, strings, m', index');
      AimSteps(m, index, strings, m', index');
      MarkedTail(m', start, index', strings[1..]);
      MarkedBehindLabel(Append(m, index, strings).m, start, index, s, AimOf(m, index, strings));
    } else {
      MarkedAtPointer(m, start, index, strings, Find(m, 0, index, strings).value);
    }
  }

  /** A name that reads back as it was written, without a subtype, is marked as one exactly if
      its back-pointer leads to the name of a subtype. */
  lemma MarkedIff(m: seq<byte>, index: nat, strings: seq<Str>)
    requires index <= MAX_PACKET && MAX_PACKET + 256 <= |m| && CallerShape(strings)
    requires Append(m, index, strings).complete
    requires FromWritten(AimOf(m, index, strings)) && PointsBelow(AimOf(m, index, strings), index)
    ensures var r, aim := Append(m, index, strings), AimOf(m, index, strings);
      && ReadsBack(r, index, strings)
      && (PutItems(EMPTY_NAME, Read(r.m, MAX_PACKET, index, index).items).sub
          <==> aim.Pointer? && ReadsSub(r.m, aim.target, aim.target))
  {
    PlainCaller(strings);
    NameReadsBack(m, index, strings);
    MarkedTail(m, index, index, strings);
    SubSeenIff(EMPTY_NAME, Read(Append(m, index, strings).m, MAX_PACKET, index, index).items);
  }

  predicate Is(item: Item, s: Str) { item.Text? && item.content == s }

  /** The labels of a subtype's name, in front of and behind `_sub`. */
  predicate SubtypeLabels(items: seq<Item>, strings: seq<Str>) {
    && |strings| == 4 && |items| == 5 && items[1].Text? && EqNoCase(CStr(items[1].content), Ascii("_sub"))
    && Is(items[0], strings[0]) && Is(items[2], strings[1]) && Is(items[3], strings[2]) && Is(items[4], strings[3])
  }

  /** The first `k` parts are those of the strings. */
  predicate HasParts(name: Name, strings: seq<Str>, k: nat) {
    && name.parts == k <= |strings| && !name.invalid && k <= 4
    && forall i :: 0 <= i < k ==> name.text[i] == strings[i]
  }

  lemma NextPart(name: Name, strings: seq<Str>, k: nat, item: Item)
    requires HasParts(name, strings, k) && k < |strings| && k < 4 && Is(item, strings[k])
    requires Plain(strings[k]) && (k == 1 ==> Later(strings[k]))
    ensures HasParts(PutItem(name, item), strings, k + 1)
  {
    Stores(name, strings[k]);
  }

  lemma PutFour(strings: seq<Str>, items: seq<Item>)
    requires CallerShape(strings) && |strings| == 4 && |items| == 4
    requires Is(items[0], strings[0]) && Is(items[1], strings[1])
    requires Is(items[2], strings[2]) && Is(items[3], strings[3])
    ensures HasParts(PutItems(EMPTY_NAME, items), strings, 4)
  {
    PlainCaller(strings);
    assert strings[1] == strings[1..][0];
    var a := PutItem(EMPTY_NAME, items[0]);
    NextPart(EMPTY_NAME, strings, 0, items[0]);
    NextPart(a, strings, 1, items[1]);
    var b := PutItem(a, items[1]);
    NextPart(b, strings, 2, items[2]);
    NextPart(PutItem(b, items[2]), strings, 3, items[3]);
    FourPuts(EMPTY_NAME, items);
  }

  lemma FourPuts(name: Name, items: seq<Item>)
    requires |items| == 4
    ensures PutItems(name, items) == PutItem(PutItem(PutItem(PutItem(name, items[0]), items[1]), items[2]), items[3])
  {
    assert items[1..][1..] == items[2..] && items[2..][1..] == items[3..] && items[3..][1..] == [];
    assert items[1..][0] == items[1] && items[2..][0] == items[2] && items[3..][0] == items[3];
    var a := PutItem(name, items[0]);
    var b := PutItem(a, items[1]);
    var c := PutItem(b, items[2]);
    assert PutItems(c, items[3..]) == PutItem(c, items[3]);
    assert PutItems(b, items[2..]) == PutItems(c, items[3..]);
    assert PutItems(a, items[1..]) == PutItems(b, items[2..]);
  }

  lemma LeftWithoutSub(items: seq<Item>, strings: seq<Str>)
    requires CallerShape(strings) && SubtypeLabels(items, strings)
    ensures WithoutSubs(items) == [items[0], items[2], items[3], items[4]]
  {
    PlainCaller(strings);
    PlainIsNoSub(strings[0]);
    PlainIsNoSub(strings[1]);
    PlainIsNoSub(strings[2]);
    PlainIsNoSub(strings[3]);
    var a, b, c, d := items[1..], items[2..], items[3..], items[4..];
    assert items[1..][1..] == b && b[1..] == c && c[1..] == d && d[1..] == [];
    assert WithoutSubs(d) == [items[4]];
    assert WithoutSubs(c) == [items[3]] + WithoutSubs(d);
    assert WithoutSubs(b) == [items[2]] + WithoutSubs(c);
    assert WithoutSubs(a) == WithoutSubs(b);
  }

  lemma SubtypeParts(items: seq<Item>, strings: seq<Str>)
    requires CallerShape(strings) && SubtypeLabels(items, strings)
    ensures SameParts(PutItems(EMPTY_NAME, items), strings) && PutItems(EMPTY_NAME, items).sub
  {
    LeftWithoutSub(items, strings);
    PutFour(strings, WithoutSubs(items));
    SubsLeaveNoPart(EMPTY_NAME, EMPTY_NAME, items);
    SubSeenIff(EMPTY_NAME, items);
    assert IsSub(items[1]);
    forall i | 0 <= i < 4 ensures EqNoCase(strings[i], strings[i]) {}
  }

  /**
   The name of a subtype is taken for a copy of the name without `_sub`: written behind it,
   an instance that is called like the subtype becomes a pointer to the subtype, and the
   reader gets the right strings back, but marked as a subtype.
   */
  lemma SubtypeIsTaken(m: seq<byte>, p: nat, index: nat, strings: seq<Str>)
    requires p < index && index + 2 < MAX_PACKET && MAX_PACKET + 256 <= |m| && CallerShape(strings) && |strings| == 4
    requires var q := Read(m, MAX_PACKET, p, p); q.Items? && q.reach <= index && SubtypeLabels(q.items, strings)
    requires m[p] == |strings[0]| && m[p + 1..p + 1 + |strings[0]|] == strings[0]
    requires forall k :: 0 <= k < p ==> !Accepts(m, k, strings)
    ensures var r := Append(m, index, strings);
      && Find(m, 0, index, strings) == Some(p) && r.complete && r.written == 2 && ReadsBack(r, index, strings)
      && PutItems(EMPTY_NAME, Read(r.m, MAX_PACKET, index, index).items).sub
  {
    SubtypeParts(Read(m, MAX_PACKET, p, p).items, strings);
    AcceptsWhatIsThere(m, p, strings);
    FindIsFirst(m, 0, index, strings, Some(p));
    CopyStays(m, index, strings, p);
    MarkedIff(m, index, strings);
    assert IsSub(Read(m, MAX_PACKET, p, p).items[1]);
  }
}
