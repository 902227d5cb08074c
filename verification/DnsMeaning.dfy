/**
 What a name that has been read means: its parts, its host of several labels,
 the mark of a subtype, and when it is invalid.
 */
module DnsMeaning {
  import opened Common
  import opened DnsName

  // ----- letters

  predicate Upper(b: byte) { 'A' as int <= b <= 'Z' as int }

  /** The same byte, or the same letter in another case. */
  predicate SameLetter(a: byte, b: byte) {
    a == b || (Upper(a) && b == a + 32) || (Upper(b) && a == b + 32)
  }

  lemma {:induction false} LowerAt(s: Str, i: nat)
    requires i < |s|
    ensures LowerAll(s)[i] == Lower(s[i])
    decreases |s|
  {
    if i > 0 { LowerAt(s[1..], i - 1); }
  }

  /** Strings are equal up to case exactly if they are letter by letter. */
  lemma EqNoCaseIff(a: Str, b: Str)
    ensures EqNoCase(a, b) <==> |a| == |b| && forall i :: 0 <= i < |a| ==> SameLetter(a[i], b[i])
  {
    if EqNoCase(a, b) {
      forall i | 0 <= i < |a| ensures SameLetter(a[i], b[i]) {
        LowerAt(a, i);
        LowerAt(b, i);
      }
    }
    if |a| == |b| && forall i :: 0 <= i < |a| ==> SameLetter(a[i], b[i]) {
      forall i | 0 <= i < |a| ensures LowerAll(a)[i] == LowerAll(b)[i] {
        LowerAt(a, i);
        LowerAt(b, i);
      }
    }
  }

  function Ascii(s: string): (r: Str)
    requires forall i :: 0 <= i < |s| ==> s[i] as int < 128
    ensures |r| == |s|
  {
    seq(|s|, i requires 0 <= i < |s| => s[i] as int)
  }

  lemma Spelling()
    ensures SUB == Ascii("_sub") && LOCAL == Ascii("local") && ARPA == Ascii("arpa")
    ensures IP6 == Ascii("ip6") && IN_ADDR == Ascii("in-addr")
    ensures DOT == Ascii(".") && [UNDERSCORE] == Ascii("_")
  {
  }

  /** Of the second labels these are parts of their own, and all others belong to the host. */
  lemma FoldsIff(s: Str)
    ensures Folds(s) <==>
      && !(s != [] && s[0] == '_' as int)
      && !EqNoCase(s, Ascii("local")) && !EqNoCase(s, Ascii("arpa"))
      && !EqNoCase(s, Ascii("ip6")) && !EqNoCase(s, Ascii("in-addr"))
  {
    Spelling();
  }

  // ----- the mark of a subtype

  predicate IsSub(item: Item) { item.Text? && EqNoCase(CStr(item.content), Ascii("_sub")) }

  lemma SubItem(name: Name, item: Item)
    ensures PutItem(name, item).sub <==> name.sub || IsSub(item)
    ensures IsSub(item) ==> PutItem(name, item).text == name.text && PutItem(name, item).parts == name.parts
  {
    Spelling();
    if IsSub(item) {
      var s := CStr(item.content);
      EqNoCaseIff(s, SUB);
      assert SameLetter(s[0], SUB[0]);
    }
  }

  /** The mark is there exactly if some label is `_sub`, in whatever case. */
  lemma {:induction false} SubSeenIff(name: Name, items: seq<Item>)
    ensures PutItems(name, items).sub <==> name.sub || exists i :: 0 <= i < |items| && IsSub(items[i])
    decreases |items|
  {
    if items != [] {
      var next := PutItem(name, items[0]);
      SubItem(name, items[0]);
      SubSeenIff(next, items[1..]);
      if exists i :: 0 <= i < |items[1..]| && IsSub(items[1..][i]) {
        var i :| 0 <= i < |items[1..]| && IsSub(items[1..][i]);
        assert IsSub(items[i + 1]);
      }
      if exists i :: 0 <= i < |items| && IsSub(items[i]) {
        var i :| 0 <= i < |items| && IsSub(items[i]);
        if i > 0 { assert IsSub(items[1..][i - 1]); }
      }
    }
  }

  function WithoutSubs(items: seq<Item>): seq<Item> {
    if items == [] then []
    else if IsSub(items[0]) then WithoutSubs(items[1..])
    else [items[0]] + WithoutSubs(items[1..])
  }

  /** Names with the same parts, of which only complete ones may be marked as invalid. */
  predicate Alike(a: Name, b: Name) {
    a.text == b.text && a.parts == b.parts && (a.invalid || b.invalid ==> a.parts == 4)
  }

  lemma AlikeStays(a: Name, b: Name, item: Item)
    requires Alike(a, b)
    ensures Alike(PutItem(a, item), PutItem(b, item))
  {
  }

  lemma AlikeSkipsSub(a: Name, b: Name, item: Item)
    requires Alike(a, b) && IsSub(item)
    ensures Alike(PutItem(a, item), b)
  {
    SubItem(a, item);
  }

  /** Otherwise such a label leaves no trace: the parts are those of the name without it. */
  lemma {:induction false} SubsLeaveNoPart(a: Name, b: Name, items: seq<Item>)
    requires Alike(a, b)
    ensures Alike(PutItems(a, items), PutItems(b, WithoutSubs(items)))
    decreases |items|
  {
    if items != [] {
      if IsSub(items[0]) {
        AlikeSkipsSub(a, b, items[0]);
        SubsLeaveNoPart(PutItem(a, items[0]), b, items[1..]);
      } else {
        AlikeStays(a, b, items[0]);
        SubsLeaveNoPart(PutItem(a, items[0]), PutItem(b, items[0]), items[1..]);
        PutFirst(b, items[0], WithoutSubs(items[1..]));
      }
    }
  }

  // ----- invalid names

  lemma PutLast(name: Name, items: seq<Item>, last: Item)
    ensures PutItems(name, items + [last]) == PutItem(PutItems(name, items), last)
  {
    PutItemsConcat(name, items, [last]);
    assert PutItems(PutItems(name, items), [last]) == PutItems(PutItem(PutItems(name, items), last), []);
  }

  /** The items behind which the name has four parts. */
  predicate FourParts(items: seq<Item>, i: nat) {
    i <= |items| && PutItems(EMPTY_NAME, items[..i]).parts == 4
  }

  /** A name is invalid exactly if anything follows its fourth part, be it only a back-pointer. */
  lemma {:induction false} InvalidIff(items: seq<Item>)
    ensures PutItems(EMPTY_NAME, items).invalid <==> exists i: nat :: i < |items| && FourParts(items, i)
    decreases |items|
  {
    if items != [] {
      var n := |items| - 1;
      var front := items[..n];
      assert items == front + [items[n]];
      InvalidIff(front);
      PutLast(EMPTY_NAME, front, items[n]);
      forall i: nat | i <= n ensures FourParts(items, i) <==> FourParts(front, i) {
        assert items[..i] == front[..i];
      }
      assert front[..n] == front;
      if PutItems(EMPTY_NAME, front).parts == 4 { assert FourParts(items, n); }
    }
  }

  // ----- a host of several labels

  function Texts(labels: seq<Label>): seq<Item> {
    if labels == [] then [] else Texts(labels[..|labels| - 1]) + [Text(labels[|labels| - 1])]
  }

  /** The labels with dots between them. */
  function Dotted(labels: seq<Label>): Str
    requires labels != []
  {
    var n := |labels| - 1;
    if n == 0 then CStr(labels[0]) else Dotted(labels[..n]) + Ascii(".") + CStr(labels[n])
  }

  function First(s: Str, n: nat): (r: Str)
    ensures |r| <= n
  {
    if |s| <= n then s else s[..n]
  }

  lemma CatIs(dst: Str, src: Str)
    requires |dst| <= 64
    ensures Cat(dst, src) == First(dst + src, 64)
  {
    if |dst| + |src| > 64 { assert (dst + src)[..64] == dst + src[..64 - |dst|]; }
  }

  lemma FirstTwice(a: Str, b: Str)
    ensures First(First(a, 64) + b, 64) == First(a + b, 64)
  {
  }

  /** A second label, and any number of others behind it, none of which is a part of its own. */
  predicate HostLabels(labels: seq<Label>) {
    labels != []
    && var n := |labels| - 1;
       if n == 0 then !EqNoCase(CStr(labels[0]), Ascii("_sub"))
       else HostLabels(labels[..n]) && Folds(CStr(labels[n]))
  }

  /** A name that consists of a host. */
  function WithHost(host: Str): Name
    requires |host| <= 64
  {
    EMPTY_NAME.(text := EMPTY_NAME.text[0 := host], parts := 1)
  }

  lemma FoldsNext(name: Name, labels: seq<Label>, last: Label)
    requires labels != [] && name.parts == 1 && name.text[0] == First(Dotted(labels), 64) && Folds(CStr(last))
    ensures var r := PutItem(name, Text(last));
      r == name.(text := name.text[0 := First(Dotted(labels + [last]), 64)])
  {
    var d, s := Dotted(labels), CStr(last);
    Spelling();
    CatIs(First(d, 64), DOT);
    FirstTwice(d, DOT);
    CatIs(First(d + DOT, 64), s);
    FirstTwice(d + DOT, s);
    assert (labels + [last])[..|labels|] == labels;
  }

  /** Such labels are one part, the host, of which 64 bytes are kept. */
  lemma {:induction false} HostOfLabels(labels: seq<Label>)
    requires HostLabels(labels)
    ensures PutItems(EMPTY_NAME, Texts(labels)) == WithHost(First(Dotted(labels), 64))
    decreases |labels|
  {
    var n := |labels| - 1;
    Unsnoc(labels);
    if n == 0 {
      FirstOfHost(labels);
    } else {
      HostOfLabels(labels[..n]);
      HostStep(labels, n);
    }
  }

  lemma HostStep(labels: seq<Label>, n: nat)
    requires |labels| == n + 1 && n > 0 && Folds(CStr(labels[n]))
    requires PutItems(EMPTY_NAME, Texts(labels[..n])) == WithHost(First(Dotted(labels[..n]), 64))
    ensures PutItems(EMPTY_NAME, Texts(labels)) == WithHost(First(Dotted(labels), 64))
  {
    var front, last := labels[..n], labels[n];
    Unsnoc(labels);
    PutLast(EMPTY_NAME, Texts(front), Text(last));
    FoldsNext(WithHost(First(Dotted(front), 64)), front, last);
  }

  lemma FirstOfHost(labels: seq<Label>)
    requires |labels| == 1 && !EqNoCase(CStr(labels[0]), Ascii("_sub"))
    ensures PutItems(EMPTY_NAME, Texts(labels)) == WithHost(First(Dotted(labels), 64))
  {
    OnlyLabel(labels);
    PutOnly(EMPTY_NAME, Texts(labels));
    FirstItem(Text(labels[0]));
  }

  lemma PutOnly(name: Name, items: seq<Item>)
    requires |items| == 1
    ensures PutItems(name, items) == PutItem(name, items[0])
  {
    assert items[1..] == [];
  }

  lemma OnlyLabel(labels: seq<Label>)
    requires |labels| == 1
    ensures Texts(labels) == [Text(labels[0])] && Dotted(labels) == CStr(labels[0])
    ensures First(Dotted(labels), 64) == CStr(labels[0])
  {
  }

  lemma FirstItem(item: Item)
    requires item.Text? && !EqNoCase(CStr(item.content), Ascii("_sub"))
    ensures PutItem(EMPTY_NAME, item) == WithHost(CStr(item.content))
  {
    Spelling();
  }

  // ----- what the reader leaves

  /** The flags of a name that has been read into an empty one. */
  lemma FlagsRead(m: seq<byte>, len: nat, start: nat)
    requires start <= len < |m| && Read(m, len, start, start).Items?
    ensures var items, r := Read(m, len, start, start).items, Run(m, len, start, start, EMPTY_NAME);
      && r.next == Some(Read(m, len, start, start).next)
      && (r.name.sub <==> exists i :: 0 <= i < |items| && IsSub(items[i]))
      && (r.name.invalid <==> exists i: nat :: i < |items| && FourParts(items, i))
      && r.name.text == PutItems(EMPTY_NAME, WithoutSubs(items)).text
      && r.name.parts == PutItems(EMPTY_NAME, WithoutSubs(items)).parts
  {
    var items := Read(m, len, start, start).items;
    RunCollects(m, len, start, start, EMPTY_NAME);
    SubSeenIff(EMPTY_NAME, items);
    InvalidIff(items);
    SubsLeaveNoPart(EMPTY_NAME, EMPTY_NAME, items);
  }

  /** A label that ends with the packet ends the name; the position behind it is past the end. */
  lemma EndsWithPacket(m: seq<byte>, len: nat, start: nat)
    requires start < len < |m| && 0 < m[start] <= 63 && start + 1 + m[start] == len
    ensures Read(m, len, start, start) == Items([Text(m[start + 1..len])], len + 1, len)
  {
    ReadText(m, len, start, start, len, m[start + 1..len]);
    assert [Text(m[start + 1..len])] + [] == [Text(m[start + 1..len])];
  }

  /** The bytes of a back-pointer, in binary 11 and fourteen bits of the position, the higher ones first. */
  lemma PointerIff(p: nat, b: seq<byte>)
    requires p < 0x4000
    ensures b == PointerBytes(p) <==> |b| == 2 && b[0] >= 0xC0 && (b[0] as int) * 0x100 + b[1] == p + 0xC000
  {
    if |b| == 2 { assert b == [b[0], b[1]]; }
  }

  /** A copy has the very bytes of the first label, case included; only the others are compared by letters. */
  lemma CopyHasTheBytes(m: seq<byte>, index: nat, strings: seq<Str>, p: nat)
    requires index <= MAX_PACKET && MAX_PACKET + 256 <= |m| && strings != [] && |strings[0]| < 0x100
    requires Find(m, 0, index, strings) == Some(p)
    ensures p < index && m[p] == |strings[0]| && m[p + 1..p + 1 + |strings[0]|] == strings[0]
    ensures var name := PutItems(EMPTY_NAME, Read(m, MAX_PACKET, p, p).items);
      name.parts == |strings| && forall k, i :: 0 <= k < |strings| && 0 <= i < |strings[k]| ==>
        |name.text[k]| == |strings[k]| && SameLetter(strings[k][i], name.text[k][i])
  {
    var name := PutItems(EMPTY_NAME, Read(m, MAX_PACKET, p, p).items);
    assert strings[0][..|strings[0]|] == strings[0];
    forall k | 0 <= k < |strings| ensures EqNoCase(strings[k], name.text[k]) {
      assert Accepts(m, p, strings);
    }
    forall k, i | 0 <= k < |strings| && 0 <= i < |strings[k]|
      ensures |name.text[k]| == |strings[k]| && SameLetter(strings[k][i], name.text[k][i])
    {
      EqNoCaseIff(strings[k], name.text[k]);
    }
  }
}
