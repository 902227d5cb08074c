/**
 What mdns_utils_read_fqdn makes of the names append_fqdn has written
 (RFC 1035 section 4.1.4), and what writing a name does to the names that are
 in the packet already.
 */
module DnsRoundTrip {
  import opened Common
  import opened DnsName

  /** A label the callers pass: not empty, short enough, no NUL, not "_sub". */
  predicate Plain(s: Str) {
    1 <= |s| <= 63 && 0 !in s && !EqNoCase(s, SUB)
  }

  /** Labels after the first: "_service", "_proto", "local". */
  predicate Later(s: Str) {
    Plain(s) && (s[0] == UNDERSCORE || EqNoCase(s, LOCAL))
  }

  predicate AllLater(strings: seq<Str>) {
    forall i | 0 <= i < |strings| :: Later(strings[i])
  }

  predicate CallerShape(strings: seq<Str>) {
    |strings| <= 4 && (strings != [] ==> Plain(strings[0]) && AllLater(strings[1..]))
  }

  /** How the reading of a copy meets the place the back-pointer is written to: it
      stays below, it comes to the place for its next label, or one of its labels
      or pointers lies across the place. */
  datatype Meeting = Below | Comes | LabelAcross(end: nat) | PointerAcross

  function Meet(m: seq<byte>, seg: nat, pos: nat, at: nat): Meeting
    requires seg <= pos <= at <= MAX_PACKET && MAX_PACKET + 256 <= |m|
    decreases seg, at - pos
  {
    if pos == at then Comes
    else if m[pos] == 0 then Below
    else if m[pos] < 0xC0 then
      if pos + 1 + m[pos] > at then LabelAcross(pos + 1 + m[pos]) else Meet(m, seg, pos + 1 + m[pos], at)
    else if pos + 2 > at then PointerAcross
    else if Target(m, pos) >= seg then Below
    else Meet(m, Target(m, pos), Target(m, pos), at)
  }

  /** Where the back-pointer ends up pointing, if the writer emits one, how far up
      the copy it points to was read, and how that reading meets the pointer's place. */
  datatype Aim = NoPointer | Pointer(target: nat, reach: nat, index: nat, meeting: Meeting)

  function AimOf(m: seq<byte>, index: nat, strings: seq<Str>): Aim
    requires index <= MAX_PACKET && MAX_PACKET + 256 <= |m|
    decreases |strings|
  {
    if strings == [] then NoPointer
    else match Find(m, 0, index, strings)
      case Some(p) => Pointer(p, Read(m, MAX_PACKET, p, p).reach, index, Meet(m, p, p, index))
      case None =>
        var bytes := LabelBytes(strings[0]);
        if index + |bytes| >= MAX_PACKET then NoPointer
        else AimOf(Put(m, index, bytes), index + |bytes|, strings[1..])
  }

  /** The accepted copy, if any, was read from bytes that were already written. */
  predicate FromWritten(aim: Aim) {
    aim.Pointer? ==> aim.reach <= aim.index
  }

  predicate PointsBelow(aim: Aim, start: nat) {
    aim.Pointer? ==> aim.target < start
  }

  /** The copy was read up to the place of the pointer, and went on from there. */
  predicate RunsOn(aim: Aim) {
    aim.Pointer? && aim.meeting.Comes?
  }

  /** A pointer of the copy lies across the place, or a label that ends right
      where the second byte of the new pointer happens to end the name, or where
      the packet ends. */
  predicate Doubtful(aim: Aim) {
    aim.Pointer? && match aim.meeting
    case PointerAcross => true
    case LabelAcross(end) =>
      (end == aim.index + 1 && aim.target % 256 == 0) || end == aim.index + 2 == MAX_PACKET
    case _ => false
  }

  // ----- one label

  lemma LabelBytesOfPlain(s: Str)
    requires Plain(s)
    ensures |LabelBytes(s)| == |s| + 1 && LabelBytes(s)[0] == |s|
    ensures forall i | 0 <= i < |s| :: LabelBytes(s)[i + 1] == s[i]
  {
  }

  /** A plain label that is neither folded nor beyond the fourth becomes the next part. */
  lemma Stores(name: Name, s: Str)
    requires Plain(s) && name.parts < 4 && !name.invalid && (name.parts == 1 ==> Later(s))
    ensures PutItem(name, Text(s)) == WithPart(name, s)
  {
    CStrOfPlain(s);
    if name.parts == 1 && s[0] == UNDERSCORE {
      assert !Folds(s);
    }
  }

  // ----- frames

  lemma StillBelow(m: seq<byte>, index: nat, bytes: seq<byte>, r: seq<byte>)
    requires index + |bytes| <= |m| == |r|
    requires r[..index + |bytes|] == Put(m, index, bytes)[..index + |bytes|]
    ensures r[..index] == m[..index]
  {
    var n := index + |bytes|;
    forall i | 0 <= i < index
      ensures r[i] == m[i]
    {
      assert r[..n][i] == Put(m, index, bytes)[..n][i];
    }
  }

  lemma {:induction false} AppendFrame(m: seq<byte>, index: nat, strings: seq<Str>)
    requires index <= MAX_PACKET && MAX_PACKET + 256 <= |m|
    ensures var r := Append(m, index, strings); r.m[..index] == m[..index]
    decreases |strings|
  {
    if strings != [] && Find(m, 0, index, strings) == None {
      var bytes := LabelBytes(strings[0]);
      if index + |bytes| < MAX_PACKET && |bytes| < 256 {
        var m' := Put(m, index, bytes);
        AppendFrame(m', index + |bytes|, strings[1..]);
        StillBelow(m, index, bytes, Append(m', index + |bytes|, strings[1..]).m);
      }
    }
  }

  /** Every name in the packet still reads as before. */
  lemma OldNamesSurvive(m: seq<byte>, index: nat, strings: seq<Str>, at: nat)
    requires at <= index <= MAX_PACKET && MAX_PACKET + 256 <= |m|
    requires Read(m, MAX_PACKET, at, at).Items? && Read(m, MAX_PACKET, at, at).reach <= index
    ensures Read(Append(m, index, strings).m, MAX_PACKET, at, at) == Read(m, MAX_PACKET, at, at)
  {
    AppendFrame(m, index, strings);
    var reach := Read(m, MAX_PACKET, at, at).reach;
    var m' := Append(m, index, strings).m;
    assert m[..reach] == m[..index][..reach] && m'[..reach] == m'[..index][..reach];
    ReadFrame(m, m', MAX_PACKET, at, at);
  }

  // ----- a copy read into a name that has parts already

  /** A name never loses parts, its host never gets shorter, its other parts stay. */
  lemma {:induction false} PartsGrow(name: Name, items: seq<Item>)
    requires name.parts >= 1
    ensures var r := PutItems(name, items);
            && name.parts <= r.parts && |name.text[0]| <= |r.text[0]|
            && forall i | 1 <= i < name.parts :: r.text[i] == name.text[i]
    decreases |items|
  {
    if items != [] {
      PartsGrow(PutItem(name, items[0]), items[1..]);
    }
  }

  /** Folding a label into the host makes the host longer for good. */
  lemma FoldShows(name: Name, items: seq<Item>)
    requires items != [] && items[0].Text? && name.parts == 1 && |name.text[0]| <= 63
    requires Folds(CStr(items[0].content))
    ensures |PutItems(name, items).text[0]| > |name.text[0]|
  {
    PartsGrow(PutItem(name, items[0]), items[1..]);
  }

  /** `f` collects a name from scratch, `g` collects the same items behind `k`
      parts it has already.  Unless `f` folds a label, the two stay in step. */
  lemma {:induction false} InStep(f: Name, g: Name, items: seq<Item>, k: nat)
    requires 1 <= f.parts && 1 <= k && g.parts == f.parts + k && |f.text[0]| <= 63
    requires !f.invalid && (g.invalid ==> g.parts == 4)
    requires PutItems(f, items).parts + k <= 4 && |PutItems(f, items).text[0]| == |f.text[0]|
    ensures var r, q := PutItems(f, items), PutItems(g, items);
            && q.parts == r.parts + k && r.text[0] == f.text[0]
            && (forall i | 0 <= i < g.parts :: q.text[i] == g.text[i])
            && (forall i | f.parts <= i < r.parts :: q.text[i + k] == r.text[i])
    decreases |items|
  {
    if items != [] {
      var f', g' := PutItem(f, items[0]), PutItem(g, items[0]);
      PartsGrow(f, items);
      PartsGrow(f', items[1..]);
      if items[0].Text? && f.parts == 1 && Folds(CStr(items[0].content)) {
        FoldShows(f, items);
        assert false;
      }
      InStep(f', g', items[1..], k);
    }
  }

  /** `after` is `before` with the strings, up to case, behind its parts. */
  predicate Extends(before: Name, after: Name, strings: seq<Str>) {
    && after.parts == before.parts + |strings|
    && (forall i | 0 <= i < before.parts :: after.text[i] == before.text[i])
    && forall i | 0 <= i < |strings| :: EqNoCase(strings[i], after.text[before.parts + i])
  }

  /** Names in step with a scratch name that reads as `strings`. */
  lemma StepExtends(name: Name, g: Name, r: Name, q: Name, strings: seq<Str>)
    requires strings != [] && name.parts + |strings| <= 4 && SameParts(r, strings)
    requires g == name.(text := name.text[name.parts := r.text[0]], parts := name.parts + 1)
    requires q.parts == r.parts + name.parts
    requires forall i | 0 <= i < g.parts :: q.text[i] == g.text[i]
    requires forall i | 1 <= i < r.parts :: q.text[i + name.parts] == r.text[i]
    ensures Extends(name, q, strings)
  {
    forall i | 0 <= i < |strings|
      ensures EqNoCase(strings[i], q.text[name.parts + i])
    {
      assert EqNoCase(strings[i], r.text[i]);
      if i == 0 {
        assert q.text[name.parts] == g.text[name.parts];
      } else {
        assert q.text[i + name.parts] == r.text[i];
      }
    }
    forall i | 0 <= i < name.parts
      ensures q.text[i] == name.text[i]
    {
      assert q.text[i] == g.text[i];
    }
  }

  /** The first label of a copy that reads as `strings` is not made longer by those behind it. */
  lemma CopyFromScratch(items: seq<Item>, strings: seq<Str>)
    requires strings != [] && Later(strings[0]) && items != [] && items[0] == Text(strings[0])
    requires SameParts(PutItems(EMPTY_NAME, items), strings)
    ensures var f := PutItem(EMPTY_NAME, items[0]); var r := PutItems(f, items[1..]);
      && r == PutItems(EMPTY_NAME, items) && f == WithPart(EMPTY_NAME, strings[0])
      && |r.text[0]| == |f.text[0]| <= 63
  {
    Stores(EMPTY_NAME, strings[0]);
    assert EqNoCase(strings[0], PutItems(EMPTY_NAME, items).text[0]);
  }

  /** A copy that reads as `strings` from scratch extends any name by them. */
  lemma CopyExtends(name: Name, items: seq<Item>, strings: seq<Str>)
    requires strings != [] && AllLater(strings)
    requires 1 <= name.parts && name.parts + |strings| <= 4 && !name.invalid
    requires items != [] && items[0] == Text(strings[0])
    requires SameParts(PutItems(EMPTY_NAME, items), strings)
    ensures Extends(name, PutItems(name, items), strings)
  {
    assert Later(strings[0]);
    CopyFromScratch(items, strings);
    Stores(name, strings[0]);
    var f, g := PutItem(EMPTY_NAME, items[0]), PutItem(name, items[0]);
    InStep(f, g, items[1..], name.parts);
    StepExtends(name, g, PutItems(f, items[1..]), PutItems(g, items[1..]), strings);
  }

  /** An accepted copy starts with the very label it was found by. */
  lemma AcceptedStart(m: seq<byte>, p: nat, strings: seq<Str>)
    requires strings != [] && Plain(strings[0]) && p <= MAX_PACKET && MAX_PACKET + 256 <= |m|
    requires Accepts(m, p, strings) && p < MAX_PACKET
    ensures var items := Read(m, MAX_PACKET, p, p).items; items != [] && items[0] == Text(strings[0])
  {
    assert m[p + 1..p + 1 + m[p]] == strings[0];
  }

  // ----- what the written bytes read as

  /** A label just written, in front of whatever comes after it. */
  lemma ReadsLabel(m: seq<byte>, start: nat, index: nat, s: Str)
    requires Plain(s) && start <= index && index + |s| + 1 < MAX_PACKET && MAX_PACKET + 256 <= |m|
    requires forall i | 0 <= i <= |s| :: m[index + i] == LabelBytes(s)[i]
    ensures Read(m, MAX_PACKET, start, index)
         == Prepend([Text(s)], Read(m, MAX_PACKET, start, index + |s| + 1))
  {
    LabelBytesOfPlain(s);
    assert m[index] == LabelBytes(s)[0];
    forall i | 0 <= i < |s|
      ensures m[index + 1 + i] == s[i]
    {
      assert m[index + (i + 1)] == LabelBytes(s)[i + 1];
    }
    assert m[index + 1..index + 1 + |s|] == s;
  }

  /** A back-pointer just written. */
  lemma ReadsPointer(m: seq<byte>, start: nat, index: nat, p: nat)
    requires start <= index && index + 1 < MAX_PACKET && MAX_PACKET + 256 <= |m| && p < 0x4000
    requires m[index] == PointerBytes(p)[0] && m[index + 1] == PointerBytes(p)[1]
    ensures p >= start ==> Read(m, MAX_PACKET, start, index) == Unreadable
    ensures p < start ==>
              Read(m, MAX_PACKET, start, index) ==
              match Read(m, MAX_PACKET, p, p)
              case Unreadable => Unreadable
              case Items(rest, _, reach) => Items([Jump] + rest, index + 2, Max(reach, index + 2))
  {
    assert Target(m, index) == p;
  }

  lemma LabelFits(m: seq<byte>, index: nat, strings: seq<Str>)
    requires index <= MAX_PACKET && MAX_PACKET + 256 <= |m| && strings != [] && Plain(strings[0])
    requires Find(m, 0, index, strings) == None && Append(m, index, strings).complete
    ensures index + |strings[0]| + 1 < MAX_PACKET
  {
    LabelBytesOfPlain(strings[0]);
  }

  /** The writer's first step, when there is no copy: the bytes of the label stay put. */
  lemma LabelStays(m: seq<byte>, index: nat, strings: seq<Str>, m': seq<byte>, index': nat)
    requires strings != [] && Plain(strings[0]) && index <= MAX_PACKET && MAX_PACKET + 256 <= |m|
    requires Find(m, 0, index, strings) == None
    requires index' == index + |strings[0]| + 1 < MAX_PACKET && m' == Put(m, index, LabelBytes(strings[0]))
    ensures var r, r' := Append(m, index, strings), Append(m', index', strings[1..]);
            && r.m == r'.m && r.index == r'.index && r.complete == r'.complete
            && forall i | 0 <= i <= |strings[0]| :: r.m[index + i] == LabelBytes(strings[0])[i]
  {
    var s := strings[0];
    LabelBytesOfPlain(s);
    var rest := Append(m', index', strings[1..]);
    AppendLabel(m, index, strings, m', index', rest);
    AppendFrame(m', index', strings[1..]);
    forall i | 0 <= i <= |s|
      ensures rest.m[index + i] == LabelBytes(s)[i]
    {
      assert rest.m[..index'][index + i] == m'[..index'][index + i];
    }
  }

  /** The back-pointer's copy is still there after the pointer is written. */
  lemma CopyStays(m: seq<byte>, index: nat, strings: seq<Str>, p: nat)
    requires index <= MAX_PACKET && MAX_PACKET + 256 <= |m| && strings != []
    requires Find(m, 0, index, strings) == Some(p) && Append(m, index, strings).complete
    requires Read(m, MAX_PACKET, p, p).reach <= index
    ensures var r := Append(m, index, strings);
            && index + 1 < MAX_PACKET && r.index == index + 2
            && r.m[index] == PointerBytes(p)[0] && r.m[index + 1] == PointerBytes(p)[1]
            && Read(r.m, MAX_PACKET, p, p) == Read(m, MAX_PACKET, p, p)
  {
    OldNamesSurvive(m, index, strings, p);
  }

  lemma ExtendsByOne(name: Name, s: Str, after: Name, strings: seq<Str>)
    requires strings != [] && s == strings[0] && |s| <= 63 && name.parts < 4
    requires Extends(WithPart(name, s), after, strings[1..])
    ensures Extends(name, after, strings)
  {
    var mid: Name := WithPart(name, s);
    forall i | 0 <= i < |strings|
      ensures EqNoCase(strings[i], after.text[name.parts + i])
    {
      if i == 0 {
        assert after.text[name.parts] == mid.text[name.parts];
      } else {
        assert EqNoCase(strings[1..][i - 1], after.text[mid.parts + (i - 1)]);
      }
    }
    forall i | 0 <= i < name.parts
      ensures after.text[i] == name.text[i]
    {
      assert after.text[i] == mid.text[i];
    }
  }

  /** A reading that extends the name by the strings and ends at `end`. */
  predicate ReadsAs(q: Reading, end: nat, name: Name, strings: seq<Str>) {
    q.Items? && q.next == end && q.reach <= end && Extends(name, PutItems(name, q.items), strings)
  }

  lemma TailPointer(m: seq<byte>, start: nat, index: nat, strings: seq<Str>, name: Name, p: nat)
    requires start <= index <= MAX_PACKET && MAX_PACKET + 256 <= |m| && strings != []
    requires AllLater(strings) && 1 <= name.parts && name.parts + |strings| <= 4 && !name.invalid
    requires Find(m, 0, index, strings) == Some(p) && Append(m, index, strings).complete
    requires p < start && Read(m, MAX_PACKET, p, p).reach <= index
    ensures var r := Append(m, index, strings); ReadsAs(Read(r.m, MAX_PACKET, start, index), r.index, name, strings)
  {
    CopyStays(m, index, strings, p);
    ReadsPointer(Append(m, index, strings).m, start, index, p);
    assert Later(strings[0]);
    AcceptedStart(m, p, strings);
    var items := Read(m, MAX_PACKET, p, p).items;
    CopyExtends(name, items, strings);
    assert ([Jump] + items)[1..] == items;
  }

  lemma TailLabel(m: seq<byte>, end: nat, start: nat, index: nat, strings: seq<Str>, name: Name)
    requires strings != [] && Plain(strings[0]) && (name.parts == 1 ==> Later(strings[0]))
    requires start <= index && MAX_PACKET + 256 <= |m| && index + |strings[0]| + 1 < MAX_PACKET
    requires name.parts + |strings| <= 4 && !name.invalid
    requires forall i | 0 <= i <= |strings[0]| :: m[index + i] == LabelBytes(strings[0])[i]
    requires ReadsAs(Read(m, MAX_PACKET, start, index + |strings[0]| + 1), end,
                     PutItem(name, Text(strings[0])), strings[1..])
    ensures ReadsAs(Read(m, MAX_PACKET, start, index), end, name, strings)
  {
    var s := strings[0];
    Stores(name, s);
    ReadsLabel(m, start, index, s);
    var rest := Read(m, MAX_PACKET, start, index + |s| + 1).items;
    ExtendsByOne(name, s, PutItems(PutItem(name, Text(s)), rest), strings);
    assert ([Text(s)] + rest)[1..] == rest;
  }

  /** From the rest of the name, read where the rest was written, to the whole. */
  lemma TailStep(m: seq<byte>, start: nat, index: nat, strings: seq<Str>, name: Name, m': seq<byte>, index': nat)
    requires start <= index <= MAX_PACKET && MAX_PACKET + 256 <= |m| && strings != []
    requires Plain(strings[0]) && (name.parts == 1 ==> Later(strings[0]))
    requires name.parts + |strings| <= 4 && !name.invalid
    requires Find(m, 0, index, strings) == None
    requires index' == index + |strings[0]| + 1 < MAX_PACKET && m' == Put(m, index, LabelBytes(strings[0]))
    requires var r' := Append(m', index', strings[1..]);
             ReadsAs(Read(r'.m, MAX_PACKET, start, index'), r'.index, PutItem(name, Text(strings[0])), strings[1..])
    ensures var r := Append(m, index, strings); ReadsAs(Read(r.m, MAX_PACKET, start, index), r.index, name, strings)
  {
    LabelStays(m, index, strings, m', index');
    var r := Append(m, index, strings);
    TailLabel(r.m, r.index, start, index, strings, name);
  }

  lemma LabelLength(s: Str)
    requires Plain(s)
    ensures |LabelBytes(s)| == |s| + 1
  {
  }

  lemma AimBehindLabel(m: seq<byte>, index: nat, strings: seq<Str>, bytes: seq<byte>, m': seq<byte>, index': nat)
    requires strings != [] && index <= MAX_PACKET && MAX_PACKET + 256 <= |m| && bytes == LabelBytes(strings[0])
    requires Find(m, 0, index, strings) == None && index' == index + |bytes| < MAX_PACKET && m' == Put(m, index, bytes)
    ensures AimOf(m, index, strings) == AimOf(m', index', strings[1..])
  {
  }

  lemma AimSteps(m: seq<byte>, index: nat, strings: seq<Str>, m': seq<byte>, index': nat)
    requires strings != [] && Plain(strings[0]) && index <= MAX_PACKET && MAX_PACKET + 256 <= |m|
    requires Find(m, 0, index, strings) == None
    requires index' == index + |strings[0]| + 1 < MAX_PACKET && m' == Put(m, index, LabelBytes(strings[0]))
    ensures AimOf(m, index, strings) == AimOf(m', index', strings[1..])
  {
    LabelLength(strings[0]);
    AimBehindLabel(m, index, strings, LabelBytes(strings[0]), m', index');
  }

  /** The part of a name after its first label: it extends what was read so far. */
  lemma {:induction false} TailReads(m: seq<byte>, start: nat, index: nat, strings: seq<Str>, name: Name)
    requires start <= index <= MAX_PACKET && MAX_PACKET + 256 <= |m|
    requires AllLater(strings) && 1 <= name.parts && name.parts + |strings| <= 4 && !name.invalid
    requires Append(m, index, strings).complete
    requires FromWritten(AimOf(m, index, strings)) && PointsBelow(AimOf(m, index, strings), start)
    ensures var r := Append(m, index, strings); ReadsAs(Read(r.m, MAX_PACKET, start, index), r.index, name, strings)
    decreases |strings|
  {
    if strings == [] {
      assert Append(m, index, strings).m[index] == 0;
    } else if Find(m, 0, index, strings) == None {
      var s := strings[0];
      assert Later(s);
      LabelFits(m, index, strings);
      var m', index' := Put(m, index, LabelBytes(s)), index + |s| + 1;
      LabelStays(m, index, strings, m', index');
      Stores(name, s);
      AimSteps(m, index, strings, m', index');
      TailReads(m', start, index', strings[1..], PutItem(name, Text(s)));
      TailStep(m, start, index, strings, name, m', index');
    } else {
      TailPointer(m, start, index, strings, name, Find(m, 0, index, strings).value);
    }
  }

  /** The whole name, read from where it was written. */
  predicate ReadsBack(r: Written, index: nat, strings: seq<Str>)
    requires index <= MAX_PACKET && MAX_PACKET + 256 <= |r.m|
  {
    var q := Read(r.m, MAX_PACKET, index, index);
    q.Items? && q.next == r.index && q.reach <= r.index && SameParts(PutItems(EMPTY_NAME, q.items), strings)
  }

  lemma HeadPointer(m: seq<byte>, index: nat, strings: seq<Str>, p: nat)
    requires p < index <= MAX_PACKET && MAX_PACKET + 256 <= |m| && strings != []
    requires Find(m, 0, index, strings) == Some(p) && Append(m, index, strings).complete
    requires Read(m, MAX_PACKET, p, p).reach <= index
    ensures ReadsBack(Append(m, index, strings), index, strings)
  {
    CopyStays(m, index, strings, p);
    ReadsPointer(Append(m, index, strings).m, index, index, p);
    var items := Read(m, MAX_PACKET, p, p).items;
    assert ([Jump] + items)[1..] == items;
  }

  lemma HeadLabel(m: seq<byte>, index: nat, strings: seq<Str>)
    requires index <= MAX_PACKET && MAX_PACKET + 256 <= |m| && CallerShape(strings) && strings != []
    requires Find(m, 0, index, strings) == None && Append(m, index, strings).complete
    requires FromWritten(AimOf(m, index, strings)) && PointsBelow(AimOf(m, index, strings), index)
    ensures ReadsBack(Append(m, index, strings), index, strings)
  {
    var r, s := Append(m, index, strings), strings[0];
    LabelFits(m, index, strings);
    var m', index' := Put(m, index, LabelBytes(s)), index + |s| + 1;
    LabelStays(m, index, strings, m', index');
    AimSteps(m, index, strings, m', index');
    Stores(EMPTY_NAME, s);
    TailReads(m', index, index', strings[1..], PutItem(EMPTY_NAME, Text(s)));
    TailStep(m, index, index, strings, EMPTY_NAME, m', index');
    ExtendsFromScratch(PutItems(EMPTY_NAME, Read(r.m, MAX_PACKET, index, index).items), strings);
  }

  /** Round trip: the reader gets the strings back, up to case, and stops where
      the writer stopped. */
  lemma NameReadsBack(m: seq<byte>, index: nat, strings: seq<Str>)
    requires index <= MAX_PACKET && MAX_PACKET + 256 <= |m| && CallerShape(strings)
    requires Append(m, index, strings).complete
    requires FromWritten(AimOf(m, index, strings)) && PointsBelow(AimOf(m, index, strings), index)
    ensures ReadsBack(Append(m, index, strings), index, strings)
  {
    if strings == [] {
      assert Append(m, index, strings).m[index] == 0;
    } else if Find(m, 0, index, strings) == None {
      HeadLabel(m, index, strings);
    } else {
      HeadPointer(m, index, strings, Find(m, 0, index, strings).value);
    }
  }

  lemma ExtendsFromScratch(after: Name, strings: seq<Str>)
    requires Extends(EMPTY_NAME, after, strings)
    ensures SameParts(after, strings)
  {
    forall i | 0 <= i < |strings|
      ensures EqNoCase(strings[i], after.text[i])
    {
      assert EqNoCase(strings[i], after.text[EMPTY_NAME.parts + i]);
    }
  }

  // ----- copies that do not stay as they were read

  /** A reading meets the place of the pointer below exactly if it looks at nothing there or beyond. */
  lemma {:induction false} BelowIff(m: seq<byte>, seg: nat, pos: nat, at: nat)
    requires seg <= pos <= at < MAX_PACKET && MAX_PACKET + 256 <= |m| && Read(m, MAX_PACKET, seg, pos).Items?
    ensures Meet(m, seg, pos, at).Below? <==> Read(m, MAX_PACKET, seg, pos).reach <= at
    decreases seg, at - pos
  {
    if pos < at && m[pos] != 0 {
      ReadReaches(m, MAX_PACKET, seg, pos);
      if m[pos] < 0xC0 {
        if pos + 1 + m[pos] <= at { BelowIff(m, seg, pos + 1 + m[pos], at); }
      } else if pos + 2 <= at {
        BelowIff(m, Target(m, pos), Target(m, pos), at);
      }
    }
  }

  /** Nothing below `at` differs, and at `at` there is a pointer to `p`. */
  predicate Pointed(m: seq<byte>, m': seq<byte>, at: nat, p: nat) {
    && at + 1 < MAX_PACKET && MAX_PACKET + 256 <= |m| == |m'| && p < 0x4000
    && (forall i | 0 <= i < at :: m'[i] == m[i])
    && m'[at] == PointerBytes(p)[0] && m'[at + 1] == PointerBytes(p)[1]
  }

  lemma PointedByAppend(m: seq<byte>, index: nat, strings: seq<Str>, p: nat)
    requires index <= MAX_PACKET && MAX_PACKET + 256 <= |m| && strings != []
    requires Find(m, 0, index, strings) == Some(p) && Append(m, index, strings).complete
    ensures Pointed(m, Append(m, index, strings).m, index, p) && Append(m, index, strings).index == index + 2
  {
  }

  /** A reading that comes to the pointer is led back to where it began. */
  lemma {:induction false} ComesIsUnreadable(m: seq<byte>, m': seq<byte>, seg: nat, pos: nat, at: nat, p: nat)
    requires seg <= pos <= at && Pointed(m, m', at, p) && seg <= p && Meet(m, seg, pos, at).Comes?
    ensures Read(m', MAX_PACKET, seg, pos) == Unreadable
    decreases seg, at - pos
  {
    if pos == at {
      ReadsPointer(m', seg, at, p);
    } else if m[pos] < 0xC0 {
      ComesIsUnreadable(m, m', seg, pos + 1 + m[pos], at, p);
    } else {
      assert Target(m', pos) == Target(m, pos);
      ComesIsUnreadable(m, m', Target(m, pos), Target(m, pos), at, p);
    }
  }

  /** Not a reading of the bytes below `end`. */
  predicate Overreads(q: Reading, end: nat) {
    q.Unreadable? || q.reach > end
  }

  /** What is read behind a label that lay across the place of the pointer. */
  lemma BehindLabel(m': seq<byte>, seg: nat, end: nat, at: nat, p: nat)
    requires seg <= at < end <= MAX_PACKET && at + 1 < MAX_PACKET && MAX_PACKET + 256 <= |m'| && p < 0x4000
    requires m'[at + 1] == PointerBytes(p)[1]
    requires !(end == at + 1 && p % 256 == 0) && !(end == at + 2 == MAX_PACKET)
    ensures Overreads(Read(m', MAX_PACKET, seg, end), at + 2)
  {
  }

  lemma {:induction false} AcrossOverreads(m: seq<byte>, m': seq<byte>, seg: nat, pos: nat, at: nat, p: nat)
    requires seg <= pos <= at && Pointed(m, m', at, p) && Meet(m, seg, pos, at).LabelAcross?
    requires var end := Meet(m, seg, pos, at).end;
      !(end == at + 1 && p % 256 == 0) && !(end == at + 2 == MAX_PACKET)
    ensures Overreads(Read(m', MAX_PACKET, seg, pos), at + 2)
    decreases seg, at - pos
  {
    if m[pos] < 0xC0 {
      var next := pos + 1 + m[pos];
      if next > at {
        if next <= MAX_PACKET { BehindLabel(m', seg, next, at, p); }
      } else {
        AcrossOverreads(m, m', seg, next, at, p);
      }
    } else {
      assert Target(m', pos) == Target(m, pos);
      AcrossOverreads(m, m', Target(m, pos), Target(m, pos), at, p);
    }
  }

  /** A pointer whose copy is not there any more once it has been written. */
  predicate Lost(aim: Aim, start: nat) {
    aim.Pointer? && !Doubtful(aim) && (aim.target >= start || !aim.meeting.Below?)
  }

  lemma LostPointer(m: seq<byte>, start: nat, index: nat, strings: seq<Str>, p: nat)
    requires start <= index <= MAX_PACKET && MAX_PACKET + 256 <= |m| && strings != []
    requires Find(m, 0, index, strings) == Some(p) && Append(m, index, strings).complete
    ensures var r, aim := Append(m, index, strings), AimOf(m, index, strings);
      && (Lost(aim, start) ==> Overreads(Read(r.m, MAX_PACKET, start, index), r.index))
      && (!PointsBelow(aim, start) || RunsOn(aim) ==> Read(r.m, MAX_PACKET, start, index) == Unreadable)
  {
    var r, aim := Append(m, index, strings), AimOf(m, index, strings);
    PointedByAppend(m, index, strings, p);
    ReadsPointer(r.m, start, index, p);
    if RunsOn(aim) {
      ComesIsUnreadable(m, r.m, p, p, index, p);
    } else if Lost(aim, start) && aim.meeting.LabelAcross? {
      AcrossOverreads(m, r.m, p, p, index, p);
    }
  }

  lemma LostInTail(m: seq<byte>, start: nat, index: nat, strings: seq<Str>, m': seq<byte>, index': nat)
    requires strings != [] && Plain(strings[0]) && start <= index <= MAX_PACKET && MAX_PACKET + 256 <= |m|
    requires Find(m, 0, index, strings) == None && Append(m, index, strings).complete
    requires index' == index + |strings[0]| + 1 < MAX_PACKET && m' == Put(m, index, LabelBytes(strings[0]))
    ensures var r, r' := Append(m, index, strings), Append(m', index', strings[1..]);
      && r'.complete && r.m == r'.m && r.index == r'.index
      && AimOf(m, index, strings) == AimOf(m', index', strings[1..])
      && (forall end :: Overreads(Read(r.m, MAX_PACKET, start, index), end)
                        <==> Overreads(Read(r.m, MAX_PACKET, start, index'), end))
      && (Read(r.m, MAX_PACKET, start, index) == Unreadable <==> Read(r.m, MAX_PACKET, start, index') == Unreadable)
  {
    LabelStays(m, index, strings, m', index');
    AimSteps(m, index, strings, m', index');
    ReadsLabel(Append(m, index, strings).m, start, index, strings[0]);
  }

  /** A name whose pointer leads into itself, or whose copy ran on into it, cannot be
      read at all; other names that lost their copy cannot be read from their own bytes. */
  lemma {:induction false} CannotBeRead(m: seq<byte>, start: nat, index: nat, strings: seq<Str>)
    requires start <= index <= MAX_PACKET && MAX_PACKET + 256 <= |m|
    requires forall i | 0 <= i < |strings| :: Plain(strings[i])
    requires Append(m, index, strings).complete
    ensures var r, aim := Append(m, index, strings), AimOf(m, index, strings);
      && (Lost(aim, start) ==> Overreads(Read(r.m, MAX_PACKET, start, index), r.index))
      && (!PointsBelow(aim, start) || RunsOn(aim) ==> Read(r.m, MAX_PACKET, start, index) == Unreadable)
    decreases |strings|
  {
    if strings != [] {
      if Find(m, 0, index, strings) == None {
        LabelFits(m, index, strings);
        var m', index' := Put(m, index, LabelBytes(strings[0])), index + |strings[0]| + 1;
        LostInTail(m, start, index, strings, m', index');
        CannotBeRead(m', start, index', strings[1..]);
      } else {
        LostPointer(m, start, index, strings, Find(m, 0, index, strings).value);
      }
    }
  }

  /** The copy was read from written bytes exactly if its reading met the pointer's place below. */
  lemma {:induction false} FromWrittenIff(m: seq<byte>, index: nat, strings: seq<Str>)
    requires index <= MAX_PACKET && MAX_PACKET + 256 <= |m|
    requires forall i | 0 <= i < |strings| :: Plain(strings[i])
    requires Append(m, index, strings).complete
    ensures var aim := AimOf(m, index, strings); FromWritten(aim) <==> (aim.Pointer? ==> aim.meeting.Below?)
    decreases |strings|
  {
    if strings != [] {
      var s := strings[0];
      if Find(m, 0, index, strings) == None {
        LabelFits(m, index, strings);
        var m', index' := Put(m, index, LabelBytes(s)), index + |s| + 1;
        LabelStays(m, index, strings, m', index');
        AimSteps(m, index, strings, m', index');
        FromWrittenIff(m', index', strings[1..]);
      } else {
        var p := Find(m, 0, index, strings).value;
        PointedByAppend(m, index, strings, p);
        BelowIff(m, p, p, index);
      }
    }
  }

  /** Copies that are not doubtful: what was read from written bytes and begins below the name, reads back. */
  lemma CopyDecides(m: seq<byte>, index: nat, strings: seq<Str>)
    requires index <= MAX_PACKET && MAX_PACKET + 256 <= |m| && CallerShape(strings)
    requires Append(m, index, strings).complete && !Doubtful(AimOf(m, index, strings))
    ensures ReadsBack(Append(m, index, strings), index, strings)
            <==> FromWritten(AimOf(m, index, strings)) && PointsBelow(AimOf(m, index, strings), index)
  {
    if FromWritten(AimOf(m, index, strings)) && PointsBelow(AimOf(m, index, strings), index) {
      NameReadsBack(m, index, strings);
    } else {
      PlainCaller(strings);
      FromWrittenIff(m, index, strings);
      CannotBeRead(m, index, index, strings);
    }
  }

  // ----- what any copy spells once the pointer is written

  function Behind(item: Item, rest: Option<seq<Item>>): Option<seq<Item>> {
    match rest case None => None case Some(items) => Some([item] + items)
  }

  /** A label of which the bytes from `at` on are those of the pointer. */
  function Patched(m: seq<byte>, pos: nat, at: nat, p: nat, n: nat): Label
    requires pos < at <= |m| && n <= 2 && p < 0x4000 && at - pos - 1 + n <= 63
  {
    m[pos + 1..at] + PointerBytes(p)[..n]
  }

  /**
   The items that are read from `pos` when there is a pointer to `p` at `at`, as the
   bytes below `at` tell; None if that cannot be read, or not from the bytes up to the
   end of the pointer.
   */
  function Spells(m: seq<byte>, seg: nat, pos: nat, at: nat, p: nat): Option<seq<Item>>
    requires seg <= pos <= at && at + 1 < MAX_PACKET && MAX_PACKET + 256 <= |m| && p < 0x4000
    decreases seg, at - pos
  {
    if pos == at then None
    else if m[pos] == 0 then Some([])
    else if m[pos] < 0xC0 then
      var next := pos + 1 + m[pos];
      if m[pos] > 63 then None
      else if next <= at then Behind(Text(m[pos + 1..next]), Spells(m, seg, next, at, p))
      else if next == at + 1 && p % 256 == 0 then Some([Text(Patched(m, pos, at, p, 1))])
      else if next == at + 2 == MAX_PACKET then Some([Text(Patched(m, pos, at, p, 2))])
      else None
    else
      var t := (m[pos] as int) % 64 * 256 + if pos + 1 == at then PointerBytes(p)[0] else m[pos + 1];
      if t >= seg then None else Behind(Jump, Spells(m, t, t, at, p))
  }

  /** What was at the pointer's place, or behind it, makes no difference. */
  lemma {:induction false} SpelledByWritten(m: seq<byte>, n: seq<byte>, seg: nat, pos: nat, at: nat, p: nat)
    requires seg <= pos <= at && at + 1 < MAX_PACKET && p < 0x4000
    requires MAX_PACKET + 256 <= |m| && MAX_PACKET + 256 <= |n| && forall i | 0 <= i < at :: m[i] == n[i]
    ensures Spells(n, seg, pos, at, p) == Spells(m, seg, pos, at, p)
    decreases seg, at - pos
  {
    if pos < at && 0 < m[pos] <= 63 {
      var next := pos + 1 + m[pos];
      if next <= at {
        assert m[pos + 1..next] == n[pos + 1..next];
        SpelledByWritten(m, n, seg, next, at, p);
      } else {
        assert m[pos + 1..at] == n[pos + 1..at];
      }
    } else if pos < at && m[pos] >= 0xC0 {
      var t := (m[pos] as int) % 64 * 256 + if pos + 1 == at then PointerBytes(p)[0] else m[pos + 1];
      if t < seg { SpelledByWritten(m, n, t, t, at, p); }
    }
  }

  /** A reading of the bytes below `end` that gives these items. */
  predicate Gives(q: Reading, end: nat, items: Option<seq<Item>>) {
    match items
    case None => Overreads(q, end)
    case Some(list) => q.Items? && q.reach <= end && q.items == list
  }

  lemma PatchedIs(m: seq<byte>, m': seq<byte>, pos: nat, at: nat, p: nat, n: nat)
    requires Pointed(m, m', at, p) && pos < at && n <= 2 && at - pos - 1 + n <= 63
    ensures m'[pos + 1..at + n] == Patched(m, pos, at, p, n)
  {
  }

  lemma SpellsLabel(m: seq<byte>, m': seq<byte>, seg: nat, pos: nat, at: nat, p: nat)
    requires seg <= pos < at && Pointed(m, m', at, p) && 0 < m[pos] <= 63 && pos + 1 + m[pos] > at
    ensures Gives(Read(m', MAX_PACKET, seg, pos), at + 2, Spells(m, seg, pos, at, p))
  {
    var next := pos + 1 + m[pos];
    if next == at + 1 && p % 256 == 0 {
      PatchedIs(m, m', pos, at, p, 1);
    } else if next == at + 2 == MAX_PACKET {
      PatchedIs(m, m', pos, at, p, 2);
    } else if next <= MAX_PACKET {
      BehindLabel(m', seg, next, at, p);
    }
  }

  lemma {:induction false} SpellsWhatIsRead(m: seq<byte>, m': seq<byte>, seg: nat, pos: nat, at: nat, p: nat)
    requires seg <= pos <= at && Pointed(m, m', at, p) && seg <= p
    ensures Gives(Read(m', MAX_PACKET, seg, pos), at + 2, Spells(m, seg, pos, at, p))
    decreases seg, at - pos
  {
    if pos == at {
      ReadsPointer(m', seg, at, p);
    } else if 0 < m[pos] <= 63 {
      var next := pos + 1 + m[pos];
      if next <= at {
        assert m'[pos + 1..next] == m[pos + 1..next];
        SpellsWhatIsRead(m, m', seg, next, at, p);
        ReadText(m', MAX_PACKET, seg, pos, next, m[pos + 1..next]);
      } else {
        SpellsLabel(m, m', seg, pos, at, p);
      }
    } else if m[pos] >= 0xC0 {
      var t := Target(m', pos);
      if t < seg { SpellsWhatIsRead(m, m', t, t, at, p); }
    }
  }

  /** What the whole name spells: the labels in front of the pointer, and what its copy spells then. */
  function Whole(m: seq<byte>, start: nat, index: nat, strings: seq<Str>): Option<seq<Item>>
    requires index <= MAX_PACKET && MAX_PACKET + 256 <= |m| && start <= index
    decreases |strings|
  {
    if strings == [] then Some([])
    else match Find(m, 0, index, strings)
      case Some(p) =>
        if p >= start || index + 1 >= MAX_PACKET then None else Behind(Jump, Spells(m, p, p, index, p))
      case None =>
        var bytes := LabelBytes(strings[0]);
        if |strings[0]| > 63 || index + |bytes| >= MAX_PACKET then None
        else Behind(Text(strings[0]), Whole(Put(m, index, bytes), start, index + |bytes|, strings[1..]))
  }

  /** As `Gives`, and the reading stops where the name ends. */
  predicate GivesName(q: Reading, end: nat, items: Option<seq<Item>>) {
    Gives(q, end, items) && (items.Some? ==> q.next == end)
  }

  lemma WholePointer(m: seq<byte>, start: nat, index: nat, strings: seq<Str>, p: nat)
    requires start <= index <= MAX_PACKET && MAX_PACKET + 256 <= |m| && strings != []
    requires Find(m, 0, index, strings) == Some(p) && Append(m, index, strings).complete
    ensures var r := Append(m, index, strings);
      GivesName(Read(r.m, MAX_PACKET, start, index), r.index, Whole(m, start, index, strings))
  {
    var r := Append(m, index, strings);
    PointedByAppend(m, index, strings, p);
    ReadsPointer(r.m, start, index, p);
    if p < start { SpellsWhatIsRead(m, r.m, p, p, index, p); }
  }

  lemma WholeBehindLabel(m: seq<byte>, start: nat, index: nat, strings: seq<Str>, bytes: seq<byte>, m': seq<byte>,
                         index': nat, rest: Option<seq<Item>>)
    requires strings != [] && start <= index <= MAX_PACKET && MAX_PACKET + 256 <= |m| && bytes == LabelBytes(strings[0])
    requires |strings[0]| <= 63 && Find(m, 0, index, strings) == None
    requires index' == index + |bytes| < MAX_PACKET && m' == Put(m, index, bytes)
    requires rest == Whole(m', start, index', strings[1..])
    ensures Whole(m, start, index, strings) == Behind(Text(strings[0]), rest)
  {
  }

  lemma WholeSteps(m: seq<byte>, start: nat, index: nat, strings: seq<Str>, m': seq<byte>, index': nat)
    requires strings != [] && Plain(strings[0]) && start <= index <= MAX_PACKET && MAX_PACKET + 256 <= |m|
    requires Find(m, 0, index, strings) == None
    requires index' == index + |strings[0]| + 1 < MAX_PACKET && m' == Put(m, index, LabelBytes(strings[0]))
    ensures Whole(m, start, index, strings) == Behind(Text(strings[0]), Whole(m', start, index', strings[1..]))
  {
    LabelLength(strings[0]);
    WholeBehindLabel(m, start, index, strings, LabelBytes(strings[0]), m', index',
                     Whole(m', start, index', strings[1..]));
  }

  lemma WholeLabel(r: Written, start: nat, index: nat, s: Str, rest: Option<seq<Item>>)
    requires Plain(s) && start <= index && index + |s| + 1 < MAX_PACKET && MAX_PACKET + 256 <= |r.m|
    requires forall i | 0 <= i <= |s| :: r.m[index + i] == LabelBytes(s)[i]
    requires GivesName(Read(r.m, MAX_PACKET, start, index + |s| + 1), r.index, rest)
    ensures GivesName(Read(r.m, MAX_PACKET, start, index), r.index, Behind(Text(s), rest))
  {
    ReadsLabel(r.m, start, index, s);
  }

  /** What is read of the finished name is what it spells. */
  lemma {:induction false} WholeIsRead(m: seq<byte>, start: nat, index: nat, strings: seq<Str>)
    requires start <= index <= MAX_PACKET && MAX_PACKET + 256 <= |m|
    requires forall i | 0 <= i < |strings| :: Plain(strings[i])
    requires Append(m, index, strings).complete
    ensures var r := Append(m, index, strings);
      GivesName(Read(r.m, MAX_PACKET, start, index), r.index, Whole(m, start, index, strings))
    decreases |strings|
  {
    if strings == [] {
      assert Append(m, index, strings).m[index] == 0;
    } else if Find(m, 0, index, strings) == None {
      var s := strings[0];
      LabelFits(m, index, strings);
      var m', index' := Put(m, index, LabelBytes(s)), index + |s| + 1;
      LabelStays(m, index, strings, m', index');
      WholeIsRead(m', start, index', strings[1..]);
      WholeSteps(m, start, index, strings, m', index');
      WholeLabel(Append(m, index, strings), start, index, s, Whole(m', start, index', strings[1..]));
    } else {
      WholePointer(m, start, index, strings, Find(m, 0, index, strings).value);
    }
  }

  /**
   A complete name reads back exactly if what it spells are the strings, up to case.
   Unless its copy is doubtful that is the case exactly if the copy its pointer stands
   for, if there is one, begins below the name and was read from written bytes.
   */
  lemma NameReadsBackIff(m: seq<byte>, index: nat, strings: seq<Str>)
    requires index <= MAX_PACKET && MAX_PACKET + 256 <= |m| && CallerShape(strings)
    requires Append(m, index, strings).complete
    ensures var r, aim, spelled := Append(m, index, strings), AimOf(m, index, strings), Whole(m, index, index, strings);
      && (ReadsBack(r, index, strings) <==> spelled.Some? && SameParts(PutItems(EMPTY_NAME, spelled.value), strings))
      && (!Doubtful(aim) ==> (ReadsBack(r, index, strings) <==> FromWritten(aim) && PointsBelow(aim, index)))
  {
    PlainCaller(strings);
    WholeIsRead(m, index, index, strings);
    if !Doubtful(AimOf(m, index, strings)) { CopyDecides(m, index, strings); }
  }

  lemma PlainCaller(strings: seq<Str>)
    requires CallerShape(strings)
    ensures forall i | 0 <= i < |strings| :: Plain(strings[i])
  {
    forall i | 0 <= i < |strings|
      ensures Plain(strings[i])
    {
      assert i > 0 ==> Later(strings[1..][i - 1]);
    }
  }

  // ----- writing a name again

  lemma {:induction false} FindsSome(m: seq<byte>, p: nat, index: nat, strings: seq<Str>, q: nat)
    requires strings != [] && p <= q < index <= MAX_PACKET && MAX_PACKET + 256 <= |m| && Accepts(m, q, strings)
    ensures Find(m, p, index, strings).Some?
    decreases q - p
  {
    if p < q { FindsSome(m, p + 1, index, strings, q); }
  }

  /** The same strings, of which all but the first may differ in case. */
  predicate Again(strings: seq<Str>, again: seq<Str>) {
    && strings != [] && |again| == |strings| && again[0] == strings[0]
    && forall i :: 0 <= i < |strings| ==> EqNoCase(strings[i], again[i])
  }

  lemma AcceptsAgain(m: seq<byte>, p: nat, strings: seq<Str>, again: seq<Str>)
    requires p <= MAX_PACKET && MAX_PACKET + 256 <= |m| && Again(strings, again) && Accepts(m, p, strings)
    ensures Accepts(m, p, again)
  {
    var name := PutItems(EMPTY_NAME, Read(m, MAX_PACKET, p, p).items);
    forall i | 0 <= i < |again| ensures EqNoCase(again[i], name.text[i]) {
      assert EqNoCase(strings[i], name.text[i]) && EqNoCase(strings[i], again[i]);
    }
  }

  lemma BytesOfLabel(m: seq<byte>, index: nat, s: Str)
    requires Plain(s) && index + |s| < |m| && forall i | 0 <= i <= |s| :: m[index + i] == LabelBytes(s)[i]
    ensures m[index] == |s| && m[index + 1..index + 1 + |s|] == s
  {
    LabelBytesOfPlain(s);
    assert m[index + 0] == LabelBytes(s)[0];
    forall i | 0 <= i < |s| ensures m[index + 1 + i] == s[i] {
      assert m[index + (i + 1)] == LabelBytes(s)[i + 1];
    }
  }

  lemma FirstWritten(m: seq<byte>, index: nat, strings: seq<Str>, s: Str, n: seq<byte>)
    requires index < MAX_PACKET && MAX_PACKET + 256 <= |m| && strings != [] && s == strings[0] && Plain(s)
    requires Find(m, 0, index, strings) == None && Append(m, index, strings).complete
    requires n == Append(m, index, strings).m
    ensures |n| == |m| && n[index] == |s| && n[index + 1..index + 1 + |s|] == s
  {
    LabelFits(m, index, strings);
    LabelStays(m, index, strings, Put(m, index, LabelBytes(s)), index + |s| + 1);
    BytesOfLabel(n, index, s);
  }

  lemma AcceptsWhatIsThere(n: seq<byte>, p: nat, strings: seq<Str>)
    requires strings != [] && |strings[0]| < 256 && p <= MAX_PACKET && MAX_PACKET + 256 <= |n|
    requires n[p] == |strings[0]| && n[p + 1..p + 1 + |strings[0]|] == strings[0]
    requires Read(n, MAX_PACKET, p, p).Items?
    requires SameParts(PutItems(EMPTY_NAME, Read(n, MAX_PACKET, p, p).items), strings)
    ensures Accepts(n, p, strings)
  {
  }

  /** The name that has just been written is taken for a copy of itself. */
  lemma AcceptsWritten(m: seq<byte>, index: nat, strings: seq<Str>)
    requires index < MAX_PACKET && MAX_PACKET + 256 <= |m| && CallerShape(strings) && strings != []
    requires Find(m, 0, index, strings) == None && Append(m, index, strings).complete
    requires ReadsBack(Append(m, index, strings), index, strings)
    ensures Accepts(Append(m, index, strings).m, index, strings)
  {
    var n := Append(m, index, strings).m;
    PlainCaller(strings);
    FirstWritten(m, index, strings, strings[0], n);
    AcceptsWhatIsThere(n, index, strings);
  }

  lemma AcceptsSameBytes(m: seq<byte>, n: seq<byte>, p: nat, strings: seq<Str>, reach: nat)
    requires p <= MAX_PACKET && MAX_PACKET + 256 <= |m| && |n| == |m| && strings != [] && |strings[0]| < 256
    requires p + 1 + |strings[0]| <= reach <= |m| && n[..reach] == m[..reach]
    requires Accepts(m, p, strings) && Read(n, MAX_PACKET, p, p) == Read(m, MAX_PACKET, p, p)
    ensures Accepts(n, p, strings)
  {
    SameByte(m, n, reach, p);
    SameLabel(m, n, reach, p + 1, p + 1 + |strings[0]|);
  }

  lemma LabelIsReached(m: seq<byte>, p: nat, s: Str)
    requires p < MAX_PACKET && MAX_PACKET + 256 <= |m| && Plain(s) && m[p] == |s| && Read(m, MAX_PACKET, p, p).Items?
    ensures p + 1 + |s| <= Read(m, MAX_PACKET, p, p).reach
  {
    ReadReaches(m, MAX_PACKET, p, p);
  }

  /** So is the copy that its pointer stands for. */
  lemma AcceptsOld(m: seq<byte>, index: nat, strings: seq<Str>, p: nat)
    requires p < index <= MAX_PACKET && MAX_PACKET + 256 <= |m| && strings != [] && Plain(strings[0])
    requires Accepts(m, p, strings) && Read(m, MAX_PACKET, p, p).reach <= index
    ensures Accepts(Append(m, index, strings).m, p, strings)
  {
    LabelIsReached(m, p, strings[0]);
    OldNamesSurvive(m, index, strings, p);
    AppendFrame(m, index, strings);
    AcceptsSameBytes(m, Append(m, index, strings).m, p, strings, index);
  }

  /** Written once more, a name takes two bytes. */
  lemma WrittenAgain(m: seq<byte>, index: nat, strings: seq<Str>, again: seq<Str>)
    requires index <= MAX_PACKET && MAX_PACKET + 256 <= |m| && CallerShape(strings) && Again(strings, again)
    requires Append(m, index, strings).complete && Append(m, index, strings).index + 1 < MAX_PACKET
    requires FromWritten(AimOf(m, index, strings)) && PointsBelow(AimOf(m, index, strings), index)
    ensures var r := Append(m, index, strings); var a := Append(r.m, r.index, again);
      a.complete && a.written == 2 && a.index == r.index + 2
  {
    var r := Append(m, index, strings);
    var p := index;
    NameReadsBack(m, index, strings);
    match Find(m, 0, index, strings) {
      case None =>
        AcceptsWritten(m, index, strings);
      case Some(q) =>
        p := q;
        AcceptsOld(m, index, strings, q);
    }
    AcceptsAgain(r.m, p, strings, again);
    FindsSome(r.m, 0, r.index, again, p);
  }

  // ----- running out of room

  /** The bytes of the name without compression, the final 0 not counted. */
  function PlainSize(strings: seq<Str>): nat {
    if strings == [] then 0 else |strings[0]| + 1 + PlainSize(strings[1..])
  }

  /** The bytes the writer needs below the end of the packet: the whole name, or
      the labels in front of the back-pointer and the pointer. */
  predicate Fits(aim: Aim, index: nat, strings: seq<Str>) {
    if aim.Pointer? then aim.index + 1 < MAX_PACKET else index + PlainSize(strings) < MAX_PACKET
  }

  /** The writer completes a name exactly if there is room for it, and then stops
      behind its pointer or its final 0. The count is what the index moved by. */
  lemma {:induction false} CompleteIff(m: seq<byte>, index: nat, strings: seq<Str>)
    requires index <= MAX_PACKET && MAX_PACKET + 256 <= |m|
    requires forall i | 0 <= i < |strings| :: Plain(strings[i])
    ensures var r, aim := Append(m, index, strings), AimOf(m, index, strings);
      && (r.complete <==> Fits(aim, index, strings))
      && r.written == r.index - index
      && (r.complete ==> r.index == if aim.Pointer? then aim.index + 2 else index + PlainSize(strings) + 1)
      && (aim.Pointer? ==> index <= aim.index && aim.index + 2 <= index + PlainSize(strings))
    decreases |strings|
  {
    if strings != [] {
      var s := strings[0];
      LabelBytesOfPlain(s);
      if Find(m, 0, index, strings) == None && index + |s| + 1 < MAX_PACKET {
        var m', index' := Put(m, index, LabelBytes(s)), index + |s| + 1;
        CompleteIff(m', index', strings[1..]);
        AimSteps(m, index, strings, m', index');
        AppendLabel(m, index, strings, m', index', Append(m', index', strings[1..]));
      }
    }
  }

  /** So room for the uncompressed name is enough. */
  lemma RoomSuffices(m: seq<byte>, index: nat, strings: seq<Str>)
    requires index + PlainSize(strings) < MAX_PACKET && MAX_PACKET + 256 <= |m|
    requires forall i | 0 <= i < |strings| :: Plain(strings[i])
    ensures var r := Append(m, index, strings);
            r.complete && r.written == r.index - index && r.index <= index + PlainSize(strings) + 1
  {
    CompleteIff(m, index, strings);
  }

  /** The count is positive although the name was cut off exactly if there is room
      for the first label, or for a pointer in its place, but not for the name. */
  lemma UnnoticedIff(m: seq<byte>, index: nat, strings: seq<Str>)
    requires index <= MAX_PACKET && MAX_PACKET + 256 <= |m| && strings != []
    requires forall i | 0 <= i < |strings| :: Plain(strings[i])
    ensures var r := Append(m, index, strings);
      r.written > 0 && !r.complete
      <==> && Find(m, 0, index, strings) == None && index + |strings[0]| + 1 < MAX_PACKET
           && !Fits(AimOf(m, index, strings), index, strings)
  {
    CompleteIff(m, index, strings);
    LabelBytesOfPlain(strings[0]);
  }

  /** A buffer nothing has been written to. */
  predicate Zeroed(m: seq<byte>) {
    |m| == MAX_PACKET + 256 && forall i | 0 <= i < |m| :: m[i] == 0
  }

  /** No position holds the length byte, so there is no copy. */
  lemma NoCopy(m: seq<byte>, index: nat, strings: seq<Str>)
    requires strings != [] && Plain(strings[0]) && index <= MAX_PACKET && MAX_PACKET + 256 <= |m|
    requires forall q | 0 <= q < index :: m[q] != |strings[0]|
    ensures Find(m, 0, index, strings) == None
  {
    FindIsFirst(m, 0, index, strings, None);
  }

  lemma NoCopyInZeros(m: seq<byte>, index: nat, strings: seq<Str>)
    requires Zeroed(m) && strings != [] && Plain(strings[0]) && index <= MAX_PACKET
    ensures Find(m, 0, index, strings) == None
  {
    NoCopy(m, index, strings);
  }

  /** One label alone in a buffer of zeros. */
  predicate OneLabel(m: seq<byte>, at: nat, s: Str) {
    && |m| == MAX_PACKET + 256 && at + |s| + 1 < MAX_PACKET && Plain(s)
    && (forall i | 0 <= i < at :: m[i] == 0)
    && (forall i | 0 <= i <= |s| :: m[at + i] == LabelBytes(s)[i])
    && m[at + |s| + 1] == 0
  }

  lemma PutOneLabel(m: seq<byte>, at: nat, s: Str)
    requires Zeroed(m) && Plain(s) && at + |s| + 1 < MAX_PACKET
    ensures |LabelBytes(s)| == |s| + 1 && OneLabel(Put(m, at, LabelBytes(s)), at, s)
  {
    LabelBytesOfPlain(s);
    var bytes := LabelBytes(s);
    var m' := Put(m, at, bytes);
    forall i | 0 <= i <= |s|
      ensures m'[at + i] == bytes[i]
    {
    }
  }

  lemma NoFive(m: seq<byte>)
    requires Zeroed(m)
    ensures |LabelBytes([0x61, 0x62])| == 3
    ensures Find(Put(m, 1455, LabelBytes([0x61, 0x62])), 0, 1458, [LOCAL]) == None
  {
    var ab: Str := [0x61, 0x62];
    PutOneLabel(m, 1455, ab);
    var m' := Put(m, 1455, LabelBytes(ab));
    forall q | 0 <= q < 1458
      ensures m'[q] != 5
    {
      if q >= 1455 {
        assert m'[1455 + (q - 1455)] == LabelBytes(ab)[q - 1455];
      }
    }
    NoCopy(m', 1458, [LOCAL]);
  }

  /** The returned count hides a name that was cut off: "ab.local" at offset 1455
      of a zeroed packet stops after "ab", yet the result is 3, not 0. */
  lemma CutOffUnnoticed(m: seq<byte>)
    requires Zeroed(m)
    ensures var r := Append(m, 1455, [[0x61, 0x62], LOCAL]); r.written == 3 && !r.complete
  {
    var ab: Str := [0x61, 0x62];
    var m' := Put(m, 1455, LabelBytes(ab));
    NoCopyInZeros(m, 1455, [ab, LOCAL]);
    NoFive(m);
    AppendLabel(m, 1455, [ab, LOCAL], m', 1458, Append(m', 1458, [LOCAL]));
  }

  lemma OneLabelName(s: Str)
    requires Plain(s)
    ensures SameParts(PutItems(EMPTY_NAME, [Text(s)]), [s])
  {
    Stores(EMPTY_NAME, s);
    assert PutItems(EMPTY_NAME, [Text(s)]) == PutItems(PutItem(EMPTY_NAME, Text(s)), []);
  }

  lemma ReadsOneLabel(m: seq<byte>, at: nat, s: Str)
    requires OneLabel(m, at, s)
    ensures m[at] == |s| && m[at + 1..at + 1 + |s|] == s
    ensures Read(m, MAX_PACKET, at, at) == Items([Text(s)], at + |s| + 2, at + |s| + 2)
  {
    LabelBytesOfPlain(s);
    ReadsLabel(m, at, at, s);
    assert m[at + 0] == LabelBytes(s)[0];
    forall i | 0 <= i < |s|
      ensures m[at + 1 + i] == s[i]
    {
      assert m[at + (i + 1)] == LabelBytes(s)[i + 1];
    }
  }

  /** A label with a zero behind it is accepted as a copy of a one-label name. */
  lemma FindsLabel(m: seq<byte>, at: nat, s: Str)
    requires OneLabel(m, at, s)
    ensures Find(m, 0, at + |s| + 1, [s]) == Some(at)
  {
    ReadsOneLabel(m, at, s);
    OneLabelName(s);
    FindIsFirst(m, 0, at + |s| + 1, [s], Some(at));
  }

  lemma RunsOnFromLabel(m: seq<byte>, at: nat, s: Str, index: nat)
    requires OneLabel(m, at, s) && at + |s| + 2 < MAX_PACKET && index == at + |s| + 1
    ensures Find(m, 0, index, [s]) == Some(at) && Append(m, index, [s]).complete
    ensures AimOf(m, index, [s]) == Pointer(at, index + 1, index, Comes)
  {
    FindsLabel(m, at, s);
    ReadsOneLabel(m, at, s);
    assert Meet(m, at, at, index) == Comes;
  }

  /** A label that a name which was cut off has left behind, with a zero after it:
      writing the label next makes it a pointer to bytes that lead to the pointer. */
  lemma CutOffLabelFound(m: seq<byte>, at: nat, s: Str)
    requires OneLabel(m, at, s) && at + |s| + 2 < MAX_PACKET
    ensures var index := at + |s| + 1; var r, aim := Append(m, index, [s]), AimOf(m, index, [s]);
      && r.complete && aim == Pointer(at, index + 1, index, Comes)
      && PointsBelow(aim, index) && !FromWritten(aim)
      && Read(r.m, MAX_PACKET, index, index) == Unreadable
  {
    RunsOnFromLabel(m, at, s, at + |s| + 1);
    LostPointer(m, at + |s| + 1, at + |s| + 1, [s], at);
  }

  lemma PutsNothingNew(m: seq<byte>, at: nat, bytes: seq<byte>)
    requires at + |bytes| <= |m| && forall i | 0 <= i < |bytes| :: m[at + i] == bytes[i]
    ensures Put(m, at, bytes) == m
  {
  }

  lemma StaleLabel(m: seq<byte>, s: Str, index: nat)
    requires OneLabel(m, 256, s) && s[|s| - 1] == 0xC1 && index == 256 + |s|
    ensures Find(m, 0, index, [s]) == Some(256)
    ensures m[index] == PointerBytes(256)[0] && m[index + 1] == PointerBytes(256)[1]
  {
    ReadsOneLabel(m, 256, s);
    OneLabelName(s);
    FindIsFirst(m, 0, index, [s], Some(256));
    assert m[256 + |s|] == LabelBytes(s)[|s|];
  }

  lemma StaleAim(m: seq<byte>, s: Str, index: nat)
    requires OneLabel(m, 256, s) && s[|s| - 1] == 0xC1 && index == 256 + |s|
    ensures AimOf(m, index, [s]) == Pointer(256, index + 2, index, LabelAcross(index + 1))
  {
    StaleLabel(m, s, index);
    ReadsOneLabel(m, 256, s);
  }

  lemma StaleCopy(m: seq<byte>, s: Str, index: nat)
    requires OneLabel(m, 256, s) && s[|s| - 1] == 0xC1 && index == 256 + |s|
    ensures Append(m, index, [s]) == Written(m, index + 2, 2, true)
  {
    StaleLabel(m, s, index);
    PutsNothingNew(m, index, PointerBytes(256));
  }

  /** A doubtful copy may still be right: here the pointer happens to consist of the
      very bytes that were there before, and the name reads back. */
  lemma DoubtfulReadsBack(m: seq<byte>, s: Str)
    requires OneLabel(m, 256, s) && s[|s| - 1] == 0xC1
    ensures var index := 256 + |s|; var r, aim := Append(m, index, [s]), AimOf(m, index, [s]);
      r.complete && Doubtful(aim) && !FromWritten(aim) && ReadsBack(r, index, [s])
  {
    var index := 256 + |s|;
    StaleLabel(m, s, index);
    StaleAim(m, s, index);
    StaleCopy(m, s, index);
    ReadsPointer(m, index, index, 256);
    ReadsOneLabel(m, 256, s);
    OneLabelName(s);
    assert ([Jump] + [Text(s)])[1..] == [Text(s)];
  }

  lemma SecondLabelFound(m: seq<byte>, s: Str)
    requires Zeroed(m) && Plain(s)
    ensures |LabelBytes(s)| == |s| + 1 && Find(m, 0, 12, [s, s]) == None
    ensures Find(Put(m, 12, LabelBytes(s)), 0, 12 + |s| + 1, [s]) == Some(12)
  {
    NoCopyInZeros(m, 12, [s, s]);
    PutOneLabel(m, 12, s);
    FindsLabel(Put(m, 12, LabelBytes(s)), 12, s);
  }

  /** A host called "local" (or any name of twice the same label) in a packet
      whose unused bytes are zero: the second label is found in the name being
      written, which becomes a pointer into itself that no reader accepts. */
  lemma HostCalledLocal(m: seq<byte>, s: Str)
    requires Zeroed(m) && Plain(s)
    ensures Append(m, 12, [s, s]).complete && Append(m, 12, [s, s]).written == |s| + 3
    ensures Read(Append(m, 12, [s, s]).m, MAX_PACKET, 12, 12) == Unreadable
  {
    var strings, m', index' := [s, s], Put(m, 12, LabelBytes(s)), 12 + |s| + 1;
    SecondLabelFound(m, s);
    assert strings[1..] == [s];
    AppendLabel(m, 12, strings, m', index', Append(m', index', [s]));
    AimSteps(m, 12, strings, m', index');
    CannotBeRead(m, 12, 12, strings);
  }
}
